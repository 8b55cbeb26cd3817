/**
 * The Bitcoin wire primitives that the file formats are made of: little-endian
 * integers, CompactSize counts and length-prefixed byte strings. A reader is the
 * remaining input; a read consumes a prefix of it or fails the way Go's io.ReadFull
 * fails, keeping a clean end of input apart from an input that ends inside a value.
 */
module Wire {
  import opened Basics

  type byte = b: int | 0 <= b < 256
  type Bytes = seq<byte>
  type uint64 = n: int | 0 <= n < 0x1_0000_0000_0000_0000

  type uint32 = n: int | 0 <= n < 0x1_0000_0000
  type int64 = n: int | -0x8000_0000_0000_0000 <= n < 0x8000_0000_0000_0000

  /** A Go byte slice: its length is an int64. */
  type Blob = b: Bytes | |b| < 0x8000_0000_0000_0000

  type Hash = h: Bytes | |h| == 32 witness seq(32, _ => 0)

  const ZERO_HASH: Hash := [
    0, 0, 0, 0, 0, 0, 0, 0, 0, 0, 0, 0, 0, 0, 0, 0,
    0, 0, 0, 0, 0, 0, 0, 0, 0, 0, 0, 0, 0, 0, 0, 0]

  const HASH_SIZE := 32
  const MAX_BLOCK_PAYLOAD := 4_000_000
  const MAX_MESSAGE_PAYLOAD := 0x200_0000

  datatype Read<+T> =
    | Got(value: T, rest: Bytes)
    | Eof
    | UnexpectedEof
    | Malformed

  // ---------- integers ----------

  /** The conversion uint64(v): a negative value becomes a huge one. */
  function ToUint64(v: int64): uint64 {
    if v < 0 then v + 0x1_0000_0000_0000_0000 else v
  }

  /** The conversion int64(n). */
  function FromUint64(n: uint64): int64 {
    if n < 0x8000_0000_0000_0000 then n else n - 0x1_0000_0000_0000_0000
  }

  // ---------- little-endian integers ----------

  ghost function Pow256(width: nat): (p: nat)
    ensures p >= 1
  {
    if width == 0 then 1 else 256 * Pow256(width - 1)
  }

  function LittleEndian(n: nat, width: nat): (bs: Bytes)
    ensures |bs| == width
  {
    if width == 0 then [] else [n % 256] + LittleEndian(n / 256, width - 1)
  }

  function FromLittleEndian(bs: Bytes): (n: nat)
    ensures n < Pow256(|bs|)
  {
    if bs == [] then 0 else bs[0] + 256 * FromLittleEndian(bs[1..])
  }

  lemma {:induction false} LittleEndianRoundTrip(n: nat, width: nat)
    requires n < Pow256(width)
    ensures FromLittleEndian(LittleEndian(n, width)) == n
  {
    if width > 0 {
      LittleEndianRoundTrip(n / 256, width - 1);
      assert LittleEndian(n, width)[1..] == LittleEndian(n / 256, width - 1);
    }
  }

  lemma {:induction false} LittleEndianOnto(bs: Bytes)
    ensures LittleEndian(FromLittleEndian(bs), |bs|) == bs
  {
    if bs != [] {
      LittleEndianOnto(bs[1..]);
      var n := FromLittleEndian(bs);
      assert n % 256 == bs[0] && n / 256 == FromLittleEndian(bs[1..]);
    }
  }

  lemma PowersOf256()
    ensures Pow256(1) == 0x100
    ensures Pow256(2) == 0x1_0000
    ensures Pow256(4) == 0x1_0000_0000
    ensures Pow256(8) == 0x1_0000_0000_0000_0000
  {
    assert Pow256(3) == 256 * Pow256(2);
    assert Pow256(5) == 256 * Pow256(4);
    assert Pow256(6) == 256 * Pow256(5);
    assert Pow256(7) == 256 * Pow256(6);
  }

  /** Digit `i` counts the 256 to the power of `i`. */
  lemma {:induction false} LittleEndianDigit(n: nat, width: nat, i: nat)
    requires i < width
    ensures LittleEndian(n, width)[i] == n / Pow256(i) % 256
  {
    if i > 0 {
      LittleEndianDigit(n / 256, width - 1, i - 1);
      DivideTwice(n, Pow256(i - 1));
    }
  }

  /** Dividing by 256 and then by `p` is dividing by their product. */
  lemma DivideTwice(n: nat, p: nat)
    requires p > 0
    ensures n / (256 * p) == n / 256 / p
  {
    var q := n / 256 / p;
    var low, r := n % 256, n / 256 % p;
    assert n == 256 * (p * q + r) + low;
    assert 256 * (p * q + r) == q * (256 * p) + 256 * r;
    DivMod(n, 256 * p, q, 256 * r + low);
  }

  // ---------- byte strings one after the other ----------

  function Concat(parts: seq<Bytes>): Bytes {
    if parts == [] then [] else Concat(parts[..|parts| - 1]) + parts[|parts| - 1]
  }

  lemma {:induction false} ConcatAppend(a: seq<Bytes>, b: seq<Bytes>)
    ensures Concat(a + b) == Concat(a) + Concat(b)
    decreases |b|
  {
    if b == [] {
      assert a + b == a;
    } else {
      var init, last := b[..|b| - 1], b[|b| - 1];
      assert (a + b)[..|a + b| - 1] == a + init;
      ConcatAppend(a, init);
    }
  }

  lemma ConcatCons(head: Bytes, parts: seq<Bytes>)
    ensures Concat([head] + parts) == head + Concat(parts)
  {
    ConcatAppend([head], parts);
    assert [head][..0] == [];
    assert Concat([head]) == Concat([]) + head == head;
  }

  lemma ConcatSnoc(parts: seq<Bytes>, last: Bytes)
    ensures Concat(parts + [last]) == Concat(parts) + last
  {
    assert (parts + [last])[..|parts|] == parts;
  }

  lemma Associates(a: Bytes, b: Bytes, c: Bytes)
    ensures a + (b + c) == (a + b) + c
  {
  }

  // ---------- reading ----------

  /** io.ReadFull: a request for zero bytes succeeds even at the end of the input. */
  function ReadFull(r: Bytes, n: nat): Read<Bytes> {
    if n <= |r| then Got(r[..n], r[n..])
    else if r == [] then Eof
    else UnexpectedEof
  }

  function CompactSize(n: uint64): (bs: Bytes)
    ensures bs != []
  {
    if n < 0xfd then [n]
    else if n <= 0xffff then [0xfd] + LittleEndian(n, 2)
    else if n <= 0xffff_ffff then [0xfe] + LittleEndian(n, 4)
    else [0xff] + LittleEndian(n, 8)
  }

  /** wire.VarIntSerializeSize. */
  function CompactSizeLength(n: uint64): nat {
    if n < 0xfd then 1 else if n <= 0xffff then 3 else if n <= 0xffff_ffff then 5 else 9
  }

  /** A count that would fit a shorter form is rejected. */
  function ReadWide(r: Bytes, width: nat, min: nat): Read<uint64>
    requires width <= 8
  {
    PowersOf256();
    match ReadFull(r, width)
    case Got(bs, rest) =>
      PowMonotone(width, 8);
      var n := FromLittleEndian(bs);
      if n < min then Malformed else Got(n, rest)
    case Eof => Eof
    case UnexpectedEof => UnexpectedEof
    case Malformed => Malformed
  }

  lemma {:induction false} PowMonotone(a: nat, b: nat)
    requires a <= b
    ensures Pow256(a) <= Pow256(b)
    decreases b
  {
    if a < b {
      PowMonotone(a, b - 1);
    }
  }

  function ReadCompactSize(r: Bytes): Read<uint64> {
    match ReadFull(r, 1)
    case Got(tag, rest) =>
      if tag[0] == 0xff then ReadWide(rest, 8, 0x1_0000_0000)
      else if tag[0] == 0xfe then ReadWide(rest, 4, 0x1_0000)
      else if tag[0] == 0xfd then ReadWide(rest, 2, 0xfd)
      else Got(tag[0], rest)
    case Eof => Eof
    case UnexpectedEof => UnexpectedEof
    case Malformed => Malformed
  }

  /** A length-prefixed byte string, as wire.WriteVarBytes writes it. */
  function VarBytes(b: Blob): Bytes {
    CompactSize(|b|) + b
  }

  function ReadVarBytes(r: Bytes, maxAllowed: nat): Read<Blob>
    requires maxAllowed < 0x8000_0000_0000_0000
  {
    match ReadCompactSize(r)
    case Got(count, rest) =>
      if count > maxAllowed then Malformed
      else (
        match ReadFull(rest, count)
        case Got(b, rest') => Got(b, rest')
        case Eof => Eof
        case UnexpectedEof => UnexpectedEof
        case Malformed => Malformed
      )
    case Eof => Eof
    case UnexpectedEof => UnexpectedEof
    case Malformed => Malformed
  }

  // ---------- what the readers accept ----------

  lemma CompactSizeHasItsLength(n: uint64)
    ensures |CompactSize(n)| == CompactSizeLength(n)
  {
  }

  /** The four forms of a count, byte for byte. */
  lemma CompactSizeForms(n: uint64)
    ensures n < 253 ==> CompactSize(n) == [n]
    ensures 253 <= n < 65536 ==> CompactSize(n) == [253, n % 256, n / 256]
    ensures 65536 <= n < 4294967296 ==>
              CompactSize(n) == [254, n % 256, n / 256 % 256, n / 65536 % 256, n / 16777216]
    ensures 4294967296 <= n ==> |CompactSize(n)| == 9 && CompactSize(n)[0] == 255
                                && FromLittleEndian(CompactSize(n)[1..]) == n
  {
    PowersOf256();
    if n < 253 {
    } else if n < 65536 {
      assert LittleEndian(n, 2) == [n % 256, n / 256];
    } else if n < 4294967296 {
      assert LittleEndian(n, 4) == [n % 256, n / 256 % 256, n / 65536 % 256, n / 16777216] by {
        LittleEndianDigit(n, 4, 2);
        LittleEndianDigit(n, 4, 3);
        LittleEndianDigit(n, 4, 1);
      }
    } else {
      LittleEndianRoundTrip(n, 8);
      assert CompactSize(n)[1..] == LittleEndian(n, 8);
    }
  }

  lemma ReadWideBack(n: uint64, width: nat, min: nat, rest: Bytes)
    requires width <= 8 && min <= n < Pow256(width)
    ensures ReadWide(LittleEndian(n, width) + rest, width, min) == Got(n, rest)
  {
    var bs := LittleEndian(n, width);
    LittleEndianRoundTrip(n, width);
    assert (bs + rest)[..width] == bs && (bs + rest)[width..] == rest;
  }

  lemma CompactSizeRoundTrip(n: uint64, rest: Bytes)
    ensures ReadCompactSize(CompactSize(n) + rest) == Got(n, rest)
  {
    PowersOf256();
    var r := CompactSize(n) + rest;
    assert r[..1] == [CompactSize(n)[0]];
    assert r[1..] == CompactSize(n)[1..] + rest;
    if n < 0xfd {
    } else if n <= 0xffff {
      ReadWideBack(n, 2, 0xfd, rest);
    } else if n <= 0xffff_ffff {
      ReadWideBack(n, 4, 0x1_0000, rest);
    } else {
      ReadWideBack(n, 8, 0x1_0000_0000, rest);
    }
  }

  /** Only the one canonical encoding of a count is accepted. */
  lemma CompactSizeCanonical(r: Bytes)
    requires ReadCompactSize(r).Got?
    ensures r == CompactSize(ReadCompactSize(r).value) + ReadCompactSize(r).rest
  {
    PowersOf256();
    assert r == [r[0]] + r[1..];
    var width := if r[0] == 0xff then 8 else if r[0] == 0xfe then 4 else if r[0] == 0xfd then 2 else 0;
    if width > 0 {
      LittleEndianOnto(r[1..][..width]);
      assert r[1..] == r[1..][..width] + r[1..][width..];
    }
  }

  lemma VarBytesRoundTrip(b: Blob, rest: Bytes, maxAllowed: nat)
    requires maxAllowed < 0x8000_0000_0000_0000
    ensures ReadVarBytes(VarBytes(b) + rest, maxAllowed) == if |b| <= maxAllowed then Got(b, rest) else Malformed
  {
    CompactSizeRoundTrip(|b|, b + rest);
    assert VarBytes(b) + rest == CompactSize(|b|) + (b + rest);
    assert (b + rest)[..|b|] == b && (b + rest)[|b|..] == rest;
  }

  lemma VarBytesCanonical(r: Bytes, maxAllowed: nat)
    requires maxAllowed < 0x8000_0000_0000_0000
    requires ReadVarBytes(r, maxAllowed).Got?
    ensures var g := ReadVarBytes(r, maxAllowed); |g.value| <= maxAllowed && r == VarBytes(g.value) + g.rest
  {
    CompactSizeCanonical(r);
    var c := ReadCompactSize(r);
    Regroup(CompactSize(c.value), c.rest, c.value);
  }

  lemma Regroup(head: Bytes, body: Bytes, n: nat)
    requires n <= |body|
    ensures head + body == head + body[..n] + body[n..]
  {
    assert body == body[..n] + body[n..];
  }

  /** No proper prefix of a length-prefixed string reads as a value. */
  lemma VarBytesTruncated(b: Blob, cut: nat, maxAllowed: nat)
    requires maxAllowed < 0x8000_0000_0000_0000
    requires cut < |VarBytes(b)|
    ensures !ReadVarBytes(VarBytes(b)[..cut], maxAllowed).Got?
  {
    var whole := VarBytes(b);
    var r := ReadVarBytes(whole[..cut], maxAllowed);
    if r.Got? {
      VarBytesCanonical(whole[..cut], maxAllowed);
      assert whole == whole[..cut] + whole[cut..] == VarBytes(r.value) + (r.rest + whole[cut..]);
      VarBytesRoundTrip(r.value, r.rest + whole[cut..], maxAllowed);
      assert whole == whole + [];
      VarBytesRoundTrip(b, [], maxAllowed);
    }
  }
}
