/**
 * The silent payments producer: tweak keys per block with the largest taproot output of
 * each transaction, the binary file format, and the four dust levels every sealed range
 * is written at. The key computation itself is a library's; here it is part of a
 * transaction.
 */
module SPTweaks {
  import opened Basics
  import opened Wire
  import FileNames
  import Schedule

  const TWEAK_SIZE := 33
  const FILE_HEADER_SIZE := 18
  const FILE_VERSION: byte := 0
  const TYPE_SP_TWEAKS: byte := 2
  const DUST_LIMITS: seq<uint64> := [0, 600, 1000, 3750]

  type Tweak = t: Bytes | |t| == 33 witness seq(33, _ => 0)

  datatype Entry = Entry(tweak: Tweak, maxValue: uint64)

  /** The entries of one block; a Go slice. */
  type Entries = e: seq<Entry> | |e| < 0x8000_0000_0000_0000

  // ---------- indexing a block ----------

  datatype TxOut = TxOut(value: int64, taproot: bool)

  /** What the library says about a transaction. */
  datatype KeyResult = Failed | NotEligible | Key(tweak: Tweak)

  datatype Tx = Tx(coinbase: bool, outs: seq<TxOut>, key: KeyResult)

  predicate Taproot(outs: seq<TxOut>, i: nat, v: uint64)
    requires i < |outs|
  {
    outs[i].taproot && ToUint64(outs[i].value) == v
  }

  /** The largest taproot output value, zero if there is none. */
  ghost predicate IsMaxTaproot(outs: seq<TxOut>, m: uint64) {
    && (forall i: nat, v: uint64 :: i < |outs| && Taproot(outs, i, v) ==> v <= m)
    && (m == 0 || exists i: nat :: i < |outs| && Taproot(outs, i, m))
  }

  method MaxTaproot(outs: seq<TxOut>) returns (m: uint64)
    ensures IsMaxTaproot(outs, m)
  {
    m := 0;
    for k := 0 to |outs|
      invariant forall i: nat, v: uint64 :: i < k && Taproot(outs, i, v) ==> v <= m
      invariant m == 0 || exists i: nat :: i < k && Taproot(outs, i, m)
    {
      if outs[k].taproot {
        var v := ToUint64(outs[k].value);
        assert Taproot(outs, k, v);
        m := if m < v then v else m;
      }
    }
  }

  predicate Eligible(tx: Tx) {
    !tx.coinbase && tx.key.Key?
  }

  /** The entries are those of the block's eligible transactions, in their order. */
  ghost predicate Indexes(txs: seq<Tx>, entries: seq<Entry>)
    decreases |txs|
  {
    if txs == [] then entries == []
    else if !Eligible(txs[|txs| - 1]) then Indexes(txs[..|txs| - 1], entries)
    else
      && entries != []
      && entries[|entries| - 1].tweak == txs[|txs| - 1].key.tweak
      && IsMaxTaproot(txs[|txs| - 1].outs, entries[|entries| - 1].maxValue)
      && Indexes(txs[..|txs| - 1], entries[..|entries| - 1])
  }

  method IndexBlock(txs: seq<Tx>) returns (entries: seq<Entry>, ok: bool)
    ensures ok <==> forall tx :: tx in txs && !tx.coinbase ==> !tx.key.Failed?
    ensures ok ==> Indexes(txs, entries) && |entries| <= |txs|
  {
    entries := [];
    for i := 0 to |txs|
      invariant Indexes(txs[..i], entries) && |entries| <= i
      invariant forall tx :: tx in txs[..i] && !tx.coinbase ==> !tx.key.Failed?
    {
      assert txs[..i + 1][..i] == txs[..i];
      if !txs[i].coinbase {
        match txs[i].key
        case Failed => return [], false;
        case NotEligible =>
        case Key(tweak) =>
          var m := MaxTaproot(txs[i].outs);
          ghost var before := entries;
          entries := entries + [Entry(tweak, m)];
          assert entries[..|entries| - 1] == before;
      }
    }
    assert txs[..|txs|] == txs;
    ok := true;
  }

  // ---------- the format ----------

  function FileHeader(net: uint32, start: uint32, dust: uint64): (h: Bytes)
    ensures |h| == FILE_HEADER_SIZE
  {
    LittleEndian(net, 4) + [FILE_VERSION, TYPE_SP_TWEAKS] + LittleEndian(start, 4) + LittleEndian(dust, 8)
  }

  /** The tweaks of a dust level: strictly above the limit, in transaction order. */
  function Kept(dust: uint64, entries: seq<Entry>): (ts: seq<Tweak>)
    ensures |ts| <= |entries|
  {
    if entries == [] then []
    else
      var last := entries[|entries| - 1];
      Kept(dust, entries[..|entries| - 1]) + if last.maxValue > dust then [last.tweak] else []
  }

  function Tweaks(ts: seq<Tweak>): (bs: Bytes)
    ensures |bs| == |ts| * TWEAK_SIZE
  {
    if ts == [] then [] else Tweaks(ts[..|ts| - 1]) + ts[|ts| - 1]
  }

  function BlockBytes(dust: uint64, entries: Entries): Bytes {
    CompactSize(|Kept(dust, entries)|) + Tweaks(Kept(dust, entries))
  }

  function Parts(dust: uint64, blocks: seq<Entries>): (ps: seq<Bytes>)
    ensures |ps| == |blocks|
  {
    if blocks == [] then [] else [BlockBytes(dust, blocks[0])] + Parts(dust, blocks[1..])
  }

  function Blocks(dust: uint64, blocks: seq<Entries>): Bytes {
    Concat(Parts(dust, blocks))
  }

  function File(net: uint32, start: uint32, dust: uint64, blocks: seq<Entries>): Bytes {
    FileHeader(net, start, dust) + Blocks(dust, blocks)
  }

  // ---------- a client that walks the counts ----------

  function SplitTweaks(bs: Bytes): (ts: seq<Tweak>)
    requires |bs| % TWEAK_SIZE == 0
  {
    if bs == [] then [] else [bs[..TWEAK_SIZE]] + SplitTweaks(bs[TWEAK_SIZE..])
  }

  function DecodeBlocks(r: Bytes): Option<seq<seq<Tweak>>>
    decreases |r|
  {
    if r == [] then Some([])
    else
      match ReadCompactSize(r)
      case Got(count, rest) =>
        CompactSizeCanonical(r);
        if count * TWEAK_SIZE > |rest| then None
        else (
          match DecodeBlocks(rest[count * TWEAK_SIZE..])
          case Some(blocks) => Some([SplitTweaks(rest[..count * TWEAK_SIZE])] + blocks)
          case None => None
        )
      case _ => None
  }

  datatype Decoded = Decoded(net: nat, start: nat, dust: nat, blocks: seq<seq<Tweak>>)

  function DecodeFile(r: Bytes): Option<Decoded> {
    if |r| < FILE_HEADER_SIZE || r[4] != FILE_VERSION || r[5] != TYPE_SP_TWEAKS then None
    else
      match DecodeBlocks(r[FILE_HEADER_SIZE..])
      case Some(blocks) =>
        Some(Decoded(FromLittleEndian(r[..4]), FromLittleEndian(r[6..10]), FromLittleEndian(r[10..18]), blocks))
      case None => None
  }

  function KeptBlocks(dust: uint64, blocks: seq<Entries>): (ts: seq<seq<Tweak>>)
    ensures |ts| == |blocks|
  {
    seq(|blocks|, i requires 0 <= i < |blocks| => Kept(dust, blocks[i]))
  }

  lemma {:induction false} SplitTweaksBack(ts: seq<Tweak>)
    ensures SplitTweaks(Tweaks(ts)) == ts
  {
    if ts != [] {
      TweaksCons(ts[0], ts[1..]);
      assert ts == [ts[0]] + ts[1..];
      SplitTweaksBack(ts[1..]);
      assert (ts[0] + Tweaks(ts[1..]))[..TWEAK_SIZE] == ts[0];
      assert (ts[0] + Tweaks(ts[1..]))[TWEAK_SIZE..] == Tweaks(ts[1..]);
    }
  }

  lemma {:induction false} TweaksCons(t: Tweak, ts: seq<Tweak>)
    ensures Tweaks([t] + ts) == t + Tweaks(ts)
  {
    if ts == [] {
      assert [t] + ts == [t] && [t][..0] == [];
    } else {
      TweaksCons(t, ts[..|ts| - 1]);
      assert ([t] + ts)[..|ts|] == [t] + ts[..|ts| - 1];
    }
  }

  lemma DecodeOneBlock(dust: uint64, b: Entries, rest: Bytes)
    ensures DecodeBlocks(BlockBytes(dust, b) + rest)
            == match DecodeBlocks(rest) case Some(bs) => Some([Kept(dust, b)] + bs) case None => None
  {
    var ts := Kept(dust, b);
    var r := BlockBytes(dust, b) + rest;
    assert r == CompactSize(|ts|) + (Tweaks(ts) + rest);
    CompactSizeRoundTrip(|ts|, Tweaks(ts) + rest);
    assert (Tweaks(ts) + rest)[..|ts| * TWEAK_SIZE] == Tweaks(ts);
    assert (Tweaks(ts) + rest)[|ts| * TWEAK_SIZE..] == rest;
    SplitTweaksBack(ts);
  }

  lemma {:induction false} TweakAt(ts: seq<Tweak>, i: nat)
    requires i < |ts|
    ensures 33 * i + 33 <= |Tweaks(ts)| && Tweaks(ts)[33 * i..33 * i + 33] == ts[i]
    decreases |ts|
  {
    var init := ts[..|ts| - 1];
    if i < |init| {
      TweakAt(init, i);
      assert Tweaks(ts)[33 * i..33 * i + 33] == Tweaks(init)[33 * i..33 * i + 33];
    } else {
      assert Tweaks(ts)[33 * i..33 * i + 33] == ts[i];
    }
  }

  /** A block in a file: the count of its kept tweaks, then these, 33 bytes each. */
  lemma BlockLayout(dust: uint64, entries: Entries, i: nat)
    requires i < |Kept(dust, entries)| < 253
    ensures var bytes := BlockBytes(dust, entries);
            && bytes[0] == |Kept(dust, entries)| && |bytes| == 1 + 33 * |Kept(dust, entries)|
            && bytes[1 + 33 * i..1 + 33 * i + 33] == Kept(dust, entries)[i]
  {
    var ts := Kept(dust, entries);
    TweakAt(ts, i);
    assert BlockBytes(dust, entries)[1 + 33 * i..1 + 33 * i + 33] == Tweaks(ts)[33 * i..33 * i + 33];
  }

  lemma KeptHead(dust: uint64, blocks: seq<Entries>)
    requires blocks != []
    ensures KeptBlocks(dust, blocks) == [Kept(dust, blocks[0])] + KeptBlocks(dust, blocks[1..])
  {
  }

  lemma BlocksHead(dust: uint64, blocks: seq<Entries>)
    requires blocks != []
    ensures Blocks(dust, blocks) == BlockBytes(dust, blocks[0]) + Blocks(dust, blocks[1..])
  {
    ConcatCons(BlockBytes(dust, blocks[0]), Parts(dust, blocks[1..]));
  }

  lemma {:induction false} DecodeAllBlocks(dust: uint64, blocks: seq<Entries>)
    ensures DecodeBlocks(Blocks(dust, blocks)) == Some(KeptBlocks(dust, blocks))
  {
    if blocks == [] {
      assert Blocks(dust, blocks) == [] && KeptBlocks(dust, blocks) == [];
    } else {
      DecodeAllBlocks(dust, blocks[1..]);
      BlocksHead(dust, blocks);
      KeptHead(dust, blocks);
      DecodeOneBlock(dust, blocks[0], Blocks(dust, blocks[1..]));
    }
  }

  /** Walking the counts recovers the header fields and every block's kept tweaks. */
  lemma FileRoundTrip(net: uint32, start: uint32, dust: uint64, blocks: seq<Entries>)
    ensures DecodeFile(File(net, start, dust, blocks)) == Some(Decoded(net, start, dust, KeptBlocks(dust, blocks)))
  {
    var r := File(net, start, dust, blocks);
    PowersOf256();
    LittleEndianRoundTrip(net, 4);
    LittleEndianRoundTrip(start, 4);
    LittleEndianRoundTrip(dust, 8);
    HeaderParts(net, start, dust, Blocks(dust, blocks));
    DecodeAllBlocks(dust, blocks);
  }

  lemma HeaderParts(net: uint32, start: uint32, dust: uint64, body: Bytes)
    ensures var r := FileHeader(net, start, dust) + body;
            && r[..4] == LittleEndian(net, 4) && r[4] == FILE_VERSION && r[5] == TYPE_SP_TWEAKS
            && r[6..10] == LittleEndian(start, 4) && r[10..18] == LittleEndian(dust, 8) && r[18..] == body
  {
  }

  /** The fields of a file at their places, the version 0 and the type 2 among them. */
  lemma FileFields(net: uint32, start: uint32, dust: uint64, blocks: seq<Entries>)
    ensures var f := File(net, start, dust, blocks);
            && |f| >= 18 && f[4] == 0 && f[5] == 2
            && FromLittleEndian(f[..4]) == net && FromLittleEndian(f[6..10]) == start
            && FromLittleEndian(f[10..18]) == dust && f[18..] == Blocks(dust, blocks)
  {
    PowersOf256();
    LittleEndianRoundTrip(net, 4);
    LittleEndianRoundTrip(start, 4);
    LittleEndianRoundTrip(dust, 8);
    HeaderParts(net, start, dust, Blocks(dust, blocks));
  }

  // ---------- what a level contains ----------

  /** `a` is what is left of `b` after crossing some elements out. */
  predicate Subsequence<T(==)>(a: seq<T>, b: seq<T>)
    decreases |b|
  {
    if b == [] then a == []
    else
      || Subsequence(a, b[..|b| - 1])
      || (a != [] && a[|a| - 1] == b[|b| - 1] && Subsequence(a[..|a| - 1], b[..|b| - 1]))
  }

  /** A higher level is a subsequence of a lower one, block by block. */
  lemma {:induction false} LevelsNest(low: uint64, high: uint64, entries: seq<Entry>)
    requires low <= high
    ensures Subsequence(Kept(high, entries), Kept(low, entries))
  {
    if entries != [] {
      var init, last := entries[..|entries| - 1], entries[|entries| - 1];
      LevelsNest(low, high, init);
      var a, b := Kept(high, entries), Kept(low, entries);
      if last.maxValue > low {
        assert b[..|b| - 1] == Kept(low, init);
        if last.maxValue > high {
          assert a[..|a| - 1] == Kept(high, init);
        } else {
          assert a == Kept(high, init);
        }
      } else {
        assert a == Kept(high, init) && b == Kept(low, init);
      }
    }
  }

  /** Some taproot output is worth more than the limit. */
  predicate AboveDust(outs: seq<TxOut>, dust: uint64) {
    exists i :: 0 <= i < |outs| && outs[i].taproot && ToUint64(outs[i].value) > dust
  }

  lemma PassesLevel(outs: seq<TxOut>, m: uint64, dust: uint64)
    requires IsMaxTaproot(outs, m)
    ensures m > dust <==> AboveDust(outs, dust)
  {
    if m > dust {
      var i: nat :| i < |outs| && Taproot(outs, i, m);
    }
    if AboveDust(outs, dust) {
      var i :| 0 <= i < |outs| && outs[i].taproot && ToUint64(outs[i].value) > dust;
      assert Taproot(outs, i, ToUint64(outs[i].value));
    }
  }

  /** The tweaks a level should hold, read off the block's transactions. */
  function LevelOf(dust: uint64, txs: seq<Tx>): (ts: seq<Tweak>) {
    if txs == [] then []
    else
      var last := txs[|txs| - 1];
      LevelOf(dust, txs[..|txs| - 1])
      + if Eligible(last) && AboveDust(last.outs, dust) then [last.key.tweak] else []
  }

  /**
   * From the block to the file: a level keeps the tweaks of exactly the eligible
   * transactions with a taproot output above its limit, in transaction order.
   */
  lemma {:induction false} LevelsComeFromTransactions(dust: uint64, txs: seq<Tx>, entries: seq<Entry>)
    requires Indexes(txs, entries)
    ensures Kept(dust, entries) == LevelOf(dust, txs)
    decreases |txs|
  {
    if txs != [] {
      var last := txs[|txs| - 1];
      if Eligible(last) {
        LevelsComeFromTransactions(dust, txs[..|txs| - 1], entries[..|entries| - 1]);
        PassesLevel(last.outs, entries[|entries| - 1].maxValue, dust);
      } else {
        LevelsComeFromTransactions(dust, txs[..|txs| - 1], entries);
      }
    }
  }

  /** A transaction other than the coinbase has this tweak and a taproot output above the limit. */
  predicate Contributes(dust: uint64, tx: Tx, t: Tweak) {
    !tx.coinbase && tx.key == Key(t)
    && exists j :: 0 <= j < |tx.outs| && tx.outs[j].taproot && ToUint64(tx.outs[j].value) > dust
  }

  /** What is in a level, without the order. */
  lemma {:induction false} LevelMembers(dust: uint64, txs: seq<Tx>, entries: seq<Entry>, t: Tweak)
    requires Indexes(txs, entries)
    ensures t in Kept(dust, entries) <==> exists i :: 0 <= i < |txs| && Contributes(dust, txs[i], t)
    decreases |txs|
  {
    if txs != [] {
      var n := |txs| - 1;
      var init, last := txs[..n], txs[n];
      assert forall i :: 0 <= i < n ==> init[i] == txs[i];
      if Eligible(last) {
        LevelMembers(dust, init, entries[..|entries| - 1], t);
        PassesLevel(last.outs, entries[|entries| - 1].maxValue, dust);
      } else {
        LevelMembers(dust, init, entries, t);
      }
    }
  }

  /** Every eligible transaction has a taproot output that is worth something. */
  predicate NoneWorthless(txs: seq<Tx>) {
    forall tx :: tx in txs && Eligible(tx) ==> AboveDust(tx.outs, 0)
  }

  /**
   * The comment on the levels says that level zero contains every tweak. It contains every
   * tweak of a block exactly if each eligible transaction has a taproot output that is
   * worth something.
   */
  lemma {:induction false} LevelZero(txs: seq<Tx>, entries: seq<Entry>)
    requires Indexes(txs, entries)
    ensures |Kept(0, entries)| == |entries| <==> NoneWorthless(txs)
    decreases |txs|
  {
    if txs != [] {
      var init, last := txs[..|txs| - 1], txs[|txs| - 1];
      assert txs == init + [last];
      assert NoneWorthless(txs) <==> NoneWorthless(init) && (Eligible(last) ==> AboveDust(last.outs, 0));
      if Eligible(last) {
        LevelZero(init, entries[..|entries| - 1]);
        PassesLevel(last.outs, entries[|entries| - 1].maxValue, 0);
      } else {
        LevelZero(init, entries);
      }
    }
  }

  lemma LevelZeroMissesATweak(t: Tweak)
    ensures var txs := [Tx(false, [TxOut(0, true)], Key(t))];
            Indexes(txs, [Entry(t, 0)]) && Kept(0, [Entry(t, 0)]) == []
  {
    var txs, entries := [Tx(false, [TxOut(0, true)], Key(t))], [Entry(t, 0)];
    assert IsMaxTaproot(txs[0].outs, 0);
    assert txs[..0] == [] && entries[..0] == [];
    assert Indexes(txs[..0], entries[..0]);
    assert Kept(0, entries[..0]) == [];
  }

  // ---------- the writers ----------

  lemma KeptNext(dust: uint64, entries: seq<Entry>, i: nat)
    requires i < |entries|
    ensures Kept(dust, entries[..i + 1]) == if entries[i].maxValue > dust
                                            then Kept(dust, entries[..i]) + [entries[i].tweak]
                                            else Kept(dust, entries[..i])
  {
    assert entries[..i + 1][..i] == entries[..i];
  }

  method CountKept(dust: uint64, entries: Entries) returns (count: nat)
    ensures count == |Kept(dust, entries)|
  {
    count := 0;
    for i := 0 to |entries|
      invariant count == |Kept(dust, entries[..i])|
    {
      KeptNext(dust, entries, i);
      if entries[i].maxValue > dust {
        count := count + 1;
      }
    }
    assert entries[..|entries|] == entries;
  }

  method WriteKept(dust: uint64, entries: Entries) returns (out: Bytes)
    ensures out == Tweaks(Kept(dust, entries))
  {
    out := [];
    for i := 0 to |entries|
      invariant out == Tweaks(Kept(dust, entries[..i]))
    {
      KeptNext(dust, entries, i);
      if entries[i].maxValue > dust {
        TweaksSnoc(Kept(dust, entries[..i]), entries[i].tweak);
        out := out + entries[i].tweak;
      }
    }
    assert entries[..|entries|] == entries;
  }

  lemma TweaksSnoc(ts: seq<Tweak>, t: Tweak)
    ensures Tweaks(ts + [t]) == Tweaks(ts) + t
  {
    assert (ts + [t])[..|ts|] == ts;
  }

  lemma {:induction false} PartsSnoc(dust: uint64, blocks: seq<Entries>, b: Entries)
    ensures Parts(dust, blocks + [b]) == Parts(dust, blocks) + [BlockBytes(dust, b)]
  {
    if blocks == [] {
      assert [] + [b] == [b];
    } else {
      var longer := blocks + [b];
      assert longer[1..] == blocks[1..] + [b] && longer[0] == blocks[0];
      PartsSnoc(dust, blocks[1..], b);
      assert Parts(dust, longer) == [BlockBytes(dust, blocks[0])] + (Parts(dust, blocks[1..]) + [BlockBytes(dust, b)]);
    }
  }

  lemma BlocksNext(dust: uint64, tweakData: map<int, Entries>, first: int, j: int)
    requires first <= j && Covers(tweakData, first, j + 1)
    ensures Blocks(dust, Span(tweakData, first, j))
            == Blocks(dust, Span(tweakData, first, j - 1)) + BlockBytes(dust, tweakData[j])
  {
    var before := Span(tweakData, first, j - 1);
    assert Span(tweakData, first, j) == before + [tweakData[j]];
    PartsSnoc(dust, before, tweakData[j]);
    ConcatSnoc(Parts(dust, before), BlockBytes(dust, tweakData[j]));
  }

  method BlockRecord(dust: uint64, entries: Entries) returns (out: Bytes)
    ensures out == BlockBytes(dust, entries)
  {
    var count := CountKept(dust, entries);
    var tweaks := WriteKept(dust, entries);
    out := CompactSize(count) + tweaks;
  }

  /** `out` holds the records of the heights before `j`. */
  predicate RecordsUpTo(tweakData: map<int, Entries>, dust: uint64, first: int, j: int, out: Bytes) {
    first <= j && Covers(tweakData, first, j) && out == Blocks(dust, Span(tweakData, first, j - 1))
  }

  lemma RecordsStart(tweakData: map<int, Entries>, dust: uint64, first: int)
    ensures RecordsUpTo(tweakData, dust, first, first, [])
  {
    assert Span(tweakData, first, first - 1) == [];
  }

  lemma RecordsNext(tweakData: map<int, Entries>, dust: uint64, first: int, j: int, out: Bytes)
    requires RecordsUpTo(tweakData, dust, first, j, out) && j in tweakData
    ensures RecordsUpTo(tweakData, dust, first, j + 1, out + BlockBytes(dust, tweakData[j]))
  {
    BlocksNext(dust, tweakData, first, j);
  }

  lemma RecordsEnd(tweakData: map<int, Entries>, dust: uint64, first: int, last: int, j: int, out: Bytes)
    requires RecordsUpTo(tweakData, dust, first, j, out) && (j == last + 1 || (j == first && last < first))
    ensures Covers(tweakData, first, last + 1) && out == Blocks(dust, Span(tweakData, first, last))
  {
    assert last < first ==> Span(tweakData, first, j - 1) == Span(tweakData, first, last);
  }

  /** One block's record for `first..last`; a height that was never ingested stops the writer. */
  method SerializeBlocks(tweakData: map<int, Entries>, dust: uint64, first: int, last: int) returns (out: Bytes, ok: bool)
    ensures ok <==> Covers(tweakData, first, last + 1)
    ensures ok ==> out == Blocks(dust, Span(tweakData, first, last))
  {
    out := [];
    var j := first;
    RecordsStart(tweakData, dust, first);
    while j <= last
      invariant j <= last + 1 || j == first
      invariant RecordsUpTo(tweakData, dust, first, j, out)
    {
      if j !in tweakData {
        return out, false;
      }
      var record := BlockRecord(dust, tweakData[j]);
      RecordsNext(tweakData, dust, first, j, out);
      out := out + record;
      j := j + 1;
    }
    RecordsEnd(tweakData, dust, first, last, j, out);
    ok := true;
  }

  /** The file header, then the records of the range. */
  method SerializeSPTweaks(tweakData: map<int, Entries>, net: uint32, dust: uint64, first: uint32, last: int)
    returns (out: Bytes, ok: bool)
    ensures ok <==> Covers(tweakData, first, last + 1)
    ensures ok ==> out == File(net, first, dust, Span(tweakData, first, last))
  {
    var body;
    body, ok := SerializeBlocks(tweakData, dust, first, last);
    out := FileHeader(net, first, dust) + body;
  }

  method RecordSize(dust: uint64, entries: Entries) returns (size: nat)
    ensures size == |BlockBytes(dust, entries)|
  {
    var count := CountKept(dust, entries);
    CompactSizeHasItsLength(count);
    size := CompactSizeLength(count) + count * TWEAK_SIZE;
  }

  method BlocksSize(tweakData: map<int, Entries>, dust: uint64, first: int, last: int) returns (total: nat, ok: bool)
    ensures ok <==> Covers(tweakData, first, last + 1)
    ensures ok ==> total == |Blocks(dust, Span(tweakData, first, last))|
  {
    total := 0;
    var j := first;
    ghost var out: Bytes := [];
    RecordsStart(tweakData, dust, first);
    while j <= last
      invariant j <= last + 1 || j == first
      invariant RecordsUpTo(tweakData, dust, first, j, out) && total == |out|
    {
      if j !in tweakData {
        return 0, false;
      }
      var size := RecordSize(dust, tweakData[j]);
      RecordsNext(tweakData, dust, first, j, out);
      out := out + BlockBytes(dust, tweakData[j]);
      total := total + size;
      j := j + 1;
    }
    RecordsEnd(tweakData, dust, first, last, j, out);
    ok := true;
  }

  /** The announced size of a range: it exists when the writer succeeds, and is its length. */
  method SPTweaksSize(tweakData: map<int, Entries>, net: uint32, dust: uint64, first: uint32, last: int)
    returns (total: nat, ok: bool)
    ensures ok <==> Covers(tweakData, first, last + 1)
    ensures ok ==> total == |File(net, first, dust, Span(tweakData, first, last))|
    ensures !ok ==> total == 0
  {
    var blocks;
    blocks, ok := BlocksSize(tweakData, dust, first, last);
    total := if ok then FILE_HEADER_SIZE + blocks else 0;
  }

  // ---------- sealing ----------

  type Dir = map<(int, int), Bytes>

  /** The file of a level holds that level of the blocks. */
  predicate LevelHolds(net: uint32, files: Dir, start: uint32, blocks: seq<Entries>, level: int) {
    0 <= level < 4 ==> (level, start) in files && files[(level, start)] == File(net, start, DUST_LIMITS[level], blocks)
  }

  ghost predicate LevelsFrom(net: uint32, files: Dir, start: uint32, blocks: seq<Entries>, from: int) {
    forall level :: from <= level ==> LevelHolds(net, files, start, blocks, level)
  }

  lemma LevelWritten(net: uint32, files: Dir, start: uint32, blocks: seq<Entries>, level: int)
    requires 0 <= level < 4 && LevelsFrom(net, files, start, blocks, level + 1)
    ensures LevelsFrom(net, files[(level, start) := File(net, start, DUST_LIMITS[level], blocks)], start, blocks, level)
  {
    var after := files[(level, start) := File(net, start, DUST_LIMITS[level], blocks)];
    forall l | level <= l ensures LevelHolds(net, after, start, blocks, l) {
      if l > level {
        assert LevelHolds(net, files, start, blocks, l);
      }
    }
  }

  /** A range with a resume file is a sealed one, and all its level files hold the same blocks. */
  ghost predicate Batches(net: uint32, files: Dir, sealed: map<uint32, seq<Entries>>) {
    && (forall s: uint32 :: (0, s) in files ==> s in sealed)
    && (forall s: uint32, level :: s in sealed ==> LevelHolds(net, files, s, sealed[s], level))
  }

  /** Once the resume file is there, every level decodes to its part of one list of blocks. */
  lemma ResumeFileImpliesBatch(net: uint32, files: Dir, sealed: map<uint32, seq<Entries>>, s: uint32, level: nat)
    requires Batches(net, files, sealed) && (0, s) in files && level < 4
    ensures s in sealed && (level, s) in files
    ensures DecodeFile(files[(level, s)])
            == Some(Decoded(net, s, DUST_LIMITS[level], KeptBlocks(DUST_LIMITS[level], sealed[s])))
  {
    assert LevelHolds(net, files, s, sealed[s], level);
    FileRoundTrip(net, s, DUST_LIMITS[level], sealed[s]);
  }

  lemma SealedHaveResumeFiles(net: uint32, files: Dir, sealed: map<uint32, seq<Entries>>)
    requires Batches(net, files, sealed)
    ensures forall s: uint32 :: s in sealed <==> (0, s) in files
  {
    forall s: uint32 | s in sealed ensures (0, s) in files {
      assert LevelHolds(net, files, s, sealed[s], 0);
    }
  }

  lemma BatchAdded(net: uint32, before: Dir, after: Dir, sealed: map<uint32, seq<Entries>>, start: uint32,
                   blocks: seq<Entries>, complete: bool)
    requires Batches(net, before, sealed) && start !in sealed
    requires OthersKept(before, after, start)
    requires complete ==> LevelsFrom(net, after, start, blocks, 0)
    requires !complete ==> (0, start) !in after
    ensures Batches(net, after, if complete then sealed[start := blocks] else sealed)
  {
    var now := if complete then sealed[start := blocks] else sealed;
    forall s: uint32, level | s in now ensures LevelHolds(net, after, s, now[s], level) {
      if s != start {
        assert LevelHolds(net, before, s, sealed[s], level);
        assert KeptKey(before, after, (level, s as int));
      }
    }
    forall s: uint32 | (0, s) in after ensures s in now {
      if s != start {
        assert KeptKey(before, after, (0, s as int));
      }
    }
  }

  predicate KeptKey(before: Dir, after: Dir, k: (int, int)) {
    (k in before <==> k in after) && (k in before ==> before[k] == after[k])
  }

  ghost predicate OthersKept(before: Dir, after: Dir, start: int) {
    forall k: (int, int) :: k.1 != start ==> KeptKey(before, after, k)
  }

  class SPTweakFiles {
    const net: uint32
    const taprootStart: int
    const perFile: nat
    const depth: nat

    var lastSealedHeight: int
    var tweakData: map<int, Entries>
    var heightToHash: map<int, Hash>
    var files: Dir
    ghost var sealed: map<uint32, seq<Entries>>

    /** The transactions of every block ingested and not rolled back; none before taproot. */
    ghost var log: seq<seq<Tx>>

    ghost predicate Valid()
      reads this
    {
      Batches(net, files, sealed)
    }

    constructor (net: uint32, taprootStart: int, perFile: nat, depth: nat)
      requires perFile >= 2
      ensures Alive() && files == map[] && sealed == map[] && lastSealedHeight == -1 && log == []
      ensures this.net == net && this.taprootStart == taprootStart && this.perFile == perFile && this.depth == depth
    {
      this.net, this.taprootStart, this.perFile, this.depth := net, taprootStart, perFile, depth;
      lastSealedHeight, log := -1, [];
      tweakData, heightToHash, files, sealed := map[], map[], map[], map[];
    }

    /**
     * The empty entry and the hash are stored before the block is fetched, so a failed
     * ingest leaves an empty block behind; before taproot that is all there is.
     */
    method Ingest(height: int, hash: Option<Hash>, block: Option<seq<Tx>>) returns (ok: bool)
      requires block.Some? ==> |block.value| < 0x8000_0000_0000_0000
      modifies `tweakData, `heightToHash
      ensures hash.None? ==> !ok && tweakData == old(tweakData) && heightToHash == old(heightToHash)
      ensures hash.Some? ==> heightToHash == old(heightToHash)[height := hash.value]
      ensures hash.Some? ==> height in tweakData && tweakData == old(tweakData)[height := tweakData[height]]
      ensures hash.Some? && height < taprootStart ==> ok && tweakData[height] == []
      ensures hash.Some? && height >= taprootStart ==>
                (ok <==> block.Some? && forall tx :: tx in block.value && !tx.coinbase ==> !tx.key.Failed?)
      ensures ok && height >= taprootStart ==> Indexes(block.value, tweakData[height])
      ensures hash.Some? && !ok ==> tweakData[height] == []
    {
      if hash.None? {
        return false;
      }
      tweakData := tweakData[height := []];
      heightToHash := heightToHash[height := hash.value];
      if height < taprootStart {
        return true;
      }
      if block.None? {
        return false;
      }
      var entries;
      entries, ok := IndexBlock(block.value);
      if ok && entries != [] {
        tweakData := tweakData[height := entries];
      }
    }

    /**
     * Writes the levels from the highest to the unfiltered one, whose file marks the batch,
     * over a disk that takes `writes` more files. Wherever the writing stops, the mark is
     * there only with all the others.
     */
    method WriteSealedFile(fileStart: uint32, fileEnd: int, writes: nat) returns (ok: bool)
      requires Valid() && fileStart !in sealed
      modifies `files, `sealed
      ensures Valid() && OthersKept(old(files), files, fileStart)
      ensures ok <==> Covers(tweakData, fileStart, fileEnd + 1) && writes >= 4
      ensures ok ==> sealed == old(sealed)[fileStart := Span(tweakData, fileStart, fileEnd)]
      ensures !ok ==> sealed == old(sealed)
      ensures ok <==> (0, fileStart) in files
    {
      ghost var first := files;
      ghost var blocks := if Covers(tweakData, fileStart, fileEnd + 1) then Span(tweakData, fileStart, fileEnd) else [];
      var level := 4;
      while level > 0
        invariant 0 <= level <= 4 && 4 - level <= writes
        invariant sealed == old(sealed) && OthersKept(first, files, fileStart)
        invariant level < 4 ==> Covers(tweakData, fileStart, fileEnd + 1)
        invariant LevelsFrom(net, files, fileStart, blocks, level)
        invariant level > 0 ==> (0, fileStart) !in files
      {
        var data, complete := SerializeSPTweaks(tweakData, net, DUST_LIMITS[level - 1], fileStart, fileEnd);
        if !complete || 4 - level == writes {
          BatchAdded(net, first, files, sealed, fileStart, blocks, false);
          return false;
        }
        level := level - 1;
        LevelWritten(net, files, fileStart, blocks, level);
        files := files[(level, fileStart) := data];
      }
      BatchAdded(net, first, files, sealed, fileStart, blocks, true);
      assert LevelHolds(net, files, fileStart, blocks, 0);
      sealed := sealed[fileStart := blocks];
      ok := true;
    }

    // ---------- every run ----------

    /** Disk and memory hold the entries of one log's blocks, and the resume files say how far disk goes. */
    ghost predicate Alive()
      reads this
    {
      && Leaves(lastSealedHeight + 1) && lastSealedHeight < |log|
      && MemoryIsLog(tweakData, log, lastSealedHeight + 1)
    }

    /** The directory a dead process leaves, `end` heights of the log. */
    ghost predicate Leaves(end: int)
      reads this
    {
      && Valid() && perFile >= 2 && 0 <= end <= |log| && end % perFile == 0
      && ResumeFiles(files, perFile, end) && SealedIsLog(sealed, log, perFile)
    }

    /** Drops the inclusive range from memory. */
    method Prune(start: int, end: int)
      modifies `tweakData, `heightToHash
      ensures tweakData == map h | h in old(tweakData) && !(start <= h <= end) :: old(tweakData)[h]
    {
      var j := start;
      while j <= end
        invariant start <= j
        invariant tweakData == map h | h in old(tweakData) && !(start <= h < j && h <= end) :: old(tweakData)[h]
      {
        tweakData := map h | h in tweakData && h != j :: tweakData[h];
        heightToHash := map h | h in heightToHash && h != j :: heightToHash[h];
        j := j + 1;
      }
    }

    /** Where the producer stands, as the replay of its events counts it. */
    ghost function Standing(): Schedule.Replay<seq<Tx>>
      requires -1 <= lastSealedHeight
      reads this
    {
      Schedule.Replay(log, lastSealedHeight + 1, true)
    }

    /** Ingests the next block; a failure ends the process. */
    method IngestNext(next: int, hash: Option<Hash>, block: Option<seq<Tx>>) returns (alive: bool)
      requires Alive() && next == |log|
      requires block.Some? ==> |block.value| < 0x8000_0000_0000_0000
      modifies `tweakData, `heightToHash, `log
      ensures alive <==> Fetched(taprootStart, next, hash, block).Some?
      ensures alive ==> Alive() && log == old(log) + [Fetched(taprootStart, next, hash, block).value]
      ensures !alive ==> log == old(log) && Leaves(lastSealedHeight + 1)
    {
      alive := Ingest(next, hash, block);
      if alive {
        ghost var txs := Fetched(taprootStart, next, hash, block).value;
        MemoryGrows(old(tweakData), tweakData, log, txs, lastSealedHeight + 1);
        SealedGrows(sealed, log, txs, perFile);
        log := log + [txs];
      }
    }

    /** Writes the due batch, and promotes it if it is complete and the process lives. */
    method SealDue(writes: nat, killed: bool) returns (ok: bool)
      requires Alive() && lastSealedHeight + perFile < |log| <= MAX_HEIGHT
      modifies this
      ensures ok <==> writes >= 4
      ensures log == old(log) && lastSealedHeight == old(lastSealedHeight) + if ok && !killed then perFile else 0
      ensures ok && !killed ==> Alive()
      ensures !ok || killed ==> Leaves(lastSealedHeight + 1 + if ok then perFile else 0)
    {
      var fileStart, fileEnd := lastSealedHeight + 1, lastSealedHeight + perFile;
      ghost var before, blocks := files, Span(tweakData, fileStart, fileEnd);
      NewStart(files, perFile, fileStart);
      SealedHaveResumeFiles(net, files, sealed);
      SealedAdds(sealed, tweakData, log, fileStart, perFile);
      ok := WriteSealedFile(fileStart, fileEnd, writes);
      NextResumeFile(before, files, perFile, fileStart, ok);
      if ok && !killed {
        Prune(fileStart, fileEnd);
        lastSealedHeight := fileEnd;
      }
    }

    /** A new process over files of `end` heights; past the seven digits nothing is promised. */
    method Restart(listing: seq<string>, end: nat) returns (ok: bool)
      requires Leaves(end) && FileNames.ListsSealed(listing, FILE_SUFFIX, perFile, end)
      modifies `tweakData, `heightToHash, `lastSealedHeight, `log
      ensures end <= FileNames.HEIGHT_LIMIT ==> ok && Alive() && lastSealedHeight == end - 1 && log == old(log)[..end]
    {
      tweakData, heightToHash := map[], map[];
      var lookup := FileNames.ResumePoint(listing, FILE_SUFFIX, perFile, end);
      if lookup.Unparseable? {
        return false;
      }
      var lastBlock := if lookup.NoFiles? then 0 else lookup.end;
      lastSealedHeight := if lastBlock > 0 then lastBlock else -1;
      if end > 0 && end < perFile {
        AlignedGap(0, end, perFile);
      }
      SealedHaveResumeFiles(net, files, sealed);
      SealedCut(sealed, files, log, perFile, end, end);
      log := log[..end];
      ok := true;
    }

    /** Drops everything above a height that is not sealed. */
    method Rollback(to: int, next: int)
      requires Alive() && lastSealedHeight < to < next == |log|
      modifies `tweakData, `heightToHash, `log
      ensures Alive() && log == old(log)[..to + 1]
    {
      SealedHaveResumeFiles(net, files, sealed);
      SealedCut(sealed, files, log, perFile, lastSealedHeight + 1, to + 1);
      MemoryCut(tweakData, log, lastSealedHeight + 1, to + 1);
      Prune(to + 1, next - 1);
      log := log[..to + 1];
    }

    /** One event; when the process is dead, `next'` is what its directory covers. */
    method Step(event: Event, next: int) returns (alive: bool, next': int)
      requires Alive() && next == |log| <= MAX_HEIGHT && WellFormed(event)
      modifies this
      ensures Happens(perFile, depth, taprootStart, old(Standing()), event, alive, log, lastSealedHeight, next')
      ensures if alive then Alive() else Leaves(next')
    {
      alive, next' := true, next;
      match event
      case Block(hash, block) =>
        alive := IngestNext(next, hash, block);
        next' := if alive then next + 1 else lastSealedHeight + 1;
      case Seal(writes, killed) =>
        if lastSealedHeight + perFile <= next - 1 - depth {
          var ok := SealDue(writes, killed);
          if !ok || killed {
            alive, next' := false, lastSealedHeight + 1 + if ok then perFile else 0;
          }
        }
      case Reorg(to) =>
        if lastSealedHeight < to < next {
          Rollback(to, next);
          next' := to + 1;
        }
      case Kill =>
        alive, next' := false, lastSealedHeight + 1;
    }

    /** Where one event leaves the producer, with a new process started if it ended. */
    method StepOrRestart(event: Event, next: int, listings: nat -> seq<string>) returns (alive: bool, next': int)
      requires Alive() && next == |log| <= MAX_HEIGHT && WellFormed(event)
      requires forall n: nat :: n % perFile == 0 ==> FileNames.ListsSealed(listings(n), FILE_SUFFIX, perFile, n)
      modifies this
      ensures Arrived(Schedule.After(RulesOf(perFile, depth), old(Standing()), Seen(taprootStart, old(Standing()), event)),
                      alive, next')
    {
      alive, next' := Step(event, next);
      if !alive {
        if next' > FileNames.HEIGHT_LIMIT {
          return;
        }
        alive := Restart(listings(next'), next');
      }
    }

    /** The producer stands where the replay does, or its directory is what the replay leaves. */
    ghost predicate Arrived(r: Schedule.Replay<seq<Tx>>, alive: bool, next: int)
      reads this
    {
      && alive == r.alive
      && (alive ==> Alive() && Standing() == r && next == |log|)
      && (!alive ==> next == r.durable && Leaves(next) && next <= |log| && log[..next] == r.log)
    }

    /**
     * Whatever the schedule of blocks, failures, seals that break off, rollbacks and kills:
     * the producer ends with exactly the log the events leave. A range has its resume file
     * exactly if it lies below the last completed batch; sealed ranges and memory hold the
     * entries of the log's blocks. A directory whose heights no longer fit the file names
     * ends the schedule.
     */
    method Run(events: seq<Event>, listings: nat -> seq<string>) returns (alive: bool, end: int)
      requires Alive() && log == [] && lastSealedHeight == -1
      requires |events| <= MAX_HEIGHT && forall e :: e in events ==> WellFormed(e)
      requires forall n: nat :: n % perFile == 0 ==> FileNames.ListsSealed(listings(n), FILE_SUFFIX, perFile, n)
      modifies this
      ensures Arrived(Replayed(perFile, depth, taprootStart, events), alive, end)
    {
      alive, end := true, 0;
      assert events[..0] == [];
      for i := 0 to |events|
        invariant alive && Arrived(Replayed(perFile, depth, taprootStart, events[..i]), alive, end)
      {
        assert events[..i + 1][..i] == events[..i];
        ReplayIsShort(perFile, depth, taprootStart, events[..i]);
        alive, end := StepOrRestart(events[i], end, listings);
        if !alive {
          DeadStays(perFile, depth, taprootStart, events, i + 1);
          return;
        }
      }
      assert events[..|events|] == events;
    }
  }

  const FILE_SUFFIX := ".sptweak"
  const MAX_HEIGHT := 0x7fff_ffff

  /** A seal meets a disk that takes `writes` more files. */
  datatype Event =
    | Block(hash: Option<Hash>, block: Option<seq<Tx>>)
    | Seal(writes: nat, killed: bool)
    | Reorg(to: int)
    | Kill

  predicate WellFormed(e: Event) {
    e.Block? && e.block.Some? ==> |e.block.value| < 0x8000_0000_0000_0000
  }

  // ---------- what the events leave ----------

  /** What ingest makes of a height: nothing before taproot, a failure if anything it needs fails. */
  function Fetched(taprootStart: int, height: int, hash: Option<Hash>, block: Option<seq<Tx>>): Option<seq<Tx>> {
    if hash.None? then None
    else if height < taprootStart then Some([])
    else if block.None? || exists tx :: tx in block.value && !tx.coinbase && tx.key.Failed? then None
    else block
  }

  function RulesOf(perFile: nat, depth: nat): Schedule.Rules {
    Schedule.Rules(perFile, depth, FileNames.HEIGHT_LIMIT)
  }

  ghost function Seen(taprootStart: int, r: Schedule.Replay<seq<Tx>>, e: Event): Schedule.Happened<seq<Tx>> {
    match e
    case Block(hash, block) => Schedule.Block(Fetched(taprootStart, |r.log|, hash, block))
    case Seal(writes, killed) => Schedule.Seal(writes >= 4, killed)
    case Reorg(to) => Schedule.Reorg(to)
    case Kill => Schedule.Kill
  }

  /** The log that a schedule leaves, from an empty directory on. */
  ghost function Replayed(perFile: nat, depth: nat, taprootStart: int, events: seq<Event>): (r: Schedule.Replay<seq<Tx>>)
    ensures Schedule.Sound(r)
  {
    if events == [] then Schedule.Replay([], 0, true)
    else
      var r := Replayed(perFile, depth, taprootStart, events[..|events| - 1]);
      if !r.alive then r
      else Schedule.After(RulesOf(perFile, depth), r, Seen(taprootStart, r, events[|events| - 1]))
  }

  lemma {:induction false} ReplayIsShort(perFile: nat, depth: nat, taprootStart: int, events: seq<Event>)
    ensures |Replayed(perFile, depth, taprootStart, events).log| <= |events|
  {
    if events != [] {
      ReplayIsShort(perFile, depth, taprootStart, events[..|events| - 1]);
    }
  }

  lemma {:induction false} DeadStays(perFile: nat, depth: nat, taprootStart: int, events: seq<Event>, k: nat)
    requires k <= |events| && !Replayed(perFile, depth, taprootStart, events[..k]).alive
    ensures Replayed(perFile, depth, taprootStart, events) == Replayed(perFile, depth, taprootStart, events[..k])
    decreases |events|
  {
    if k == |events| {
      assert events[..k] == events;
    } else {
      assert events[..|events| - 1][..k] == events[..k];
      DeadStays(perFile, depth, taprootStart, events[..|events| - 1], k);
    }
  }

  /** One event takes a standing producer where the replay says, or ends the process there. */
  ghost predicate Happens(perFile: nat, depth: nat, taprootStart: int, r: Schedule.Replay<seq<Tx>>, e: Event,
                          alive: bool, log: seq<seq<Tx>>, lastSealed: int, end: int)
    requires Schedule.Sound(r)
  {
    var t := Schedule.After(RulesOf(perFile, depth), r, Seen(taprootStart, r, e));
    && (alive <==> !Schedule.Dies(RulesOf(perFile, depth), r, Seen(taprootStart, r, e)))
    && (alive ==> log == t.log && lastSealed + 1 == t.durable && end == |log|)
    && (!alive ==> end == t.durable <= |log| && log[..end] == t.log)
  }

  /** Memory holds the entries of the log's blocks from a height on. */
  ghost predicate MemoryIsLog(tweakData: map<int, Entries>, log: seq<seq<Tx>>, from: int) {
    forall h :: 0 <= from <= h < |log| ==> h in tweakData && Indexes(log[h], tweakData[h])
  }

  /** Every sealed range holds the entries of the log's blocks. */
  ghost predicate SealedIsLog(sealed: map<uint32, seq<Entries>>, log: seq<seq<Tx>>, size: nat) {
    forall s: uint32 :: s in sealed ==> RangeIsLog(sealed[s], log, s, size)
  }

  ghost predicate RangeIsLog(blocks: seq<Entries>, log: seq<seq<Tx>>, start: nat, size: nat) {
    |blocks| == size && start + size <= |log| && forall i :: 0 <= i < size ==> Indexes(log[start + i], blocks[i])
  }

  /** A level of each block. */
  function LevelOfEach(dust: uint64, blocks: seq<seq<Tx>>): (ts: seq<seq<Tweak>>)
    ensures |ts| == |blocks|
  {
    seq(|blocks|, i requires 0 <= i < |blocks| => LevelOf(dust, blocks[i]))
  }

  /**
   * What a sealed range holds: every level's file decodes to the tweaks of exactly the
   * transactions of the log's blocks that the level is for.
   */
  lemma SealedFilesHoldTheLog(net: uint32, files: Dir, sealed: map<uint32, seq<Entries>>, log: seq<seq<Tx>>, size: nat,
                              s: uint32, level: nat)
    requires Batches(net, files, sealed) && SealedIsLog(sealed, log, size) && (0, s) in files && level < 4
    ensures s + size <= |log| && (level, s) in files
    ensures DecodeFile(files[(level, s)])
            == Some(Decoded(net, s, DUST_LIMITS[level], LevelOfEach(DUST_LIMITS[level], log[s..s + size])))
  {
    ResumeFileImpliesBatch(net, files, sealed, s, level);
    assert RangeIsLog(sealed[s], log, s, size);
    var dust, blocks := DUST_LIMITS[level], log[s..s + size];
    forall i | 0 <= i < size ensures KeptBlocks(dust, sealed[s])[i] == LevelOfEach(dust, blocks)[i] {
      LevelsComeFromTransactions(dust, blocks[i], sealed[s][i]);
    }
    assert KeptBlocks(dust, sealed[s]) == LevelOfEach(dust, blocks);
  }

  /** The levels: the unfiltered one, which also marks the batch, and three higher ones. */
  lemma TheLevels()
    ensures DUST_LIMITS[0] == 0 && DUST_LIMITS[1] == 600 && DUST_LIMITS[2] == 1000 && DUST_LIMITS[3] == 3750
  {
  }

  /** Each level's file decodes, block by block, to a subsequence of the file one level below. */
  lemma LevelFilesNest(net: uint32, files: Dir, sealed: map<uint32, seq<Entries>>, s: uint32, level: nat, i: nat)
    requires Batches(net, files, sealed) && (0, s) in files && 0 < level < 4
    ensures s in sealed && (level, s) in files && (level - 1, s) in files
    ensures var high, low := DecodeFile(files[(level, s)]), DecodeFile(files[(level - 1, s)]);
            && high.Some? && low.Some? && |high.value.blocks| == |low.value.blocks| == |sealed[s]|
            && (i < |sealed[s]| ==> Subsequence(high.value.blocks[i], low.value.blocks[i]))
  {
    TheLevels();
    ResumeFileImpliesBatch(net, files, sealed, s, level);
    ResumeFileImpliesBatch(net, files, sealed, s, level - 1);
    if i < |sealed[s]| {
      LevelsNest(DUST_LIMITS[level - 1], DUST_LIMITS[level], sealed[s][i]);
    }
  }

  lemma MemoryGrows(before: map<int, Entries>, after: map<int, Entries>, log: seq<seq<Tx>>, txs: seq<Tx>, from: int)
    requires MemoryIsLog(before, log, from) && 0 <= from <= |log|
    requires |log| in after && after == before[|log| := after[|log|]] && Indexes(txs, after[|log|])
    ensures MemoryIsLog(after, log + [txs], from)
  {
  }

  lemma MemoryCut(tweakData: map<int, Entries>, log: seq<seq<Tx>>, from: int, n: nat)
    requires MemoryIsLog(tweakData, log, from) && 0 <= from <= n <= |log|
    ensures MemoryIsLog(map h | h in tweakData && !(n <= h <= |log| - 1) :: tweakData[h], log[..n], from)
  {
  }

  lemma SealedGrows(sealed: map<uint32, seq<Entries>>, log: seq<seq<Tx>>, txs: seq<Tx>, size: nat)
    requires SealedIsLog(sealed, log, size)
    ensures SealedIsLog(sealed, log + [txs], size)
  {
    forall s: uint32 | s in sealed ensures RangeIsLog(sealed[s], log + [txs], s, size) {
      assert RangeIsLog(sealed[s], log, s, size);
    }
  }

  lemma SealedCut(sealed: map<uint32, seq<Entries>>, files: Dir, log: seq<seq<Tx>>, size: nat, end: nat, n: nat)
    requires SealedIsLog(sealed, log, size) && size > 0 && end <= n <= |log|
    requires ResumeFiles(files, size, end) && forall s: uint32 :: s in sealed <==> (0, s) in files
    ensures SealedIsLog(sealed, log[..n], size)
  {
    forall s: uint32 | s in sealed ensures RangeIsLog(sealed[s], log[..n], s, size) {
      assert RangeIsLog(sealed[s], log, s, size);
      assert FileNames.SealedStart(s, size, end);
    }
  }

  lemma SealedAdds(sealed: map<uint32, seq<Entries>>, tweakData: map<int, Entries>, log: seq<seq<Tx>>, start: uint32, size: nat)
    requires SealedIsLog(sealed, log, size) && MemoryIsLog(tweakData, log, start) && size > 0 && start + size <= |log|
    ensures Covers(tweakData, start, start + size)
    ensures SealedIsLog(sealed[start := Span(tweakData, start, start + size - 1)], log, size)
  {
    var blocks := Span(tweakData, start, start + size - 1);
    forall s: uint32 | s in sealed && s != start ensures RangeIsLog(sealed[s], log, s, size) {
    }
    assert RangeIsLog(blocks, log, start, size);
  }

  /** A range has its resume file exactly if it ends by `end`. */
  ghost predicate ResumeFiles(files: Dir, size: nat, end: int)
    requires size > 0 && 0 <= end
  {
    forall s: nat :: (0, s) in files <==> FileNames.SealedStart(s, size, end)
  }

  lemma NewStart(files: Dir, size: nat, end: nat)
    requires size > 0 && ResumeFiles(files, size, end)
    ensures (0, end) !in files
  {
    assert !FileNames.SealedStart(end, size, end);
  }

  lemma NextResumeFile(before: Dir, after: Dir, size: nat, end: nat, complete: bool)
    requires size > 0 && end % size == 0 && ResumeFiles(before, size, end)
    requires OthersKept(before, after, end) && (complete <==> (0, end) in after)
    ensures (end + size) % size == 0
    ensures ResumeFiles(after, size, if complete then end + size else end)
  {
    ModStep(end, size);
    NewStart(before, size, end);
    forall s: nat
      ensures (0, s) in after <==> FileNames.SealedStart(s, size, if complete then end + size else end)
    {
      if s != end {
        assert KeptKey(before, after, (0, s as int));
        if FileNames.SealedStart(s, size, end + size) && !FileNames.SealedStart(s, size, end) {
          AlignedGap(s, end, size);
        }
      }
    }
  }
}
