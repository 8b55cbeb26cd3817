/**
 * The filter file format: filters one after the other, each with a CompactSize length.
 * Two writers and two readers handle it. The restart reader runs to the end of the
 * file and only counts what it saw; the verifier's reader wants exactly `n` filters
 * and nothing behind them.
 */
module FilterFile {
  import opened Basics
  import opened Wire

  function Serialize(filters: seq<Blob>): Bytes {
    if filters == [] then []
    else Serialize(filters[..|filters| - 1]) + VarBytes(filters[|filters| - 1])
  }

  lemma SerializeSnoc(a: seq<Blob>, f: Blob)
    ensures Serialize(a + [f]) == Serialize(a) + VarBytes(f)
  {
    assert (a + [f])[..|a|] == a;
  }

  lemma {:induction false} SerializeConcat(a: seq<Blob>, b: seq<Blob>)
    ensures Serialize(a + b) == Serialize(a) + Serialize(b)
    decreases |b|
  {
    if b == [] {
      assert a + b == a;
    } else {
      var init, last := b[..|b| - 1], b[|b| - 1];
      calc {
        Serialize(a + b);
        { assert a + b == (a + init) + [last]; }
        Serialize((a + init) + [last]);
        { SerializeSnoc(a + init, last); }
        Serialize(a + init) + VarBytes(last);
        { SerializeConcat(a, init); }
        Serialize(a) + Serialize(init) + VarBytes(last);
        Serialize(a) + (Serialize(init) + VarBytes(last));
        { SerializeSnoc(init, last); assert b == init + [last]; }
        Serialize(a) + Serialize(b);
      }
    }
  }

  lemma SerializeCons(f: Blob, rest: seq<Blob>)
    ensures Serialize([f] + rest) == VarBytes(f) + Serialize(rest)
  {
    SerializeConcat([f], rest);
    assert Serialize([f]) == VarBytes(f) by {
      SerializeSnoc([], f);
      assert [] + [f] == [f];
    }
  }

  // ---------- writers ----------

  lemma SerializeNext(filters: map<int, Blob>, first: int, j: int)
    requires first <= j && Covers(filters, first, j + 1)
    ensures Serialize(Span(filters, first, j)) == Serialize(Span(filters, first, j - 1)) + VarBytes(filters[j])
  {
    SerializeSnoc(Span(filters, first, j - 1), filters[j]);
    assert Span(filters, first, j) == Span(filters, first, j - 1) + [filters[j]];
  }

  /**
   * Writes the filters of `first..last`. A missing height stops the writer; what was
   * written before it stays written.
   */
  method SerializeFilters(filters: map<int, Blob>, first: int, last: int) returns (out: Bytes, ok: bool)
    ensures ok <==> Covers(filters, first, last + 1)
    ensures ok ==> out == Serialize(Span(filters, first, last))
    ensures !ok ==> exists gap :: first <= gap <= last && gap !in filters
                                  && Covers(filters, first, gap) && out == Serialize(Span(filters, first, gap - 1))
  {
    out := [];
    var j := first;
    while j <= last
      invariant first <= j && (j <= last + 1 || j == first)
      invariant Covers(filters, first, j)
      invariant out == Serialize(Span(filters, first, j - 1))
    {
      if j !in filters {
        return out, false;
      }
      SerializeNext(filters, first, j);
      out := out + VarBytes(filters[j]);
      j := j + 1;
    }
    assert last < first ==> Span(filters, first, j - 1) == [];
    ok := true;
  }

  /** The announced size: it exists exactly when the writer succeeds, and is its length. */
  method FiltersSize(filters: map<int, Blob>, first: int, last: int) returns (total: nat, ok: bool)
    ensures ok <==> Covers(filters, first, last + 1)
    ensures ok ==> total == |Serialize(Span(filters, first, last))|
    ensures !ok ==> total == 0
  {
    total := 0;
    var j := first;
    while j <= last
      invariant first <= j && (j <= last + 1 || j == first)
      invariant Covers(filters, first, j)
      invariant total == |Serialize(Span(filters, first, j - 1))|
    {
      if j !in filters {
        return 0, false;
      }
      CompactSizeHasItsLength(|filters[j]|);
      SerializeNext(filters, first, j);
      total := total + CompactSizeLength(|filters[j]|) + |filters[j]|;
      j := j + 1;
    }
    assert last < first ==> Span(filters, first, j - 1) == [];
    ok := true;
  }

  // ---------- readers ----------

  lemma ReadShrinks(r: Bytes, maxAllowed: nat)
    requires maxAllowed < 0x8000_0000_0000_0000
    requires ReadVarBytes(r, maxAllowed).Got?
    ensures |ReadVarBytes(r, maxAllowed).rest| < |r|
  {
    VarBytesCanonical(r, maxAllowed);
  }

  /** What a full scan of a file sees, and whether it stopped at a clean end of file. */
  datatype Scan = Scan(entries: seq<Blob>, clean: bool)

  function ScanFile(r: Bytes): Scan
    decreases |r|
  {
    match ReadVarBytes(r, MAX_MESSAGE_PAYLOAD)
    case Got(f, rest) =>
      ReadShrinks(r, MAX_MESSAGE_PAYLOAD);
      var tail := ScanFile(rest);
      Scan([f] + tail.entries, tail.clean)
    case Eof => Scan([], true)
    case UnexpectedEof => Scan([], false)
    case Malformed => Scan([], false)
  }

  /** The restart reader (readFilterFile of the custom filter producer). */
  method ReadFilterFile(data: Bytes) returns (entries: seq<Blob>, ok: bool)
    ensures Scan(entries, ok) == ScanFile(data)
  {
    entries := [];
    var r := data;
    while true
      invariant ScanFile(data) == Scan(entries + ScanFile(r).entries, ScanFile(r).clean)
      decreases |r|
    {
      var next := ReadVarBytes(r, MAX_MESSAGE_PAYLOAD);
      match next
      case Got(f, rest) =>
        ReadShrinks(r, MAX_MESSAGE_PAYLOAD);
        assert entries + ([f] + ScanFile(rest).entries) == entries + [f] + ScanFile(rest).entries;
        entries, r := entries + [f], rest;
      case Eof =>
        assert entries + [] == entries;
        return entries, true;
      case UnexpectedEof =>
        assert entries + [] == entries;
        return entries, false;
      case Malformed =>
        assert entries + [] == entries;
        return entries, false;
    }
  }

  /** Exactly `n` filters and nothing behind them, or nothing at all. */
  function ParseExactly(r: Bytes, n: nat): Option<seq<Blob>> {
    if n == 0 then
      if r == [] then Some([]) else None
    else
      match ReadVarBytes(r, MAX_BLOCK_PAYLOAD)
      case Got(f, rest) =>
        (match ParseExactly(rest, n - 1)
         case Some(fs) => Some([f] + fs)
         case None => None)
      case Eof => None
      case UnexpectedEof => None
      case Malformed => None
  }

  /** The reading loop has `entries`, and `left` filters to go. */
  predicate Parsing(data: Bytes, n: nat, entries: seq<Blob>, r: Bytes, left: nat) {
    ParseExactly(data, n) == match ParseExactly(r, left) case Some(fs) => Some(entries + fs) case None => None
  }

  lemma ParsingStarts(data: Bytes, n: nat)
    ensures Parsing(data, n, [], data, n)
  {
    if ParseExactly(data, n).Some? {
      assert [] + ParseExactly(data, n).value == ParseExactly(data, n).value;
    }
  }

  lemma ParsingStep(data: Bytes, n: nat, entries: seq<Blob>, r: Bytes, left: nat, next: Read<Blob>)
    requires left > 0 && Parsing(data, n, entries, r, left) && next == ReadVarBytes(r, MAX_BLOCK_PAYLOAD)
    ensures !next.Got? ==> ParseExactly(data, n).None?
    ensures next.Got? ==> Parsing(data, n, entries + [next.value], next.rest, left - 1)
  {
    if next.Got? && ParseExactly(next.rest, left - 1).Some? {
      var fs := ParseExactly(next.rest, left - 1).value;
      assert entries + ([next.value] + fs) == entries + [next.value] + fs;
    }
  }

  /** The verifier's reader (readFilterFile of verify.go). */
  method ReadExactly(data: Bytes, n: nat) returns (filters: Option<seq<Blob>>)
    ensures filters == ParseExactly(data, n)
  {
    var r := data;
    var entries: seq<Blob> := [];
    ParsingStarts(data, n);
    for i := 0 to n
      invariant Parsing(data, n, entries, r, n - i)
    {
      var next := ReadVarBytes(r, MAX_BLOCK_PAYLOAD);
      ParsingStep(data, n, entries, r, n - i, next);
      if !next.Got? {
        return None;
      }
      entries, r := entries + [next.value], next.rest;
    }
    assert entries + [] == entries;
    filters := if r == [] then Some(entries) else None;
  }

  // ---------- what the readers accept ----------

  predicate Fit(filters: seq<Blob>, cap: nat) {
    forall i :: 0 <= i < |filters| ==> |filters[i]| <= cap
  }

  /** The restart reader gives back what was written exactly when every filter fits its cap. */
  lemma {:induction false} ScanRoundTrip(filters: seq<Blob>)
    ensures ScanFile(Serialize(filters)) == Scan(filters, true) <==> Fit(filters, MAX_MESSAGE_PAYLOAD)
    decreases |filters|
  {
    if filters != [] {
      var f, rest := filters[0], filters[1..];
      assert filters == [f] + rest;
      SerializeCons(f, rest);
      VarBytesRoundTrip(f, Serialize(rest), MAX_MESSAGE_PAYLOAD);
      ScanRoundTrip(rest);
      if |f| <= MAX_MESSAGE_PAYLOAD {
        assert ScanFile(Serialize(filters)).entries[1..] == ScanFile(Serialize(rest)).entries;
        assert Fit(rest, MAX_MESSAGE_PAYLOAD) ==> Fit(filters, MAX_MESSAGE_PAYLOAD);
        assert Fit(filters, MAX_MESSAGE_PAYLOAD) ==> Fit(rest, MAX_MESSAGE_PAYLOAD) by {
          assert forall i :: 0 <= i < |rest| ==> rest[i] == filters[i + 1];
        }
      }
    }
  }

  /**
   * A file cut short never shows all of its entries, even where the cut makes the
   * scan end cleanly: the scan sees a strictly shorter prefix of the entries.
   */
  lemma {:induction false} TruncatedScan(filters: seq<Blob>, cut: nat)
    requires cut < |Serialize(filters)|
    ensures var s := ScanFile(Serialize(filters)[..cut]); |s.entries| < |filters| && s.entries <= filters
    decreases |filters|
  {
    var f, rest := filters[0], filters[1..];
    assert filters == [f] + rest;
    SerializeCons(f, rest);
    var head, data := VarBytes(f), Serialize(filters)[..cut];
    if cut < |head| {
      VarBytesTruncated(f, cut, MAX_MESSAGE_PAYLOAD);
      assert data == head[..cut];
    } else {
      assert data == head + Serialize(rest)[..cut - |head|];
      VarBytesRoundTrip(f, Serialize(rest)[..cut - |head|], MAX_MESSAGE_PAYLOAD);
      TruncatedScan(rest, cut - |head|);
    }
  }

  lemma {:induction false} ParsedIsSerialized(r: Bytes, n: nat)
    requires ParseExactly(r, n).Some?
    ensures var fs := ParseExactly(r, n).value; |fs| == n && Fit(fs, MAX_BLOCK_PAYLOAD) && r == Serialize(fs)
    decreases n
  {
    if n > 0 {
      var next := ReadVarBytes(r, MAX_BLOCK_PAYLOAD);
      VarBytesCanonical(r, MAX_BLOCK_PAYLOAD);
      ParsedIsSerialized(next.rest, n - 1);
      SerializeCons(next.value, ParseExactly(next.rest, n - 1).value);
    }
  }

  lemma {:induction false} SerializedParses(filters: seq<Blob>)
    requires Fit(filters, MAX_BLOCK_PAYLOAD)
    ensures ParseExactly(Serialize(filters), |filters|) == Some(filters)
    decreases |filters|
  {
    if filters != [] {
      var f, rest := filters[0], filters[1..];
      assert filters == [f] + rest;
      SerializeCons(f, rest);
      SerializedParses(rest);
      ParsesFirst(f, Serialize(rest), |rest|);
    }
  }

  lemma ParsesFirst(f: Blob, rest: Bytes, n: nat)
    requires |f| <= MAX_BLOCK_PAYLOAD && ParseExactly(rest, n).Some?
    ensures ParseExactly(VarBytes(f) + rest, n + 1) == Some([f] + ParseExactly(rest, n).value)
  {
    VarBytesRoundTrip(f, rest, MAX_BLOCK_PAYLOAD);
  }

  /** The verifier accepts exactly the encodings of `n` filters within its cap. */
  lemma ParseExactlyAccepts(r: Bytes, n: nat, filters: seq<Blob>)
    ensures ParseExactly(r, n) == Some(filters)
            <==> |filters| == n && Fit(filters, MAX_BLOCK_PAYLOAD) && r == Serialize(filters)
  {
    if ParseExactly(r, n).Some? {
      ParsedIsSerialized(r, n);
    }
    if Fit(filters, MAX_BLOCK_PAYLOAD) {
      SerializedParses(filters);
    }
  }
}
