/**
 * The spent-output lists of a block: the parser of the nested CompactSize encoding, which
 * accepts exactly the encodings within its caps, and the positional pairing of inputs
 * with the scripts they spend.
 */
module SpentTxOuts {
  import opened Basics
  import opened Wire

  const MAX_SPENT_TX_OUTS := MAX_BLOCK_PAYLOAD

  datatype TxOut = TxOut(value: int64, script: Blob)

  /** The outputs one transaction spends; a Go slice. */
  type Spent = s: seq<TxOut> | |s| < 0x8000_0000_0000_0000

  // ---------- repeated values ----------

  /** A value and what is left, or a failure of any kind. */
  datatype Parsed<+T> = Parsed(value: T, rest: Bytes) | Bad

  function EncodeMany<T>(enc: T -> Bytes, xs: seq<T>): Bytes {
    if xs == [] then [] else enc(xs[0]) + EncodeMany(enc, xs[1..])
  }

  function ReadMany<T>(read: Bytes -> Parsed<T>, r: Bytes, n: nat): (p: Parsed<seq<T>>)
    ensures p.Parsed? ==> |p.value| == n
    decreases n
  {
    if n == 0 then Parsed([], r)
    else
      match read(r)
      case Parsed(x, rest) =>
        (match ReadMany(read, rest, n - 1)
         case Parsed(xs, rest') => Parsed([x] + xs, rest')
         case Bad => Bad)
      case Bad => Bad
  }

  predicate ReadsBack<T(==)>(read: Bytes -> Parsed<T>, enc: T -> Bytes, x: T, rest: Bytes) {
    read(enc(x) + rest) == Parsed(x, rest)
  }

  /** What is read is the one encoding of a value within the caps. */
  predicate IsCanonical<T>(read: Bytes -> Parsed<T>, enc: T -> Bytes, ok: T -> bool, r: Bytes) {
    read(r).Parsed? ==> ok(read(r).value) && r == enc(read(r).value) + read(r).rest
  }

  ghost predicate Codec<T(!new)>(read: Bytes -> Parsed<T>, enc: T -> Bytes, ok: T -> bool) {
    && (forall x, rest :: ok(x) ==> ReadsBack(read, enc, x, rest))
    && (forall r :: IsCanonical(read, enc, ok, r))
  }

  predicate All<T>(ok: T -> bool, xs: seq<T>) {
    forall i :: 0 <= i < |xs| ==> ok(xs[i])
  }

  lemma {:induction false} ManyRoundTrip<T(!new)>(read: Bytes -> Parsed<T>, enc: T -> Bytes, ok: T -> bool, xs: seq<T>, rest: Bytes)
    requires Codec(read, enc, ok) && All(ok, xs)
    ensures ReadMany(read, EncodeMany(enc, xs) + rest, |xs|) == Parsed(xs, rest)
    decreases |xs|
  {
    if xs != [] {
      var tail := EncodeMany(enc, xs[1..]) + rest;
      assert EncodeMany(enc, xs) + rest == enc(xs[0]) + tail;
      assert ok(xs[0]) && ReadsBack(read, enc, xs[0], tail);
      ManyRoundTrip(read, enc, ok, xs[1..], rest);
      assert [xs[0]] + xs[1..] == xs;
    }
  }

  lemma {:induction false} ManyCanonical<T(!new)>(read: Bytes -> Parsed<T>, enc: T -> Bytes, ok: T -> bool, r: Bytes, n: nat)
    requires Codec(read, enc, ok) && ReadMany(read, r, n).Parsed?
    ensures var g := ReadMany(read, r, n); All(ok, g.value) && r == EncodeMany(enc, g.value) + g.rest
    decreases n
  {
    if n > 0 {
      var one, g := read(r), ReadMany(read, r, n);
      assert IsCanonical(read, enc, ok, r);
      ManyCanonical(read, enc, ok, one.rest, n - 1);
      assert g.value[1..] == ReadMany(read, one.rest, n - 1).value;
      assert g.value[0] == one.value;
      assert r == enc(one.value) + (EncodeMany(enc, g.value[1..]) + g.rest);
    }
  }

  /** A loop that has read `done` and has `left` values to go. */
  predicate Progress<T(==)>(read: Bytes -> Parsed<T>, data: Bytes, n: nat, done: seq<T>, r: Bytes, left: nat) {
    ReadMany(read, data, n) == match ReadMany(read, r, left)
                               case Parsed(xs, rest) => Parsed(done + xs, rest)
                               case Bad => Bad
  }

  lemma ProgressStarts<T>(read: Bytes -> Parsed<T>, data: Bytes, n: nat)
    ensures Progress(read, data, n, [], data, n)
  {
    if ReadMany(read, data, n).Parsed? {
      assert [] + ReadMany(read, data, n).value == ReadMany(read, data, n).value;
    }
  }

  lemma ProgressStep<T>(read: Bytes -> Parsed<T>, data: Bytes, n: nat, done: seq<T>, r: Bytes, left: nat)
    requires left > 0 && Progress(read, data, n, done, r, left)
    ensures read(r).Bad? ==> ReadMany(read, data, n) == Bad
    ensures read(r).Parsed? ==> Progress(read, data, n, done + [read(r).value], read(r).rest, left - 1)
  {
    if read(r).Parsed? && ReadMany(read, read(r).rest, left - 1).Parsed? {
      var xs := ReadMany(read, read(r).rest, left - 1).value;
      assert done + ([read(r).value] + xs) == done + [read(r).value] + xs;
    }
  }

  lemma ProgressEnds<T>(read: Bytes -> Parsed<T>, data: Bytes, n: nat, done: seq<T>, r: Bytes)
    requires Progress(read, data, n, done, r, 0)
    ensures ReadMany(read, data, n) == Parsed(done, r)
  {
    assert done + [] == done;
  }

  // ---------- the encoding ----------

  function EncodeOut(o: TxOut): Bytes {
    LittleEndian(ToUint64(o.value), 8) + VarBytes(o.script)
  }

  predicate ScriptFits(o: TxOut) {
    |o.script| <= MAX_MESSAGE_PAYLOAD
  }

  function EncodeList(outs: Spent): Bytes {
    CompactSize(|outs|) + EncodeMany(EncodeOut, outs)
  }

  predicate ListFits(outs: Spent) {
    |outs| <= MAX_SPENT_TX_OUTS && All(ScriptFits, outs)
  }

  predicate Fits(lists: seq<Spent>) {
    |lists| <= MAX_SPENT_TX_OUTS && All(ListFits, lists)
  }

  function Encode(lists: seq<Spent>): Bytes
    requires Fits(lists)
  {
    CompactSize(|lists|) + EncodeMany(EncodeList, lists)
  }

  // ---------- the parser ----------

  function ReadOut(r: Bytes): Parsed<TxOut> {
    if |r| < 8 then Bad
    else
      PowersOf256();
      match ReadVarBytes(r[8..], MAX_MESSAGE_PAYLOAD)
      case Got(script, rest) => Parsed(TxOut(FromUint64(FromLittleEndian(r[..8])), script), rest)
      case _ => Bad
  }

  function ReadList(r: Bytes): Parsed<Spent> {
    match ReadCompactSize(r)
    case Got(n, rest) =>
      if n > MAX_SPENT_TX_OUTS then Bad
      else ReadMany(ReadOut, rest, n)
    case _ => Bad
  }

  /** All lists and nothing behind them. */
  function Parse(r: Bytes): Option<seq<Spent>> {
    match ReadCompactSize(r)
    case Got(n, rest) =>
      if n > MAX_SPENT_TX_OUTS then None
      else (
        match ReadMany(ReadList, rest, n)
        case Parsed(ls, rest') => if rest' == [] then Some(ls) else None
        case Bad => None
      )
    case _ => None
  }

  /** The loop over `n` values one after the other. */
  method ParseMany<T>(read: Bytes -> Parsed<T>, data: Bytes, n: nat) returns (result: Parsed<seq<T>>)
    ensures result == ReadMany(read, data, n)
  {
    var r, xs: seq<T> := data, [];
    ProgressStarts(read, data, n);
    for i := 0 to n
      invariant Progress(read, data, n, xs, r, n - i)
    {
      ProgressStep(read, data, n, xs, r, n - i);
      var next := read(r);
      if next.Bad? {
        return Bad;
      }
      xs, r := xs + [next.value], next.rest;
    }
    ProgressEnds(read, data, n, xs, r);
    result := Parsed(xs, r);
  }

  /** The outputs of one list. */
  method ParseList(data: Bytes) returns (result: Parsed<Spent>)
    ensures result == ReadList(data)
  {
    var count := ReadCompactSize(data);
    if !count.Got? || count.value > MAX_SPENT_TX_OUTS {
      return Bad;
    }
    result := ParseMany(ReadOut, count.rest, count.value);
  }

  method ParseSpentTxOuts(data: Bytes) returns (result: Option<seq<Spent>>)
    ensures result == Parse(data)
  {
    var count := ReadCompactSize(data);
    if !count.Got? || count.value > MAX_SPENT_TX_OUTS {
      return None;
    }
    var r, lists: seq<Spent> := count.rest, [];
    ProgressStarts(ReadList, r, count.value);
    for txIndex := 0 to count.value
      invariant Progress(ReadList, count.rest, count.value, lists, r, count.value - txIndex)
    {
      ProgressStep(ReadList, count.rest, count.value, lists, r, count.value - txIndex);
      var next := ParseList(r);
      if next.Bad? {
        return None;
      }
      lists, r := lists + [next.value], next.rest;
    }
    ProgressEnds(ReadList, count.rest, count.value, lists, r);
    result := if r == [] then Some(lists) else None;
  }

  // ---------- what the parser accepts ----------

  lemma OutRoundTrip(o: TxOut, rest: Bytes)
    requires ScriptFits(o)
    ensures ReadOut(EncodeOut(o) + rest) == Parsed(o, rest)
  {
    PowersOf256();
    var r := EncodeOut(o) + rest;
    LittleEndianRoundTrip(ToUint64(o.value), 8);
    assert r[..8] == LittleEndian(ToUint64(o.value), 8);
    assert r[8..] == VarBytes(o.script) + rest;
    VarBytesRoundTrip(o.script, rest, MAX_MESSAGE_PAYLOAD);
  }

  lemma OutCanonical(r: Bytes)
    requires ReadOut(r).Parsed?
    ensures ScriptFits(ReadOut(r).value) && r == EncodeOut(ReadOut(r).value) + ReadOut(r).rest
  {
    PowersOf256();
    LittleEndianOnto(r[..8]);
    VarBytesCanonical(r[8..], MAX_MESSAGE_PAYLOAD);
    assert r == r[..8] + r[8..];
  }

  lemma OutCodec()
    ensures Codec(ReadOut, EncodeOut, ScriptFits)
  {
    forall o: TxOut, rest | ScriptFits(o) ensures ReadsBack(ReadOut, EncodeOut, o, rest) {
      OutRoundTrip(o, rest);
    }
    forall r ensures IsCanonical(ReadOut, EncodeOut, ScriptFits, r) {
      if ReadOut(r).Parsed? {
        OutCanonical(r);
      }
    }
  }

  lemma ListRoundTrip(l: Spent, rest: Bytes)
    requires ListFits(l)
    ensures ReadList(EncodeList(l) + rest) == Parsed(l, rest)
  {
    var body := EncodeMany(EncodeOut, l);
    CompactSizeRoundTrip(|l|, body + rest);
    assert EncodeList(l) + rest == CompactSize(|l|) + (body + rest);
    OutCodec();
    ManyRoundTrip(ReadOut, EncodeOut, ScriptFits, l, rest);
  }

  lemma ListCanonical(r: Bytes)
    requires ReadList(r).Parsed?
    ensures ListFits(ReadList(r).value) && r == EncodeList(ReadList(r).value) + ReadList(r).rest
  {
    CompactSizeCanonical(r);
    var n := ReadCompactSize(r);
    OutCodec();
    ManyCanonical(ReadOut, EncodeOut, ScriptFits, n.rest, n.value);
    Associates(CompactSize(n.value), EncodeMany(EncodeOut, ReadList(r).value), ReadList(r).rest);
  }

  lemma ListCodec()
    ensures Codec(ReadList, EncodeList, ListFits)
  {
    forall l: Spent, rest | ListFits(l) ensures ReadsBack(ReadList, EncodeList, l, rest) {
      ListRoundTrip(l, rest);
    }
    forall r ensures IsCanonical(ReadList, EncodeList, ListFits, r) {
      if ReadList(r).Parsed? {
        ListCanonical(r);
      }
    }
  }

  lemma EncodedReads(lists: seq<Spent>, rest: Bytes)
    requires Fits(lists)
    ensures Parse(Encode(lists) + rest) == if rest == [] then Some(lists) else None
  {
    var body := EncodeMany(EncodeList, lists);
    Associates(CompactSize(|lists|), body, rest);
    CompactSizeRoundTrip(|lists|, body + rest);
    ListCodec();
    ManyRoundTrip(ReadList, EncodeList, ListFits, lists, rest);
  }

  lemma ParsedIsEncoded(r: Bytes)
    requires Parse(r).Some?
    ensures Fits(Parse(r).value) && r == Encode(Parse(r).value)
  {
    CompactSizeCanonical(r);
    var n := ReadCompactSize(r);
    ListCodec();
    ManyCanonical(ReadList, EncodeList, ListFits, n.rest, n.value);
    var body := EncodeMany(EncodeList, Parse(r).value);
    assert body + [] == body;
  }

  /** Accepted are exactly the encodings of lists within the caps, each as these lists. */
  lemma ParseAccepts(r: Bytes, lists: seq<Spent>)
    ensures Parse(r) == Some(lists) <==> Fits(lists) && r == Encode(lists)
  {
    if Parse(r).Some? {
      ParsedIsEncoded(r);
    }
    if Fits(lists) && r == Encode(lists) {
      EncodedReads(lists, []);
      assert r + [] == r;
    }
  }

  lemma OneOut(value: byte, op: byte)
    ensures EncodeOut(TxOut(256 + value, [op])) == [value, 1, 0, 0, 0, 0, 0, 0, 1, op]
  {
    assert LittleEndian(1, 7) == [1, 0, 0, 0, 0, 0, 0];
  }

  lemma OneList<T>(enc: T -> Bytes, x: T)
    ensures EncodeMany(enc, [x]) == enc(x)
  {
  }

  lemma TwoLists(outs: Spent)
    requires |outs| == 1
    ensures var lists: seq<Spent> := [[], outs];
            EncodeMany(EncodeList, lists) == [0, 1] + EncodeOut(outs[0])
  {
    var none: Spent := [];
    var lists: seq<Spent> := [none, outs];
    assert lists[1..] == [outs];
    OneList(EncodeList, outs);
    assert outs == [outs[0]];
    OneList(EncodeOut, outs[0]);
    assert EncodeList(none) == [0];
  }

  /** On bytes: the counts, the value in eight bytes, lowest first, and the counted script. */
  lemma OneSpentOutput(value: byte, op: byte)
    ensures var lists: seq<Spent> := [[], [TxOut(256 + value, [op])]];
            Fits(lists) && Encode(lists) == [2, 0, 1, value, 1, 0, 0, 0, 0, 0, 0, 1, op]
  {
    var outs: Spent := [TxOut(256 + value, [op])];
    TwoLists(outs);
    OneOut(value, op);
  }

  /** No truncation is accepted, as whatever lists. */
  lemma TruncatedIsRejected(lists: seq<Spent>, cut: nat)
    requires Fits(lists) && cut < |Encode(lists)|
    ensures Parse(Encode(lists)[..cut]).None?
  {
    var whole := Encode(lists);
    ParseAccepts(whole, lists);
    assert whole == whole[..cut] + whole[cut..];
    if Parse(whole[..cut]).Some? {
      ExtensionIsRejected(whole[..cut], whole[cut..]);
    }
  }

  lemma ExtensionIsRejected(r: Bytes, tail: Bytes)
    requires Parse(r).Some? && tail != []
    ensures Parse(r + tail).None?
  {
    ParsedIsEncoded(r);
    EncodedReads(Parse(r).value, tail);
  }

  /** Nothing behind a complete encoding is accepted either. */
  lemma TrailingIsRejected(lists: seq<Spent>, tail: Bytes)
    requires Fits(lists) && tail != []
    ensures Parse(Encode(lists) + tail).None?
  {
    EncodedReads(lists, tail);
  }

  // ---------- pairing inputs with scripts ----------

  datatype OutPoint = OutPoint(txid: Hash, index: nat)

  datatype Tx = Tx(ins: seq<OutPoint>)

  type Pairing = seq<(OutPoint, Blob)>

  predicate SameArity(txs: seq<Tx>, lists: seq<Spent>, i: nat)
    requires i < |txs| == |lists|
  {
    |lists[i]| == |txs[i].ins|
  }

  /** One list a transaction, and one output an input; the coinbase's list is not looked at. */
  predicate SameShape(txs: seq<Tx>, lists: seq<Spent>) {
    |lists| == |txs| && forall i: nat :: 0 < i < |txs| ==> SameArity(txs, lists, i)
  }

  /** The first `n` inputs of a transaction with the scripts at their positions. */
  function TxPairs(ins: seq<OutPoint>, spent: Spent, n: nat): (ps: Pairing)
    requires n <= |ins| == |spent|
    ensures |ps| == n
  {
    if n == 0 then [] else TxPairs(ins, spent, n - 1) + [(ins[n - 1], spent[n - 1].script)]
  }

  /** The pairs of the first `n` transactions, without the coinbase. */
  function Pairs(txs: seq<Tx>, lists: seq<Spent>, n: nat): Pairing
    requires SameShape(txs, lists) && n <= |txs|
  {
    if n <= 1 then [] else
      assert SameArity(txs, lists, n - 1);
      Pairs(txs, lists, n - 1) + TxPairs(txs[n - 1].ins, lists[n - 1], |txs[n - 1].ins|)
  }

  /** A map filled pair by pair; a later pair replaces an earlier one. */
  function Filled(m: map<OutPoint, Blob>, ps: Pairing): map<OutPoint, Blob> {
    if ps == [] then m else Filled(m, ps[..|ps| - 1])[ps[|ps| - 1].0 := ps[|ps| - 1].1]
  }

  lemma {:induction false} FilledConcat(m: map<OutPoint, Blob>, a: Pairing, b: Pairing)
    ensures Filled(m, a + b) == Filled(Filled(m, a), b)
    decreases |b|
  {
    if b == [] {
      assert a + b == a;
    } else {
      assert (a + b)[..|a + b| - 1] == a + b[..|b| - 1];
      FilledConcat(m, a, b[..|b| - 1]);
    }
  }

  method PairInputs(txs: seq<Tx>, lists: seq<Spent>) returns (scripts: Option<map<OutPoint, Blob>>)
    ensures scripts.Some? <==> SameShape(txs, lists)
    ensures scripts.Some? ==> scripts.value == Filled(map[], Pairs(txs, lists, |txs|))
  {
    if |lists| != |txs| {
      return None;
    }
    var m: map<OutPoint, Blob> := map[];
    for txIndex := 0 to |txs|
      invariant SameShape(txs[..txIndex], lists[..txIndex])
      invariant m == Filled(map[], Pairs(txs[..txIndex], lists[..txIndex], txIndex))
    {
      ShapeGrows(txs, lists, txIndex);
      if txIndex > 0 {
        if |lists[txIndex]| != |txs[txIndex].ins| {
          return None;
        }
        PairsGrow(txs, lists, txIndex);
        FilledConcat(map[], Pairs(txs[..txIndex], lists[..txIndex], txIndex),
                     TxPairs(txs[txIndex].ins, lists[txIndex], |txs[txIndex].ins|));
        m := PairOne(m, txs[txIndex].ins, lists[txIndex]);
      }
    }
    assert txs[..|txs|] == txs && lists[..|txs|] == lists;
    scripts := Some(m);
  }

  lemma ShapeGrows(txs: seq<Tx>, lists: seq<Spent>, n: nat)
    requires |lists| == |txs| && n < |txs| && SameShape(txs[..n], lists[..n])
    ensures SameShape(txs[..n + 1], lists[..n + 1]) <==> n == 0 || |lists[n]| == |txs[n].ins|
    ensures !SameShape(txs[..n + 1], lists[..n + 1]) ==> !SameShape(txs, lists)
  {
    var ts, ls := txs[..n + 1], lists[..n + 1];
    if n == 0 || |lists[n]| == |txs[n].ins| {
      forall i: nat | 0 < i < |ts| ensures SameArity(ts, ls, i) {
        assert i < n ==> SameArity(txs[..n], lists[..n], i);
      }
    } else {
      assert !SameArity(ts, ls, n) && !SameArity(txs, lists, n);
    }
  }

  lemma PairsGrow(txs: seq<Tx>, lists: seq<Spent>, n: nat)
    requires |lists| == |txs| && 0 < n < |txs|
    requires SameShape(txs[..n], lists[..n]) && SameShape(txs[..n + 1], lists[..n + 1])
    requires |lists[n]| == |txs[n].ins|
    ensures Pairs(txs[..n + 1], lists[..n + 1], n + 1)
            == Pairs(txs[..n], lists[..n], n) + TxPairs(txs[n].ins, lists[n], |txs[n].ins|)
  {
    PairsCut(txs[..n + 1], lists[..n + 1], txs[..n], lists[..n], n);
  }

  /** Pairs look only at the transactions they come from. */
  lemma {:induction false} PairsCut(txs: seq<Tx>, lists: seq<Spent>, ts: seq<Tx>, ls: seq<Spent>, n: nat)
    requires SameShape(txs, lists) && SameShape(ts, ls) && n <= |txs| && n <= |ts|
    requires txs[..n] == ts[..n] && lists[..n] == ls[..n]
    ensures Pairs(txs, lists, n) == Pairs(ts, ls, n)
  {
    if n > 1 {
      assert txs[..n - 1] == txs[..n][..n - 1] && lists[..n - 1] == lists[..n][..n - 1];
      PairsCut(txs, lists, ts, ls, n - 1);
      assert txs[n - 1] == txs[..n][n - 1] && lists[n - 1] == lists[..n][n - 1];
    }
  }

  method PairOne(m: map<OutPoint, Blob>, ins: seq<OutPoint>, spent: Spent) returns (out: map<OutPoint, Blob>)
    requires |ins| == |spent|
    ensures out == Filled(m, TxPairs(ins, spent, |ins|))
  {
    out := m;
    for j := 0 to |ins|
      invariant out == Filled(m, TxPairs(ins, spent, j))
    {
      PairNext(m, ins, spent, j);
      out := out[ins[j] := spent[j].script];
    }
  }

  lemma PairNext(m: map<OutPoint, Blob>, ins: seq<OutPoint>, spent: Spent, j: nat)
    requires j < |ins| == |spent|
    ensures Filled(m, TxPairs(ins, spent, j + 1)) == Filled(m, TxPairs(ins, spent, j))[ins[j] := spent[j].script]
  {
    assert TxPairs(ins, spent, j + 1)[..j] == TxPairs(ins, spent, j);
  }

  /** The keys are the spent outpoints; each holds the script paired with it last. */
  lemma {:induction false} LastPairWins(ps: Pairing, op: OutPoint)
    ensures op in Filled(map[], ps) <==> exists k :: 0 <= k < |ps| && ps[k].0 == op
    ensures op in Filled(map[], ps) ==>
              exists k :: 0 <= k < |ps| && ps[k] == (op, Filled(map[], ps)[op]) && forall l :: k < l < |ps| ==> ps[l].0 != op
  {
    if ps != [] {
      var n := |ps| - 1;
      LastPairWins(ps[..n], op);
      if ps[n].0 == op {
        assert ps[n] == (op, Filled(map[], ps)[op]);
      } else if op in Filled(map[], ps) {
        var k :| 0 <= k < n && ps[..n][k] == (op, Filled(map[], ps[..n])[op])
                 && forall l :: k < l < n ==> ps[..n][l].0 != op;
        assert ps[k] == ps[..n][k];
        forall l | k < l < |ps| ensures ps[l].0 != op {
          assert l < n ==> ps[l] == ps[..n][l];
        }
      }
    }
  }

  /** No outpoint is an input twice, the coinbase's aside. */
  ghost predicate SpendsOnce(txs: seq<Tx>) {
    forall i: nat, j: nat, k: nat, l: nat ::
      0 < i < |txs| && 0 < k < |txs| && j < |txs[i].ins| && l < |txs[k].ins| && txs[i].ins[j] == txs[k].ins[l]
      ==> i == k && j == l
  }

  lemma {:induction false} TxPairAt(ins: seq<OutPoint>, spent: Spent, n: nat, j: nat)
    requires j < n <= |ins| == |spent|
    ensures TxPairs(ins, spent, n)[j] == (ins[j], spent[j].script)
  {
    if j < n - 1 {
      TxPairAt(ins, spent, n - 1, j);
    }
  }

  lemma {:induction false} PairIsThere(txs: seq<Tx>, lists: seq<Spent>, n: nat, i: nat, j: nat)
    requires SameShape(txs, lists) && 0 < i < n <= |txs| && j < |txs[i].ins|
    ensures j < |lists[i]| && (txs[i].ins[j], lists[i][j].script) in Pairs(txs, lists, n)
  {
    assert SameArity(txs, lists, i);
    assert SameArity(txs, lists, n - 1);
    var last := TxPairs(txs[n - 1].ins, lists[n - 1], |txs[n - 1].ins|);
    if i == n - 1 {
      TxPairAt(txs[i].ins, lists[i], |txs[i].ins|, j);
      assert last[j] in last;
    } else {
      PairIsThere(txs, lists, n - 1, i, j);
    }
  }

  lemma {:induction false} TxPairFrom(ins: seq<OutPoint>, spent: Spent, n: nat, pair: (OutPoint, Blob)) returns (j: nat)
    requires n <= |ins| == |spent| && pair in TxPairs(ins, spent, n)
    ensures j < n && pair == (ins[j], spent[j].script)
  {
    if pair == (ins[n - 1], spent[n - 1].script) {
      j := n - 1;
    } else {
      j := TxPairFrom(ins, spent, n - 1, pair);
    }
  }

  /** Every pair is an input, not the coinbase's, with the output at its position. */
  lemma {:induction false} PairFrom(txs: seq<Tx>, lists: seq<Spent>, n: nat, pair: (OutPoint, Blob)) returns (i: nat, j: nat)
    requires SameShape(txs, lists) && n <= |txs| && pair in Pairs(txs, lists, n)
    ensures 0 < i < n && j < |txs[i].ins| && j < |lists[i]| && pair == (txs[i].ins[j], lists[i][j].script)
  {
    assert SameArity(txs, lists, n - 1);
    if pair in Pairs(txs, lists, n - 1) {
      i, j := PairFrom(txs, lists, n - 1, pair);
    } else {
      i := n - 1;
      j := TxPairFrom(txs[i].ins, lists[i], |txs[i].ins|, pair);
    }
  }

  predicate SpentAt(txs: seq<Tx>, op: OutPoint, i: nat, j: nat) {
    0 < i < |txs| && j < |txs[i].ins| && txs[i].ins[j] == op
  }

  /** The keys are exactly what the transactions behind the coinbase spend. */
  lemma KeysAreSpent(txs: seq<Tx>, lists: seq<Spent>, op: OutPoint)
    requires SameShape(txs, lists)
    ensures op in Filled(map[], Pairs(txs, lists, |txs|)) <==> exists i: nat, j: nat :: SpentAt(txs, op, i, j)
  {
    var ps := Pairs(txs, lists, |txs|);
    LastPairWins(ps, op);
    if op in Filled(map[], ps) {
      var k :| 0 <= k < |ps| && ps[k].0 == op;
      var i, j := PairFrom(txs, lists, |txs|, ps[k]);
      assert SpentAt(txs, op, i, j);
    }
    if i: nat, j: nat :| SpentAt(txs, op, i, j) {
      PairIsThere(txs, lists, |txs|, i, j);
      var k :| 0 <= k < |ps| && ps[k] == (op, lists[i][j].script);
    }
  }

  /** A block spends no outpoint twice, so every input finds the script at its own position. */
  lemma InputsFindTheirScripts(txs: seq<Tx>, lists: seq<Spent>, i: nat, j: nat)
    requires SameShape(txs, lists) && SpendsOnce(txs)
    requires 0 < i < |txs| && j < |txs[i].ins|
    ensures var m := Filled(map[], Pairs(txs, lists, |txs|));
            j < |lists[i]| && txs[i].ins[j] in m && m[txs[i].ins[j]] == lists[i][j].script
  {
    var ps, op := Pairs(txs, lists, |txs|), txs[i].ins[j];
    PairIsThere(txs, lists, |txs|, i, j);
    LastPairWins(ps, op);
    var w :| 0 <= w < |ps| && ps[w] == (op, Filled(map[], ps)[op]);
    var k, l := PairFrom(txs, lists, |txs|, ps[w]);
    assert k == i && l == j;
  }
}
