/**
 * The basic filter producer and its seal-time check. Memory may hold filters of blocks
 * from several chains, because a reorg can land between two ingests; the check decides
 * by the commitment chain alone, anchored at the filter headers the backend reports for
 * the blocks the height-to-hash cache names on both ends.
 */
module CFilters {
  import opened Basics
  import opened Wire
  import opened FilterChain
  import FilterFile

  /**
   * What the outside answers at a moment: the hash the shared cache names for a height,
   * and whether the backend answers about a block.
   */
  datatype Answers = Answers(named: int -> Option<Hash>, answered: Hash -> bool)

  /** The filter header of the block named at a height, if everybody answers. */
  function AuthHeader(H: Hasher, b: Blocks, a: Answers, height: nat): Option<Hash> {
    var hash := a.named(height);
    if hash.None? || !a.answered(hash.value) then None else Some(AuthFilterHeader(H, b, hash.value, height))
  }

  /** The header the range must chain onto: zero for genesis. */
  function StartHeader(H: Hasher, b: Blocks, a: Answers, fileStart: nat): Option<Hash> {
    if fileStart == 0 then Some(ZERO_HASH) else AuthHeader(H, b, a, fileStart - 1)
  }

  /** The chain of the range closes between its two anchors. */
  predicate Closes(H: Hasher, b: Blocks, a: Answers, filters: seq<Bytes>, fileStart: nat) {
    filters != [] &&
    var start, end := StartHeader(H, b, a, fileStart), AuthHeader(H, b, a, fileStart + |filters| - 1);
    start.Some? && end.Some? && Fold(H, start.value, filters) == end.value
  }

  datatype Outcome = Refused | WriteFailed | Sealed

  lemma FoldNext(H: Hasher, start: Hash, filters: map<int, Blob>, lo: int, hi: int)
    requires lo <= hi && Covers(filters, lo, hi) && hi in filters
    ensures Fold(H, start, Range(filters, lo, hi + 1))
            == FilterHeader(H, filters[hi], Fold(H, start, Range(filters, lo, hi)))
  {
    FoldSnoc(H, start, Range(filters, lo, hi), filters[hi]);
    assert Range(filters, lo, hi + 1) == Range(filters, lo, hi) + [filters[hi]];
  }

  class CFilterFiles {
    const H: Hasher
    const b: Blocks

    var filters: map<int, Blob>
    var heightToHash: map<int, Hash>
    var files: map<int, Bytes>

    constructor (H: Hasher, b: Blocks)
      ensures filters == map[] && heightToHash == map[] && files == map[]
      ensures this.H == H && this.b == b
    {
      this.H, this.b := H, b;
      filters, heightToHash, files := map[], map[], map[];
    }

    /** Stores the filter of whatever block is named at the height right now. */
    method Ingest(height: int, a: Answers) returns (ok: bool)
      modifies `filters, `heightToHash
      ensures ok <==> a.named(height).Some? && a.answered(a.named(height).value)
      ensures ok ==> filters == old(filters)[height := b.filter(a.named(height).value)]
      ensures ok ==> heightToHash == old(heightToHash)[height := a.named(height).value]
      ensures !ok ==> filters == old(filters) && heightToHash == old(heightToHash)
    {
      var hash := a.named(height);
      if hash.None? || !a.answered(hash.value) {
        return false;
      }
      filters := filters[height := b.filter(hash.value)];
      heightToHash := heightToHash[height := hash.value];
      ok := true;
    }

    /** The header the range chains to from `start`; a gap in memory stops the walk. */
    method Recompute(fileStart: nat, fileEnd: nat, start: Hash) returns (end: Option<Hash>)
      requires fileStart <= fileEnd
      ensures end.Some? <==> Covers(filters, fileStart, fileEnd + 1)
      ensures end.Some? ==> end.value == Fold(H, start, Range(filters, fileStart, fileEnd + 1))
    {
      var running := start;
      for height := fileStart to fileEnd + 1
        invariant Covers(filters, fileStart, height)
        invariant running == Fold(H, start, Range(filters, fileStart, height))
      {
        if height !in filters {
          return None;
        }
        FoldNext(H, start, filters, fileStart, height);
        running := FilterHeader(H, filters[height], running);
      }
      end := Some(running);
    }

    /** Passes exactly if every height is in memory and the range closes. */
    method VerifyFilters(fileStart: nat, fileEnd: nat, a: Answers) returns (ok: bool)
      requires fileStart <= fileEnd
      ensures ok <==> Covers(filters, fileStart, fileEnd + 1)
                      && Closes(H, b, a, Range(filters, fileStart, fileEnd + 1), fileStart)
    {
      var start := StartHeader(H, b, a, fileStart);
      if start.None? {
        return false;
      }
      var wantEnd := AuthHeader(H, b, a, fileEnd);
      if wantEnd.None? {
        return false;
      }
      var end := Recompute(fileStart, fileEnd, start.value);
      ok := end == wantEnd;
    }

    /** Passing the check and having the disk take the file are both needed; nothing changes otherwise. */
    method WriteSealedFile(fileStart: nat, fileEnd: nat, a: Answers, diskTakesIt: bool) returns (outcome: Outcome)
      requires fileStart <= fileEnd
      modifies `files
      ensures outcome.Refused? <==> !(Covers(filters, fileStart, fileEnd + 1)
                                      && Closes(H, b, a, Range(filters, fileStart, fileEnd + 1), fileStart))
      ensures outcome.WriteFailed? ==> !diskTakesIt
      ensures outcome.Sealed? ==> diskTakesIt
      ensures files == if !outcome.Sealed? then old(files)
                       else old(files)[fileStart := FilterFile.Serialize(Range(filters, fileStart, fileEnd + 1))]
    {
      var ok := VerifyFilters(fileStart, fileEnd, a);
      if !ok {
        return Refused;
      }
      if !diskTakesIt {
        return WriteFailed;
      }
      var data, complete := FilterFile.SerializeFilters(filters, fileStart, fileEnd);
      assert Span(filters, fileStart, fileEnd) == Range(filters, fileStart, fileEnd + 1);
      files := files[fileStart := data];
      outcome := Sealed;
    }
  }

  // ---------- what passing means ----------

  /** The filters of the ancestors of the block named at the range's end, for the range. */
  function AncestorFilters(b: Blocks, a: Answers, fileStart: nat, n: nat): seq<Bytes>
    requires n > 0 && a.named(fileStart + n - 1).Some?
  {
    Filters(b, Chain(b, a.named(fileStart + n - 1).value, fileStart + n)[fileStart..])
  }

  /** The block named before the range is an ancestor of the block named at its end. */
  predicate OneChain(b: Blocks, a: Answers, fileStart: nat, n: nat) {
    && n > 0 && a.named(fileStart + n - 1).Some?
    && (fileStart > 0 ==>
          a.named(fileStart - 1) == Some(Chain(b, a.named(fileStart + n - 1).value, fileStart + n)[fileStart - 1]))
  }

  /** The anchor's header as the chain of the end block has it. */
  function ChainStart(H: Hasher, b: Blocks, a: Answers, fileStart: nat, n: nat): Hash
    requires n > 0 && a.named(fileStart + n - 1).Some?
  {
    Fold(H, ZERO_HASH, Filters(b, Chain(b, a.named(fileStart + n - 1).value, fileStart + n)[..fileStart]))
  }

  lemma EndSplits(H: Hasher, b: Blocks, a: Answers, fileStart: nat, n: nat)
    requires n > 0 && a.named(fileStart + n - 1).Some?
    ensures AuthFilterHeader(H, b, a.named(fileStart + n - 1).value, fileStart + n - 1)
            == Fold(H, ChainStart(H, b, a, fileStart, n), AncestorFilters(b, a, fileStart, n))
  {
    var c := Chain(b, a.named(fileStart + n - 1).value, fileStart + n);
    assert Filters(b, c) == Filters(b, c[..fileStart]) + Filters(b, c[fileStart..]);
    FoldConcat(H, ZERO_HASH, Filters(b, c[..fileStart]), Filters(b, c[fileStart..]));
  }

  /**
   * If the check passes, every filter is the ancestor's and the start anchor is the one of
   * that chain, whatever chains memory mixes; otherwise this is a hash collision.
   */
  function ForeignFilterCollision(H: Hasher, b: Blocks, a: Answers, filters: seq<Bytes>, fileStart: nat): (c: Option<Pair>)
    requires Closes(H, b, a, filters, fileStart)
    ensures c.None? <==> filters == AncestorFilters(b, a, fileStart, |filters|)
                         && StartHeader(H, b, a, fileStart) == Some(ChainStart(H, b, a, fileStart, |filters|))
    ensures c.Some? ==> Collides(H, c.value)
  {
    EndSplits(H, b, a, fileStart, |filters|);
    FoldCollision(H, StartHeader(H, b, a, fileStart).value, filters,
                  ChainStart(H, b, a, fileStart, |filters|), AncestorFilters(b, a, fileStart, |filters|))
  }

  /** With a start anchor on the same chain, the right filters always pass. */
  lemma RightFiltersPass(H: Hasher, b: Blocks, a: Answers, fileStart: nat, n: nat)
    requires OneChain(b, a, fileStart, n)
    requires a.answered(a.named(fileStart + n - 1).value)
    requires fileStart > 0 ==> a.answered(a.named(fileStart - 1).value)
    ensures Closes(H, b, a, AncestorFilters(b, a, fileStart, n), fileStart)
  {
    EndSplits(H, b, a, fileStart, n);
    if fileStart > 0 {
      ChainPrefix(b, a.named(fileStart + n - 1).value, fileStart + n, fileStart - 1);
    } else {
      assert Chain(b, a.named(fileStart + n - 1).value, fileStart + n)[..0] == [];
      assert Filters(b, []) == [];
    }
  }
}
