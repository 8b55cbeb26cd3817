/**
 * The header producer. One ingest fetches a block header and a filter header through
 * the same block hash, so proving the block headers at seal time also proves the
 * filter headers, however reorgs interleave with the ingests.
 */
module Headers {
  import opened Basics
  import opened Wire
  import opened FilterChain

  /** What the producer sealed for one range. */
  datatype Outcome = Refused | HeadersOnly | Sealed

  /** The headers of `end` and its ancestors, oldest first. */
  predicate HeadersOf(b: Blocks, end: Hash, hs: seq<Header>) {
    hs == FilterChain.Headers(b, Chain(b, end, |hs|))
  }

  /** Every filter header is the reported one of the block whose header is stored with it. */
  ghost predicate Coupled(H: Hasher, b: Blocks, headers: map<int, Header>, filterHeaders: map<int, Hash>) {
    && headers.Keys == filterHeaders.Keys
    && (forall h :: h in headers ==> 0 <= h && filterHeaders[h] == AuthFilterHeader(H, b, H(headers[h]), h))
  }

  lemma LinkNext(H: Hasher, m: map<int, Header>, lo: int, hi: int)
    requires lo <= hi && Covers(m, lo, hi) && hi in m
    requires Linked(H, Range(m, lo, hi)) && (lo < hi ==> PrevBlock(m[hi]) == H(m[hi - 1]))
    ensures Linked(H, Range(m, lo, hi + 1))
  {
    var r, s := Range(m, lo, hi), Range(m, lo, hi + 1);
    forall i: nat | 0 < i < |s| ensures LinkAt(H, s, i) {
      if i < |r| {
        assert LinkAt(H, r, i);
      }
    }
  }

  lemma BrokenLink(H: Hasher, m: map<int, Header>, lo: int, hi: int, k: int)
    requires lo < k < hi && k - 1 in m && k in m && PrevBlock(m[k]) != H(m[k - 1])
    ensures !(Covers(m, lo, hi) && Linked(H, Range(m, lo, hi)))
  {
    if Covers(m, lo, hi) {
      assert !LinkAt(H, Range(m, lo, hi), k - lo);
    }
  }

  lemma CoupledAt(H: Hasher, b: Blocks, headers: map<int, Header>, filterHeaders: map<int, Hash>, h: nat, hash: Hash)
    requires Hashes(H, b, hash) && Coupled(H, b, headers, filterHeaders)
    requires h in headers && headers[h] == b.header(hash)
    ensures h in filterHeaders && filterHeaders[h] == AuthFilterHeader(H, b, hash, h)
  {
    assert h in headers.Keys;
  }

  /**
   * Once the block headers of a range are proven, so are the filter headers stored with
   * them: at every height, the one the backend reports for that ancestor of `end`.
   */
  lemma FilterHeadersFollow(H: Hasher, b: Blocks, headers: map<int, Header>, filterHeaders: map<int, Hash>,
                            lo: nat, hi: nat, end: Hash, height: nat)
    requires Coupled(H, b, headers, filterHeaders) && lo <= height < hi
    requires Hashes(H, b, Chain(b, end, hi - lo)[height - lo])
    requires Covers(headers, lo, hi) && HeadersOf(b, end, Range(headers, lo, hi))
    ensures height in filterHeaders
    ensures filterHeaders[height] == AuthFilterHeader(H, b, Chain(b, end, hi - lo)[height - lo], height)
  {
    assert headers[height] == Range(headers, lo, hi)[height - lo];
    CoupledAt(H, b, headers, filterHeaders, height, Chain(b, end, hi - lo)[height - lo]);
  }

  /** The range is one linked chain that ends in the block the backend names at its end. */
  predicate ChecksOut(H: Hasher, headers: map<int, Header>, fileStart: int, fileEnd: int, endHash: Option<Hash>)
    requires fileStart <= fileEnd
  {
    && endHash.Some? && Covers(headers, fileStart, fileEnd + 1)
    && Linked(H, Range(headers, fileStart, fileEnd + 1))
    && H(headers[fileEnd]) == endHash.value
  }

  /**
   * What a sealed range holds, however the ingests and reorgs interleaved: the headers
   * of the ancestors of the block the backend named; or this is a hash collision.
   */
  function SealedCollision(H: Hasher, b: Blocks, headers: map<int, Header>, fileStart: int, fileEnd: int, end: Hash): (c: Option<Pair>)
    requires fileStart <= fileEnd && ChecksOut(H, headers, fileStart, fileEnd, Some(end))
    requires Honest(H, b, Chain(b, end, fileEnd + 1 - fileStart))
    ensures c.None? <==> HeadersOf(b, end, Range(headers, fileStart, fileEnd + 1))
    ensures c.Some? ==> Collides(H, c.value)
  {
    ChainLinked(H, b, end, fileEnd + 1 - fileStart);
    HeaderCollision(H, Range(headers, fileStart, fileEnd + 1),
                    FilterChain.Headers(b, Chain(b, end, fileEnd + 1 - fileStart)))
  }

  /** One entry deleted. */
  function Without<T>(m: map<int, T>, j: int): map<int, T> {
    map h | h in m && h != j :: m[h]
  }

  lemma CoupledWithout(H: Hasher, b: Blocks, headers: map<int, Header>, filterHeaders: map<int, Hash>, j: int)
    requires Coupled(H, b, headers, filterHeaders)
    ensures Coupled(H, b, Without(headers, j), Without(filterHeaders, j))
  {
    forall h ensures h in Without(headers, j) <==> h in Without(filterHeaders, j) {
      assert h in headers.Keys <==> h in filterHeaders.Keys;
    }
  }

  class HeaderFiles {
    const H: Hasher
    const b: Blocks

    var headers: map<int, Header>
    var filterHeaders: map<int, Hash>
    var headerFiles: map<int, seq<Header>>
    var filterHeaderFiles: map<int, seq<Hash>>

    /** Every filter header in memory is the one of the block whose header is next to it. */
    ghost predicate Valid()
      reads `headers, `filterHeaders
    {
      Coupled(H, b, headers, filterHeaders)
    }

    constructor (H: Hasher, b: Blocks)
      ensures Valid() && headers == map[] && headerFiles == map[] && filterHeaderFiles == map[]
      ensures this.H == H && this.b == b
    {
      this.H, this.b := H, b;
      headers, filterHeaders, headerFiles, filterHeaderFiles := map[], map[], map[], map[];
    }

    /** Stores both headers of whatever block is named at the height right now, or nothing. */
    method Ingest(height: nat, hash: Option<Hash>, answered: bool) returns (ok: bool)
      requires Valid() && (hash.Some? ==> Hashes(H, b, hash.value))
      modifies `headers, `filterHeaders
      ensures Valid() && (ok <==> hash.Some? && answered)
      ensures headers == if ok then old(headers)[height := b.header(hash.value)] else old(headers)
    {
      if hash.None? || !answered {
        return false;
      }
      headers := headers[height := b.header(hash.value)];
      filterHeaders := filterHeaders[height := AuthFilterHeader(H, b, hash.value, height)];
      ok := true;
    }

    method Prune(start: int, end: int)
      requires Valid()
      modifies `headers, `filterHeaders
      ensures Valid()
      ensures headers == map h | h in old(headers) && !(start <= h <= end) :: old(headers)[h]
    {
      var j := start;
      while j <= end
        invariant start <= j && Coupled(H, b, headers, filterHeaders)
        invariant headers == map h | h in old(headers) && !(start <= h < j && h <= end) :: old(headers)[h]
      {
        CoupledWithout(H, b, headers, filterHeaders, j);
        headers := Without(headers, j);
        filterHeaders := Without(filterHeaders, j);
        j := j + 1;
      }
    }

    method VerifyHeaders(fileStart: int, fileEnd: int, endHash: Option<Hash>) returns (ok: bool)
      requires fileStart <= fileEnd
      ensures ok <==> ChecksOut(H, headers, fileStart, fileEnd, endHash)
    {
      if endHash.None? {
        return false;
      }
      var running := ZERO_HASH;
      for height := fileStart to fileEnd + 1
        invariant Covers(headers, fileStart, height)
        invariant Linked(H, Range(headers, fileStart, height))
        invariant height > fileStart ==> running == H(headers[height - 1])
      {
        if height !in headers {
          return false;
        }
        if height > fileStart && PrevBlock(headers[height]) != running {
          BrokenLink(H, headers, fileStart, fileEnd + 1, height);
          return false;
        }
        LinkNext(H, headers, fileStart, height);
        running := H(headers[height]);
      }
      ok := running == endHash.value;
    }

    /**
     * Seals a range, as many of the two writes of which as the disk takes. A refused check
     * writes nothing; a failed second write leaves the header file without its partner.
     */
    method WriteSealedFile(fileStart: nat, fileEnd: nat, endHash: Option<Hash>, writes: nat) returns (outcome: Outcome)
      requires Valid() && fileStart <= fileEnd
      modifies `headerFiles, `filterHeaderFiles
      ensures outcome == if !ChecksOut(H, headers, fileStart, fileEnd, endHash) || writes == 0 then Refused
                         else if writes == 1 then HeadersOnly
                         else Sealed
      ensures headerFiles == if outcome.Refused? then old(headerFiles)
                             else old(headerFiles)[fileStart := Range(headers, fileStart, fileEnd + 1)]
      ensures outcome.Sealed? ==> Covers(filterHeaders, fileStart, fileEnd + 1)
      ensures filterHeaderFiles == if !outcome.Sealed? then old(filterHeaderFiles)
                                   else old(filterHeaderFiles)[fileStart := Range(filterHeaders, fileStart, fileEnd + 1)]
    {
      var ok := VerifyHeaders(fileStart, fileEnd, endHash);
      if !ok || writes == 0 {
        return Refused;
      }
      headerFiles := headerFiles[fileStart := Range(headers, fileStart, fileEnd + 1)];
      if writes == 1 {
        return HeadersOnly;
      }
      assert forall h :: fileStart <= h < fileEnd + 1 ==> h in headers.Keys;
      filterHeaderFiles := filterHeaderFiles[fileStart := Range(filterHeaders, fileStart, fileEnd + 1)];
      outcome := Sealed;
    }
  }

  /** The other direction: the backend's own chain always checks out. */
  lemma RightHeadersPass(H: Hasher, b: Blocks, headers: map<int, Header>, fileStart: nat, fileEnd: nat, end: Hash)
    requires fileStart <= fileEnd && Honest(H, b, Chain(b, end, fileEnd + 1 - fileStart))
    requires Covers(headers, fileStart, fileEnd + 1)
    requires HeadersOf(b, end, Range(headers, fileStart, fileEnd + 1))
    ensures ChecksOut(H, headers, fileStart, fileEnd, Some(end))
  {
    var n := fileEnd + 1 - fileStart;
    ChainLinked(H, b, end, n);
    assert headers[fileEnd] == Range(headers, fileStart, fileEnd + 1)[n - 1];
  }
}
