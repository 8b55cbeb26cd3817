/**
 * The other direction of the checker, and both together: files and answers that are the
 * backend's byte for byte are never listed. What "the backend's" means is said on the
 * bytes of each file, without the checks.
 */
module VerifyComplete {
  import opened Basics
  import opened Wire
  import opened FilterChain
  import opened Verify
  import opened VerifySound
  import FilterFile

  // ---------- the right bytes ----------

  /** Record `i` of a header file that starts at a height. */
  predicate RightHeader(v: Setup, start: nat, data: Bytes, i: nat)
    requires start + i <= v.backend.height && 80 * i + 80 <= |data|
  {
    data[80 * i..80 * i + 80] == v.backend.b.header(Best(v.backend)[start + i])
  }

  ghost predicate HoldsHeaders(v: Setup, start: nat, data: Option<Bytes>)
    requires start + v.headersPerFile <= v.backend.height + 1
  {
    && data.Some? && |data.value| == 80 * v.headersPerFile
    && forall i: nat :: i < v.headersPerFile ==> RightHeader(v, start, data.value, i)
  }

  /** The entry for a height in bytes that start with the entry for `start`. */
  predicate RightFilterHeader(v: Setup, start: nat, data: Option<Bytes>, height: nat)
    requires start <= height <= v.backend.height
  {
    && data.Some? && 32 * (height - start) + 32 <= |data.value|
    && data.value[32 * (height - start)..32 * (height - start) + 32] == AuthAt(v, height)
  }

  ghost predicate HoldsFilterHeaders(v: Setup, start: nat, data: Option<Bytes>)
    requires start + v.headersPerFile <= v.backend.height + 1
  {
    && data.Some? && |data.value| == 32 * v.headersPerFile
    && forall h: nat :: start <= h < start + v.headersPerFile ==> RightFilterHeader(v, start, data, h)
  }

  predicate HoldsFilters(v: Setup, start: nat, data: Option<Bytes>)
    requires start + v.filtersPerFile <= v.backend.height + 1
  {
    && data == Some(FilterFile.Serialize(BackendFilters(v, start)))
    && FilterFile.Fit(BackendFilters(v, start), MAX_BLOCK_PAYLOAD)
  }

  /** The height is in a sealed file, or the server always answers it right. */
  ghost predicate RightAnchor(v: Setup, height: nat)
    requires v.headersPerFile > 0 && height <= v.backend.height
  {
    var span := height - height % v.headersPerFile;
    span in v.disk.filterHeaders
    || (span >= 0 && forall now: nat :: RightFilterHeader(v, span, v.memory(now, span), height))
  }

  /** The backend's headers are its own, and its chain begins with the genesis block. */
  ghost predicate SoundBackend(v: Setup) {
    Honest(v.H, v.backend.b, Best(v.backend)) && Best(v.backend)[0] == v.genesis
  }

  ghost predicate RightHeaderFile(v: Setup, start: nat)
    requires ValidSetup(v) && start in v.disk.headers
  {
    var end := start + v.headersPerFile - 1;
    && end <= v.backend.height && v.backend.namesBlock(end) && v.backend.hasFilter(end)
    && HoldsHeaders(v, start, v.disk.headers[start]) && start in v.disk.filterHeaders
  }

  ghost predicate RightFilterHeaderFile(v: Setup, start: nat)
    requires ValidSetup(v) && start in v.disk.filterHeaders
  {
    start + v.headersPerFile <= v.backend.height + 1 && HoldsFilterHeaders(v, start, v.disk.filterHeaders[start])
  }

  ghost predicate RightFilterFile(v: Setup, start: nat)
    requires ValidSetup(v) && start in v.disk.filters
  {
    && start + v.filtersPerFile <= v.backend.height + 1 && HoldsFilters(v, start, v.disk.filters[start])
    && RightAnchor(v, start + v.filtersPerFile - 1) && (start > 0 ==> RightAnchor(v, start - 1))
  }

  /** All files are the backend's, and the backend answers about their ends. */
  ghost predicate RightDisk(v: Setup)
    requires ValidSetup(v)
  {
    && (forall s: nat :: s % v.headersPerFile == 0 && s in v.disk.headers ==> RightHeaderFile(v, s))
    && (forall s: nat :: s % v.headersPerFile == 0 && s in v.disk.filterHeaders ==> RightFilterHeaderFile(v, s))
    && (forall s: nat :: s % v.filtersPerFile == 0 && s in v.disk.filters ==> RightFilterFile(v, s))
  }

  /** Record `i` of the unsealed headers names the block before it. */
  predicate TailLink(v: Setup, start: nat, data: Bytes, i: nat)
    requires start <= v.backend.height + 1 && 80 * i + 80 <= |data|
  {
    if i > 0 then data[80 * i + 4..80 * i + 36] == v.H(data[80 * i - 80..80 * i])
    else if start > 0 then data[4..36] == Best(v.backend)[start - 1]
    else v.H(data[..80]) == v.genesis
  }

  /** `n` unsealed headers that are one chain, the backend's up to the highest reorg-safe one. */
  ghost predicate RightTailHeaders(v: Setup, start: nat, data: Bytes, n: nat)
    requires start <= v.backend.height + 1
  {
    && n > 0 && |data| == 80 * n
    && (forall i: nat :: i < n ==> TailLink(v, start, data, i))
    && (n > v.safeDepth ==> var top := n - 1 - v.safeDepth;
                            && start + top <= v.backend.height && v.backend.namesBlock(start + top)
                            && RightHeader(v, start, data, top))
  }

  predicate RightTailFilterHeaders(v: Setup, start: nat, data: Bytes, n: nat) {
    && n > 0 && |data| == 32 * n
    && (n > v.safeDepth ==> var height := start + n - 1 - v.safeDepth;
                            && height <= v.backend.height
                            && v.backend.namesBlock(height) && v.backend.hasFilter(height)
                            && RightFilterHeader(v, start, Some(data), height))
  }

  ghost predicate RightTail(v: Setup, start: nat, tail: Tail) {
    && start <= v.backend.height + 1 && tail.headers.Some? && tail.filterHeaders.Some?
    && (exists n: nat :: RightTailHeaders(v, start, tail.headers.value, n))
    && (exists n: nat :: RightTailFilterHeaders(v, start, tail.filterHeaders.value, n))
  }

  /** The first height without a sealed header file. */
  ghost predicate SealedUpTo(v: Setup, end: nat)
    requires ValidSetup(v)
  {
    && end % v.headersPerFile == 0 && end !in v.disk.headers
    && forall s: nat :: s < end && s % v.headersPerFile == 0 ==> s in v.disk.headers
  }

  /** Nothing is wrong anywhere. */
  ghost predicate AllRight(v: Setup, tail: Tail)
    requires ValidSetup(v)
  {
    && SoundBackend(v) && RightDisk(v)
    && forall end: nat :: SealedUpTo(v, end) ==> RightTail(v, end, tail)
  }

  // ---------- headers ----------

  lemma {:induction false} ChainParents(b: Blocks, tip: Hash, n: nat, i: nat)
    requires 0 < i < n
    ensures PrevBlock(b.header(Chain(b, tip, n)[i])) == Chain(b, tip, n)[i - 1]
    decreases n
  {
    var p := PrevBlock(b.header(tip));
    assert Chain(b, tip, n)[..n - 1] == Chain(b, p, n - 1);
    if i < n - 1 {
      ChainParents(b, p, n - 1, i);
    }
  }

  /** The header of the best chain at a height has the hash of that height, and names the one below. */
  lemma BestAt(v: Setup, height: nat)
    requires SoundBackend(v) && height <= v.backend.height
    ensures var header := v.backend.b.header(Best(v.backend)[height]);
            && v.H(header) == Best(v.backend)[height]
            && (height > 0 ==> PrevBlock(header) == Best(v.backend)[height - 1])
  {
    assert Hashes(v.H, v.backend.b, Best(v.backend)[height]) by {
      assert Best(v.backend)[height] in Best(v.backend);
    }
    if height > 0 {
      ChainParents(v.backend.b, v.backend.tip, v.backend.height + 1, height);
    }
  }

  /** Right records are linked, and the last one has the hash of its height. */
  lemma RightHeadersLink(v: Setup, start: nat, running: Hash, data: Option<Bytes>)
    requires ValidSetup(v) && SoundBackend(v)
    requires start + v.headersPerFile <= v.backend.height + 1 && HoldsHeaders(v, start, data)
    requires start > 0 ==> running == Best(v.backend)[start - 1]
    ensures var hs := HeaderRecords(data.value, v.headersPerFile);
            && (forall i: nat :: i < |hs| ==> LinksAt(v, start, running, hs, i))
            && v.H(hs[|hs| - 1]) == Best(v.backend)[start + v.headersPerFile - 1]
  {
    var n := v.headersPerFile;
    var hs := HeaderRecords(data.value, n);
    forall i: nat | i < n
      ensures LinksAt(v, start, running, hs, i) && v.H(hs[i]) == Best(v.backend)[start + i]
    {
      assert RightHeader(v, start, data.value, i);
      BestAt(v, start + i);
      if i > 0 {
        assert RightHeader(v, start, data.value, i - 1);
        BestAt(v, start + i - 1);
      }
    }
  }

  /** The converse of HeaderFileCollision: the backend's headers are not reported. */
  lemma RightHeadersPass(v: Setup, start: nat, running: Hash, data: Option<Bytes>)
    requires ValidSetup(v) && SoundBackend(v)
    requires start + v.headersPerFile <= v.backend.height + 1
    requires v.backend.namesBlock(start + v.headersPerFile - 1)
    requires start > 0 ==> running == Best(v.backend)[start - 1]
    requires HoldsHeaders(v, start, data)
    ensures HeadersOk(v, start, running, data)
    ensures RunningAfter(v, start, running, data) == Best(v.backend)[start + v.headersPerFile - 1]
  {
    RightHeadersLink(v, start, running, data);
  }

  /** The walk carries the backend's hash into every file. */
  lemma {:induction false} RunningOnBest(v: Setup, s: int)
    requires ValidSetup(v) && SoundBackend(v) && RightDisk(v)
    requires s > 0 && Reached(v.disk.headers, v.headersPerFile, s)
    ensures s <= v.backend.height + 1 && RunningBefore(v, s) == Best(v.backend)[s - 1]
    decreases s
  {
    var before := s - v.headersPerFile;
    ReachedBounds(v.disk.headers, v.headersPerFile, before);
    assert RightHeaderFile(v, before);
    if before > 0 {
      RunningOnBest(v, before);
    }
    RightHeadersPass(v, before, RunningBefore(v, before), v.disk.headers[before]);
  }

  /** A filter-header file passes exactly if it has its size and its last entry is the backend's. */
  lemma FilterHeadersExactly(v: Setup, start: nat, data: Option<Bytes>)
    requires ValidSetup(v)
    ensures var end := start + v.headersPerFile - 1;
            FilterHeadersOk(v, start, data) <==>
            && data.Some? && |data.value| == 32 * v.headersPerFile && end <= v.backend.height
            && v.backend.namesBlock(end) && v.backend.hasFilter(end) && RightFilterHeader(v, start, data, end)
  {
    if data.Some? && |data.value| == 32 * v.headersPerFile {
      assert data.value[32 * v.headersPerFile - 32..32 * v.headersPerFile] == data.value[|data.value| - 32..];
    }
  }

  lemma RightFilterHeadersPass(v: Setup, start: nat, data: Option<Bytes>)
    requires ValidSetup(v) && start + v.headersPerFile <= v.backend.height + 1
    requires v.backend.namesBlock(start + v.headersPerFile - 1) && v.backend.hasFilter(start + v.headersPerFile - 1)
    requires HoldsFilterHeaders(v, start, data)
    ensures FilterHeadersOk(v, start, data)
  {
    assert RightFilterHeader(v, start, data, start + v.headersPerFile - 1);
    FilterHeadersExactly(v, start, data);
  }

  /** No header or filter header file is reported. */
  lemma RightSpanPasses(v: Setup, bad: seq<FileId>, s: int)
    requires ValidSetup(v) && SoundBackend(v) && RightDisk(v)
    requires HeaderVisited(v, s) && HeaderVerdicts(v, bad, s)
    ensures HeaderFile(s) !in bad && FilterHeaderFile(s) !in bad
  {
    ReachedBounds(v.disk.headers, v.headersPerFile, s);
    assert RightHeaderFile(v, s) && RightFilterHeaderFile(v, s);
    if s > 0 {
      RunningOnBest(v, s);
    }
    RightHeadersPass(v, s, RunningBefore(v, s), v.disk.headers[s]);
    RightFilterHeadersPass(v, s, v.disk.filterHeaders[s]);
  }

  // ---------- filters ----------

  lemma RightSealedAnchor(v: Setup, height: nat)
    requires ValidSetup(v) && RightDisk(v) && height <= v.backend.height
    requires FileStart(v, height) in v.disk.filterHeaders
    ensures StoredAt(v, height) == Some(AuthAt(v, height))
  {
    var span := height - height % v.headersPerFile;
    FileStartBelow(v, height);
    DivMod(span, v.headersPerFile, height / v.headersPerFile, 0);
    assert RightFilterHeaderFile(v, span);
    assert RightFilterHeader(v, span, v.disk.filterHeaders[span], height);
  }

  lemma RightServerAnchor(v: Setup, now: nat, height: nat)
    requires ValidSetup(v) && height <= v.backend.height && RightAnchor(v, height)
    requires FileStart(v, height) !in v.disk.filterHeaders
    ensures FromServer(v, now, height) == Some(AuthAt(v, height))
  {
    var span := height - height % v.headersPerFile;
    assert RightFilterHeader(v, span, v.memory(now, span), height);
  }

  /** However a stored filter header is found, it is the backend's. */
  lemma RightStored(v: Setup, height: nat, from: nat, stored: Option<Hash>)
    requires ValidSetup(v) && RightDisk(v) && height <= v.backend.height
    requires RightAnchor(v, height) && Stored(v, height, from, stored)
    ensures stored == Some(AuthAt(v, height))
  {
    if FileStart(v, height) in v.disk.filterHeaders {
      RightSealedAnchor(v, height);
    } else {
      var now: nat :| (stored.None? ==> from <= now) && stored == FromServer(v, now, height);
      RightServerAnchor(v, now, height);
    }
  }

  /** What filters are checked between, if both stored headers are right. */
  lemma RightEnds(v: Setup, start: nat, from: nat, fs: seq<Blob>, good: bool)
    requires ValidSetup(v) && RightDisk(v) && start + v.filtersPerFile <= v.backend.height + 1
    requires RightAnchor(v, start + v.filtersPerFile - 1) && (start > 0 ==> RightAnchor(v, start - 1))
    requires Closure(v, start, from, fs, good)
    ensures good <==> Fold(v.H, AuthBefore(v, start), fs) == AuthAt(v, start + v.filtersPerFile - 1)
  {
    var last := start + v.filtersPerFile - 1;
    var before: Option<Hash>, end: Option<Hash> :| ClosesBetween(v, start, from, fs, good, before, end);
    if start > 0 {
      RightStored(v, start - 1, from, before);
    }
    assert before == Some(AuthBefore(v, start));
    RightStored(v, last, from, end);
  }

  /** The backend's filters between right stored headers are not reported. */
  lemma RightFiltersClose(v: Setup, start: nat, from: nat, good: bool)
    requires ValidSetup(v) && RightDisk(v) && start in v.disk.filters && RightFilterFile(v, start)
    requires FileVerdict(v, start, from, good)
    ensures good
  {
    var fs := BackendFilters(v, start);
    RightFilesParse(v, start, v.disk.filters[start]);
    RightEnds(v, start, from, fs, good);
    BackendCloses(v, start);
  }

  lemma RightFilesParse(v: Setup, start: nat, data: Option<Bytes>)
    requires start + v.filtersPerFile <= v.backend.height + 1 && HoldsFilters(v, start, data)
    ensures FiltersOf(v, data) == Some(BackendFilters(v, start))
  {
    FilterFile.ParseExactlyAccepts(data.value, v.filtersPerFile, BackendFilters(v, start));
  }

  // ---------- the unsealed range ----------

  lemma Count(data: Bytes, size: nat, n: nat)
    requires size > 0 && n > 0 && |data| == size * n
    ensures RecordCount(Some(data), size) == Some(n)
  {
    DivMod(|data|, size, n, 0);
    MulBound(n, size);
  }

  lemma RightTailPasses(v: Setup, start: nat, running: Hash, tail: Tail)
    requires ValidSetup(v) && SoundBackend(v) && RightTail(v, start, tail)
    requires start > 0 ==> running == Best(v.backend)[start - 1]
    ensures TailVerdicts(v, start, running, tail) == ([], true)
  {
    var data, entries := tail.headers.value, tail.filterHeaders.value;
    var n: nat :| RightTailHeaders(v, start, data, n);
    var m: nat :| RightTailFilterHeaders(v, start, entries, m);
    RightTailLinks(v, start, running, data, n);
    TailFilterHeadersExactly(v, start, entries, m);
    Count(data, 80, n);
    Count(entries, 32, m);
    NoVerdicts(v, start, running, tail, n, m);
  }

  lemma NoVerdicts(v: Setup, start: nat, running: Hash, tail: Tail, n: nat, m: nat)
    requires RecordCount(tail.headers, 80) == Some(n) && RecordCount(tail.filterHeaders, 32) == Some(m)
    requires |tail.headers.value| == n * HEADER_SIZE && |tail.filterHeaders.value| == m * HASH_SIZE
    requires TailHeadersOk(v, start, running, HeaderRecords(tail.headers.value, n))
    requires TailFilterHeadersOk(v, start, tail.filterHeaders.value, m)
    ensures TailVerdicts(v, start, running, tail) == ([], true)
  {
    var none: seq<FileId> := [];
    assert none + none == none;
  }

  lemma SliceWithin<T>(s: seq<T>, at: nat, n: nat, i: nat, j: nat)
    requires at + n <= |s| && i <= j <= n
    ensures s[at..at + n][i..j] == s[at + i..at + j]
  {
    var inner := s[at..at + n];
    forall k | 0 <= k < j - i ensures inner[i..j][k] == s[at + i..at + j][k] {
      assert inner[i + k] == s[at + (i + k)];
    }
  }

  lemma RecordField(data: Bytes, i: nat, n: nat)
    requires i < n && |data| == 80 * n
    ensures PrevBlock(data[80 * i..80 * i + 80]) == data[80 * i + 4..80 * i + 36]
  {
    SliceWithin(data, 80 * i, 80, 4, 36);
  }

  lemma RightTailLinks(v: Setup, start: nat, running: Hash, data: Bytes, n: nat)
    requires SoundBackend(v) && start <= v.backend.height + 1 && RightTailHeaders(v, start, data, n)
    requires start > 0 ==> running == Best(v.backend)[start - 1]
    ensures TailHeadersOk(v, start, running, HeaderRecords(data, n))
  {
    var hs := HeaderRecords(data, n);
    forall i: nat | i < n ensures LinksAt(v, start, running, hs, i) {
      assert TailLink(v, start, data, i);
      RecordField(data, i, n);
    }
    if n > v.safeDepth {
      BestAt(v, start + n - 1 - v.safeDepth);
    }
  }

  /** The unsealed filter headers pass exactly if the highest reorg-safe one is the backend's. */
  lemma TailFilterHeadersExactly(v: Setup, start: nat, data: Bytes, n: nat)
    requires |data| == 32 * n && n > 0
    ensures TailFilterHeadersOk(v, start, data, n) <==> RightTailFilterHeaders(v, start, data, n)
  {
  }

  /** The server's answers can be read exactly if both hold whole records. */
  lemma TailReadable(v: Setup, start: nat, running: Hash, tail: Tail)
    ensures TailVerdicts(v, start, running, tail).1 <==>
            && tail.headers.Some? && |tail.headers.value| > 0 && |tail.headers.value| % 80 == 0
            && tail.filterHeaders.Some? && |tail.filterHeaders.value| > 0 && |tail.filterHeaders.value| % 32 == 0
  {
  }

  /** Read from whole records, exactly the kind that fails its check is listed. */
  lemma TailListed(v: Setup, start: nat, running: Hash, headers: Bytes, n: nat, filterHeaders: Bytes, m: nat)
    requires |headers| == 80 * n && n > 0 && |filterHeaders| == 32 * m && m > 0
    ensures var listed := TailVerdicts(v, start, running, Tail(Some(headers), Some(filterHeaders))).0;
            && (MemoryHeaders(start) in listed <==> !TailHeadersOk(v, start, running, HeaderRecords(headers, n)))
            && (MemoryFilterHeaders(start) in listed <==> !RightTailFilterHeaders(v, start, filterHeaders, m))
  {
    Count(headers, 80, n);
    Count(filterHeaders, 32, m);
    TailFilterHeadersExactly(v, start, filterHeaders, m);
  }

  // ---------- a whole run ----------

  /** What the method Run promises about its list. */
  ghost predicate Ran(v: Setup, tail: Tail, bad: seq<FileId>, ok: bool, end: nat)
    requires ValidSetup(v)
  {
    && NothingElse(v, bad) && TailReported(v, bad, end, tail)
    && (forall s :: HeaderVisited(v, s) ==> HeaderVerdicts(v, bad, s))
    && (ok ==> forall s :: FilterVisited(v, s) ==> FilterReport(v, bad, 0, s))
    && Reached(v.disk.headers, v.headersPerFile, end) && end !in v.disk.headers
    && ok == TailVerdicts(v, end, RunningBefore(v, end), tail).1
  }

  /** With everything right, the run gets through and lists nothing. */
  lemma NothingIsListed(v: Setup, tail: Tail, bad: seq<FileId>, ok: bool, end: nat)
    requires ValidSetup(v) && AllRight(v, tail) && Ran(v, tail, bad, ok, end)
    ensures ok && bad == []
  {
    RightEnd(v, tail, end);
    if bad != [] {
      var id := bad[0];
      assert id in bad;
      match id
      case HeaderFile(s) => RightSpanPasses(v, bad, s);
      case FilterHeaderFile(s) => RightSpanPasses(v, bad, s);
      case FilterFile(s) => RightFilterPasses(v, bad, s);
      case _ =>
    }
  }

  /** The tail begins where the walk ends. */
  lemma RightEnd(v: Setup, tail: Tail, end: nat)
    requires ValidSetup(v) && AllRight(v, tail)
    requires Reached(v.disk.headers, v.headersPerFile, end) && end !in v.disk.headers
    ensures TailVerdicts(v, end, RunningBefore(v, end), tail) == ([], true)
  {
    ReachedBounds(v.disk.headers, v.headersPerFile, end);
    forall s: nat | s < end && s % v.headersPerFile == 0 ensures s in v.disk.headers {
      ReachedBefore(v.disk.headers, v.headersPerFile, end, s);
    }
    assert SealedUpTo(v, end);
    if end > 0 {
      RunningOnBest(v, end);
    }
    RightTailPasses(v, end, RunningBefore(v, end), tail);
  }

  lemma RightFilterPasses(v: Setup, bad: seq<FileId>, s: int)
    requires ValidSetup(v) && RightDisk(v) && FilterVisited(v, s) && FilterReport(v, bad, 0, s)
    ensures FilterFile(s) !in bad
  {
    ReachedBounds(v.disk.filters, v.filtersPerFile, s);
    assert RightFilterFile(v, s);
    var good := FilterFile(s) !in bad;
    assert FileVerdict(v, s, 0, good);
    RightFiltersClose(v, s, 0, good);
  }

  /**
   * A run that gets through establishes what the soundness results assume, and where
   * everything is right, it gets through and lists nothing.
   */
  method RunChecker(v: Setup, tail: Tail) returns (bad: seq<FileId>, ok: bool)
    requires ValidSetup(v)
    ensures ok ==> RunLists(v, bad)
    ensures AllRight(v, tail) ==> ok && bad == []
  {
    var checker := new Verifier(v);
    ghost var end;
    ok, end := checker.Run(tail);
    bad := checker.badFiles;
    if AllRight(v, tail) {
      NothingIsListed(v, tail, bad, ok, end);
    }
  }
}
