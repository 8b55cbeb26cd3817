/**
 * What a run of the checker without a bad file proves: the sealed block headers are the
 * backend's, and so are all filters of a header span and the filter headers stored at
 * their file ends, although only the last filter header of the span was compared. Each
 * claim either holds or hands back a hash collision.
 */
module VerifySound {
  import opened Basics
  import opened Wire
  import opened FilterChain
  import opened Verify

  // ---------- stretches of the best chain ----------

  lemma {:induction false} ChainSuffix(b: Blocks, tip: Hash, n: nat, k: nat)
    requires k <= n
    ensures Chain(b, tip, k) == Chain(b, tip, n)[n - k..]
    decreases k
  {
    if k > 0 {
      var p := PrevBlock(b.header(tip));
      ChainSuffix(b, p, n - 1, k - 1);
      assert Chain(b, tip, n) == Chain(b, p, n - 1) + [tip];
    }
  }

  /** The backend's chain below a height is the ancestry of its block at that height. */
  lemma BestSlice(k: Backend, height: nat, n: nat)
    requires height <= k.height && n <= height + 1
    ensures Chain(k.b, Best(k)[height], n) == Best(k)[height + 1 - n..height + 1]
  {
    var tip := Best(k)[height];
    ChainPrefix(k.b, k.tip, k.height + 1, height);
    ChainSuffix(k.b, tip, height + 1, n);
    PrefixSlice(Best(k), height + 1 - n, height + 1);
  }

  lemma PrefixSlice<T>(s: seq<T>, from: nat, to: nat)
    requires from <= to <= |s|
    ensures s[..to][from..] == s[from..to]
  {
  }

  /** The reported header the filters from `start` on chain to. */
  function AuthBefore(v: Setup, start: nat): Hash
    requires start <= v.backend.height + 1
  {
    if start == 0 then ZERO_HASH else AuthAt(v, start - 1)
  }

  function BackendFilters(v: Setup, start: nat): (fs: seq<Bytes>)
    requires start + v.filtersPerFile <= v.backend.height + 1
    ensures |fs| == v.filtersPerFile
  {
    Filters(v.backend.b, Best(v.backend)[start..start + v.filtersPerFile])
  }

  /** The backend's own filters close between its own filter headers. */
  lemma BackendCloses(v: Setup, start: nat)
    requires v.filtersPerFile > 0 && start + v.filtersPerFile <= v.backend.height + 1
    ensures AuthAt(v, start + v.filtersPerFile - 1) == Fold(v.H, AuthBefore(v, start), BackendFilters(v, start))
  {
    var k, end := v.backend, start + v.filtersPerFile - 1;
    BestSlice(k, end, end + 1);
    var c := Chain(k.b, Best(k)[end], end + 1);
    assert c == Best(k)[..end + 1];
    assert c[start..] == Best(k)[start..end + 1];
    if start > 0 {
      AuthFilterHeaderExtends(v.H, k.b, Best(k)[end], end, start - 1);
    } else {
      assert c[0..] == c;
    }
  }

  // ---------- sealed block headers ----------

  /** A header file that passes holds the backend's headers, or this is a collision. */
  function HeaderFileCollision(v: Setup, start: nat, running: Hash, data: Option<Bytes>): (c: Option<Pair>)
    requires ValidSetup(v) && Honest(v.H, v.backend.b, Best(v.backend)) && HeadersOk(v, start, running, data)
    ensures start + v.headersPerFile <= v.backend.height + 1
    ensures c.None? <==>
            HeaderRecords(data.value, v.headersPerFile)
            == Headers(v.backend.b, Best(v.backend)[start..start + v.headersPerFile])
    ensures c.Some? ==> Collides(v.H, c.value)
  {
    var k, n, hs := v.backend, v.headersPerFile, HeaderRecords(data.value, v.headersPerFile);
    var end := Best(k)[start + n - 1];
    assert Linked(v.H, hs) by {
      forall i: nat | 0 < i < |hs| ensures LinkAt(v.H, hs, i) {
        assert LinksAt(v, start, running, hs, i);
      }
    }
    BestSlice(k, start + n - 1, n);
    assert Honest(v.H, k.b, Best(k)[start..start + n]);
    ChainLinked(v.H, k.b, end, n);
    HeaderCollision(v.H, hs, Headers(k.b, Chain(k.b, end, n)))
  }

  /** The unsealed headers that pass are the backend's up to their anchor, or this is a collision. */
  function TailHeadersCollision(v: Setup, start: nat, running: Hash, hs: seq<Header>): (c: Option<Pair>)
    requires ValidSetup(v) && Honest(v.H, v.backend.b, Best(v.backend)) && TailHeadersOk(v, start, running, hs)
    requires |hs| > v.safeDepth
    ensures start + |hs| - v.safeDepth <= v.backend.height + 1
    ensures c.None? <==>
            hs[..|hs| - v.safeDepth] == Headers(v.backend.b, Best(v.backend)[start..start + |hs| - v.safeDepth])
    ensures c.Some? ==> Collides(v.H, c.value)
  {
    var k, n := v.backend, |hs| - v.safeDepth;
    var end := Best(k)[start + n - 1];
    assert Linked(v.H, hs) by {
      forall i: nat | 0 < i < |hs| ensures LinkAt(v.H, hs, i) {
        assert LinksAt(v, start, running, hs, i);
      }
    }
    LinkedPrefix(v.H, hs, n);
    BestSlice(k, start + n - 1, n);
    assert Honest(v.H, k.b, Best(k)[start..start + n]);
    ChainLinked(v.H, k.b, end, n);
    HeaderCollision(v.H, hs[..n], Headers(k.b, Chain(k.b, end, n)))
  }

  // ---------- one filter file ----------

  /** A filter file is the backend's, and so are the stored headers on both of its ends. */
  predicate FileRight(v: Setup, start: nat)
    requires v.headersPerFile > 0 && v.filtersPerFile > 0
    requires start + v.filtersPerFile <= v.backend.height + 1 && start in v.disk.filters
  {
    var fs := FiltersOf(v, v.disk.filters[start]);
    && fs.Some? && fs.value == BackendFilters(v, start)
    && StoredBefore(v, start) == Some(AuthBefore(v, start))
    && StoredAt(v, start + v.filtersPerFile - 1) == Some(AuthAt(v, start + v.filtersPerFile - 1))
  }

  lemma {:induction false} ParsedLength(r: Bytes, n: nat)
    requires FilterFile.ParseExactly(r, n).Some?
    ensures |FilterFile.ParseExactly(r, n).value| == n
  {
    FilterFile.ParseExactlyAccepts(r, n, FilterFile.ParseExactly(r, n).value);
  }

  /** One step back: a closing file with a right end is right throughout. */
  lemma OneFileBack(v: Setup, start: nat) returns (c: Option<Pair>)
    requires ValidSetup(v) && start + v.filtersPerFile <= v.backend.height + 1
    requires start in v.disk.filters && FiltersOk(v, start, v.disk.filters[start])
    requires StoredAt(v, start + v.filtersPerFile - 1) == Some(AuthAt(v, start + v.filtersPerFile - 1))
    ensures c.None? <==> FileRight(v, start)
    ensures c.Some? ==> Collides(v.H, c.value)
  {
    var fs, before := ClosesLikeBackend(v, start);
    c := FoldCollision(v.H, before, fs, AuthBefore(v, start), BackendFilters(v, start));
    WhatIsRight(v, start, fs, before);
  }

  /** The file's filters and the backend's close on the same header. */
  lemma ClosesLikeBackend(v: Setup, start: nat) returns (fs: seq<Blob>, before: Hash)
    requires ValidSetup(v) && start + v.filtersPerFile <= v.backend.height + 1
    requires start in v.disk.filters && FiltersOk(v, start, v.disk.filters[start])
    requires StoredAt(v, start + v.filtersPerFile - 1) == Some(AuthAt(v, start + v.filtersPerFile - 1))
    ensures FiltersOf(v, v.disk.filters[start]) == Some(fs) && |fs| == v.filtersPerFile
    ensures StoredBefore(v, start) == Some(before)
    ensures Fold(v.H, before, fs) == Fold(v.H, AuthBefore(v, start), BackendFilters(v, start))
  {
    fs, before := Parsed(v, start);
    BackendCloses(v, start);
  }

  /** What a passing file parses to, and what it chains from and to. */
  lemma Parsed(v: Setup, start: nat) returns (fs: seq<Blob>, before: Hash)
    requires ValidSetup(v) && start in v.disk.filters && FiltersOk(v, start, v.disk.filters[start])
    ensures FiltersOf(v, v.disk.filters[start]) == Some(fs) && |fs| == v.filtersPerFile
    ensures StoredBefore(v, start) == Some(before)
    ensures StoredAt(v, start + v.filtersPerFile - 1) == Some(Fold(v.H, before, fs))
  {
    fs, before := FiltersOf(v, v.disk.filters[start]).value, StoredBefore(v, start).value;
    ParsedLength(v.disk.filters[start].value, v.filtersPerFile);
  }

  lemma WhatIsRight(v: Setup, start: nat, fs: seq<Blob>, before: Hash)
    requires v.headersPerFile > 0 && v.filtersPerFile > 0
    requires start + v.filtersPerFile <= v.backend.height + 1 && start in v.disk.filters
    requires FiltersOf(v, v.disk.filters[start]) == Some(fs) && StoredBefore(v, start) == Some(before)
    requires StoredAt(v, start + v.filtersPerFile - 1) == Some(AuthAt(v, start + v.filtersPerFile - 1))
    ensures FileRight(v, start) <==> before == AuthBefore(v, start) && fs == BackendFilters(v, start)
  {
  }

  // ---------- a header span ----------

  predicate FilesOk(v: Setup, start: nat, n: nat)
    requires v.headersPerFile > 0 && v.filtersPerFile > 0
    decreases n
  {
    n == 0 || (start in v.disk.filters && FiltersOk(v, start, v.disk.filters[start])
               && FilesOk(v, start + v.filtersPerFile, n - 1))
  }

  /** A right file starts where the file before it has to end. */
  lemma RightBefore(v: Setup, start: nat)
    requires v.headersPerFile > 0 && v.filtersPerFile > 0 && start > 0
    requires start + v.filtersPerFile <= v.backend.height + 1 && start in v.disk.filters && FileRight(v, start)
    ensures StoredAt(v, start - 1) == Some(AuthAt(v, start - 1))
  {
  }

  /** Backwards from a right stored header at `top - 1`, over `later + 1` closing files. */
  lemma {:induction false} FilesBack(v: Setup, start: nat, later: nat, top: nat) returns (c: Option<Pair>)
    requires ValidSetup(v) && FilesOk(v, start, later + 1)
    requires top == start + v.filtersPerFile + Times(later, v.filtersPerFile) <= v.backend.height + 1
    requires StoredAt(v, top - 1) == Some(AuthAt(v, top - 1))
    ensures start in v.disk.filters && start + v.filtersPerFile <= v.backend.height + 1
    ensures c.None? ==> FileRight(v, start)
    ensures c.Some? ==> Collides(v.H, c.value)
    decreases later
  {
    if later > 0 {
      c := FilesBack(v, start + v.filtersPerFile, later - 1, top);
      if c.Some? {
        return;
      }
      RightBefore(v, start + v.filtersPerFile);
    }
    c := OneFileBack(v, start);
  }

  // ---------- a whole run ----------

  /** What a finished run that lists `bad` establishes. */
  ghost predicate RunLists(v: Setup, bad: seq<FileId>)
    requires v.headersPerFile > 0 && v.filtersPerFile > 0
  {
    && (forall s :: HeaderVisited(v, s) ==> HeaderVerdicts(v, bad, s))
    && (forall s :: FilterVisited(v, s) ==> FilterReport(v, bad, 0, s))
  }

  lemma FileStartOf(v: Setup, span: nat, height: nat)
    requires v.headersPerFile > 0 && span % v.headersPerFile == 0
    requires span <= height < span + v.headersPerFile
    ensures FileStart(v, height) == span
  {
    DivMod(height, v.headersPerFile, span / v.headersPerFile, height - span);
  }

  /** Every aligned start on the way of a walk was reached. */
  lemma {:induction false} ReachedBefore(dir: Dir, size: nat, end: int, start: int)
    requires size > 0 && Reached(dir, size, end) && 0 <= start < end && start % size == 0
    ensures Visited(dir, size, start)
    decreases end
  {
    ReachedBounds(dir, size, end - size);
    if start < end - size {
      ReachedBefore(dir, size, end - size, start);
    } else {
      AlignedGap(end - size, start, size);
    }
  }

  /** After a run without bad files, both anchors of a file in the span are sealed. */
  lemma AnchorsAreSealed(v: Setup, span: nat, start: nat)
    requires ValidSetup(v) && RunLists(v, []) && HeaderVisited(v, span)
    requires span <= start && start + v.filtersPerFile <= span + v.headersPerFile
    ensures AnchorsSealed(v, start)
  {
    var p := v.headersPerFile;
    ReachedBounds(v.disk.headers, p, span);
    assert HeaderVerdicts(v, [], span);
    FileStartOf(v, span, start + v.filtersPerFile - 1);
    if start > span {
      FileStartOf(v, span, start - 1);
    } else if start > 0 {
      assert HeaderVisited(v, span - p);
      assert HeaderVerdicts(v, [], span - p);
      ReachedBounds(v.disk.headers, p, span - p);
      FileStartOf(v, span - p, start - 1);
    }
  }

  /** Every aligned file of the span was visited and not reported. */
  lemma SpanFileOk(v: Setup, span: nat, start: nat)
    requires ValidSetup(v) && RunLists(v, []) && HeaderVisited(v, span)
    requires Reached(v.disk.filters, v.filtersPerFile, span + v.headersPerFile)
    requires span <= start && start + v.filtersPerFile <= span + v.headersPerFile && start % v.filtersPerFile == 0
    ensures start in v.disk.filters && FiltersOk(v, start, v.disk.filters[start])
  {
    ReachedBefore(v.disk.filters, v.filtersPerFile, span + v.headersPerFile, start);
    AnchorsAreSealed(v, span, start);
    assert FilterVisited(v, start) && FilterReport(v, [], 0, start);
    SealedVerdict(v, start, 0, true);
  }

  lemma {:induction false} SpanFilesOk(v: Setup, span: nat, start: nat, n: nat)
    requires ValidSetup(v) && RunLists(v, []) && HeaderVisited(v, span)
    requires Reached(v.disk.filters, v.filtersPerFile, span + v.headersPerFile)
    requires span <= start && start % v.filtersPerFile == 0
    requires start + Times(n, v.filtersPerFile) == span + v.headersPerFile
    ensures FilesOk(v, start, n)
    decreases n
  {
    if n > 0 {
      SpanFileOk(v, span, start);
      ModStep(start, v.filtersPerFile);
      SpanFilesOk(v, span, start + v.filtersPerFile, n - 1);
    }
  }

  lemma SpanAnchor(v: Setup, span: nat)
    requires ValidSetup(v) && RunLists(v, []) && HeaderVisited(v, span)
    ensures var end := span + v.headersPerFile - 1;
            end <= v.backend.height && StoredAt(v, end) == Some(AuthAt(v, end))
  {
    ReachedBounds(v.disk.headers, v.headersPerFile, span);
    assert HeaderVerdicts(v, [], span);
    FileStartOf(v, span, span + v.headersPerFile - 1);
    LastEntry(v.disk.filterHeaders[span].value, v.headersPerFile);
  }

  lemma LastEntry(data: Bytes, n: nat)
    requires n > 0 && |data| == n * HASH_SIZE
    ensures EntryOf(data, n - 1) == Some(data[|data| - HASH_SIZE..])
  {
    assert data[(n - 1) * HASH_SIZE..(n - 1) * HASH_SIZE + HASH_SIZE] == data[|data| - HASH_SIZE..];
  }

  /** How many files follow `start` in its span. */
  lemma FilesToSpanEnd(v: Setup, span: nat, start: nat) returns (later: nat)
    requires ValidSetup(v) && v.headersPerFile % v.filtersPerFile == 0 && span % v.headersPerFile == 0
    requires span <= start < span + v.headersPerFile && start % v.filtersPerFile == 0
    ensures start + v.filtersPerFile + Times(later, v.filtersPerFile) == span + v.headersPerFile
  {
    var f, p := v.filtersPerFile, v.headersPerFile;
    var end := span + p;
    ModStep(span, p);
    MultipleOfMultiple(end, p, f);
    var gap := end / f - start / f;
    assert gap * f == end - start;
    MulBound(gap, f);
    assert gap >= 1;
    later := gap - 1;
    TimesIsProduct(later, f);
    assert later * f == gap * f - f;
  }

  /** After a run that lists nothing, every visited header file is the backend's, or a collision. */
  lemma CleanHeadersAreTheBackends(v: Setup, span: nat) returns (c: Option<Pair>)
    requires ValidSetup(v) && Honest(v.H, v.backend.b, Best(v.backend)) && RunLists(v, []) && HeaderVisited(v, span)
    ensures v.disk.headers[span].Some? && |v.disk.headers[span].value| == v.headersPerFile * HEADER_SIZE
    ensures span + v.headersPerFile <= v.backend.height + 1
    ensures c.None? ==> HeaderRecords(v.disk.headers[span].value, v.headersPerFile)
                        == Headers(v.backend.b, Best(v.backend)[span..span + v.headersPerFile])
    ensures c.Some? ==> Collides(v.H, c.value)
  {
    assert HeaderVerdicts(v, [], span);
    c := HeaderFileCollision(v, span, RunningBefore(v, span), v.disk.headers[span]);
  }

  /**
   * After a run that lists nothing: in every visited header span whose filter files are
   * all there, each filter file is the backend's, and so is the stored filter header at
   * its end; otherwise a hash collision comes out.
   */
  lemma CleanSpanIsTheBackends(v: Setup, span: nat, start: nat) returns (c: Option<Pair>)
    requires ValidSetup(v) && v.headersPerFile % v.filtersPerFile == 0
    requires RunLists(v, []) && HeaderVisited(v, span)
    requires Reached(v.disk.filters, v.filtersPerFile, span + v.headersPerFile)
    requires span <= start < span + v.headersPerFile && start % v.filtersPerFile == 0
    ensures start in v.disk.filters && start + v.filtersPerFile <= v.backend.height + 1
    ensures c.None? ==> FileRight(v, start)
    ensures c.Some? ==> Collides(v.H, c.value)
  {
    ReachedBounds(v.disk.headers, v.headersPerFile, span);
    var later := FilesToSpanEnd(v, span, start);
    SpanFilesOk(v, span, start, later + 1);
    SpanAnchor(v, span);
    c := FilesBack(v, start, later, span + v.headersPerFile);
  }
}
