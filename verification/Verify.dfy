/**
 * The offline checker, without its repair mode: it walks the sealed files of a disk that
 * does not change, against a backend that does not change, and lists the bad ones. The
 * filter headers below a file end are never compared with the backend. That the filters
 * are nevertheless the backend's follows backwards, from the anchored last header of a
 * span through the closures of its filter files.
 */
module Verify {
  import opened Basics
  import opened Wire
  import opened FilterChain
  import FilterFile

  // ---------- what is on disk and what the backend says ----------

  /** Files by the height they start at; an unreadable file is there, but holds None. */
  type Dir = map<int, Option<Bytes>>

  datatype Disk = Disk(headers: Dir, filterHeaders: Dir, filters: Dir)

  /** One best chain, and the heights at which the backend answers at all. */
  datatype Backend = Backend(b: Blocks, tip: Hash, height: nat, namesBlock: nat -> bool, hasFilter: nat -> bool)

  /**
   * `memory` is what the running server answers, at a moment, about the unsealed filter
   * headers from a span's start on.
   */
  datatype Setup = Setup(H: Hasher, backend: Backend, genesis: Hash, headersPerFile: nat, filtersPerFile: nat,
                         safeDepth: nat, disk: Disk, memory: (nat, int) -> Option<Bytes>)

  /** What the running server answers about the range that is not sealed yet. */
  datatype Tail = Tail(headers: Option<Bytes>, filterHeaders: Option<Bytes>)

  predicate ValidSetup(v: Setup) {
    v.headersPerFile > 0 && v.filtersPerFile > 0
  }

  function Best(k: Backend): seq<Hash> {
    Chain(k.b, k.tip, k.height + 1)
  }

  function BestHash(k: Backend, height: nat): Option<Hash> {
    if height <= k.height && k.namesBlock(height) then Some(Best(k)[height]) else None
  }

  /** The filter header of the best chain at a height. */
  function AuthAt(v: Setup, height: nat): Hash
    requires height <= v.backend.height
  {
    AuthFilterHeader(v.H, v.backend.b, Best(v.backend)[height], height)
  }

  function ReportedFilterHeader(v: Setup, height: nat): Option<Hash> {
    if BestHash(v.backend, height).Some? && v.backend.hasFilter(height) then Some(AuthAt(v, height)) else None
  }

  // ---------- the checks of one file ----------

  function HeaderRecords(data: Bytes, n: nat): (hs: seq<Header>)
    requires |data| == n * HEADER_SIZE
    ensures |hs| == n
  {
    seq<Header>(n, i requires 0 <= i < n => data[i * 80..i * 80 + 80])
  }

  /** Record `i` continues the chain: genesis, the previous file's last block, or record `i-1`. */
  predicate LinksAt(v: Setup, start: int, running: Hash, hs: seq<Header>, i: nat)
    requires i < |hs|
  {
    if i > 0 then LinkAt(v.H, hs, i)
    else if start == 0 then v.H(hs[0]) == v.genesis
    else PrevBlock(hs[0]) == running
  }

  predicate HeadersOk(v: Setup, start: int, running: Hash, data: Option<Bytes>)
    requires start >= 0 && v.headersPerFile > 0
  {
    && data.Some? && |data.value| == v.headersPerFile * HEADER_SIZE
    && var hs := HeaderRecords(data.value, v.headersPerFile);
       && (forall i: nat :: i < |hs| ==> LinksAt(v, start, running, hs, i))
       && BestHash(v.backend, start + v.headersPerFile - 1) == Some(v.H(hs[|hs| - 1]))
  }

  /** The last block hash after a file: a bad file does not move it. */
  function RunningAfter(v: Setup, start: int, running: Hash, data: Option<Bytes>): Hash
    requires start >= 0 && v.headersPerFile > 0
  {
    if HeadersOk(v, start, running, data)
    then v.H(HeaderRecords(data.value, v.headersPerFile)[v.headersPerFile - 1])
    else running
  }

  predicate FilterHeadersOk(v: Setup, start: int, data: Option<Bytes>)
    requires start >= 0 && v.headersPerFile > 0
  {
    && data.Some? && |data.value| == v.headersPerFile * HASH_SIZE
    && ReportedFilterHeader(v, start + v.headersPerFile - 1) == Some(data.value[|data.value| - HASH_SIZE..])
  }

  /** How many records an answer of the server holds, if it has a proper length. */
  function RecordCount(data: Option<Bytes>, size: nat): Option<nat>
    requires size > 0
  {
    if data.None? || |data.value| == 0 || |data.value| % size != 0 then None else Some(|data.value| / size)
  }

  /** The unsealed headers continue the chain; the highest reorg-safe one is anchored. */
  predicate TailHeadersOk(v: Setup, start: nat, running: Hash, hs: seq<Header>) {
    && (forall i: nat :: i < |hs| ==> LinksAt(v, start, running, hs, i))
    && var anchor := |hs| - 1 - v.safeDepth;
       anchor >= 0 ==> BestHash(v.backend, start + anchor) == Some(v.H(hs[anchor]))
  }

  /** The highest reorg-safe unsealed filter header is anchored. */
  predicate TailFilterHeadersOk(v: Setup, start: nat, data: Bytes, n: nat)
    requires |data| == n * HASH_SIZE
  {
    var anchor := n - 1 - v.safeDepth;
    anchor >= 0 ==> ReportedFilterHeader(v, start + anchor) == EntryOf(data, anchor)
  }

  /** What the tail adds to the list, and whether the server's answers allow to go on. */
  function TailVerdicts(v: Setup, start: nat, running: Hash, tail: Tail): (seq<FileId>, bool)
  {
    var n, m := RecordCount(tail.headers, HEADER_SIZE), RecordCount(tail.filterHeaders, HASH_SIZE);
    if n.None? then ([], false)
    else
      Counted(tail.headers.value, HEADER_SIZE);
      var first := if TailHeadersOk(v, start, running, HeaderRecords(tail.headers.value, n.value)) then []
                   else [MemoryHeaders(start)];
      if m.None? then (first, false)
      else
        Counted(tail.filterHeaders.value, HASH_SIZE);
        (first + if TailFilterHeadersOk(v, start, tail.filterHeaders.value, m.value) then []
                 else [MemoryFilterHeaders(start)], true)
  }

  lemma Counted(data: Bytes, size: nat)
    requires size > 0 && |data| % size == 0
    ensures |data| == (|data| / size) * size
  {
  }

  /** Where the file that holds a height starts. */
  function FileStart(v: Setup, height: int): int
    requires v.headersPerFile > 0
  {
    height - height % v.headersPerFile
  }

  /** Entry `offset` of a filter header file, if the file is that long. */
  function EntryOf(data: Bytes, offset: nat): Option<Hash> {
    if offset * HASH_SIZE + HASH_SIZE <= |data|
    then Some(data[offset * HASH_SIZE..offset * HASH_SIZE + HASH_SIZE])
    else None
  }

  /** The filter header stored on disk for a height. */
  function StoredAt(v: Setup, height: nat): Option<Hash>
    requires v.headersPerFile > 0
  {
    var f := FileStart(v, height);
    if f in v.disk.filterHeaders && v.disk.filterHeaders[f].Some?
    then EntryOf(v.disk.filterHeaders[f].value, height - f)
    else None
  }

  function StoredBefore(v: Setup, start: nat): Option<Hash>
    requires v.headersPerFile > 0
  {
    if start == 0 then Some(ZERO_HASH) else StoredAt(v, start - 1)
  }

  /** Both headers a filter file is checked against come from sealed files. */
  predicate AnchorsSealed(v: Setup, start: nat)
    requires v.headersPerFile > 0 && v.filtersPerFile > 0
  {
    && FileStart(v, start + v.filtersPerFile - 1) in v.disk.filterHeaders
    && (start > 0 ==> FileStart(v, start - 1) in v.disk.filterHeaders)
  }

  /** The server's filter header for a height at a moment. */
  function FromServer(v: Setup, now: nat, height: nat): Option<Hash>
    requires v.headersPerFile > 0
  {
    var f := FileStart(v, height);
    var body := v.memory(now, f);
    if body.None? || height < f then None else EntryOf(body.value, height - f)
  }

  /**
   * Where a stored filter header comes from: the sealed file, if there is one, or else the
   * server at some moment; that it has none it said no earlier than `from`.
   */
  ghost predicate Stored(v: Setup, height: nat, from: nat, stored: Option<Hash>)
    requires v.headersPerFile > 0
  {
    if FileStart(v, height) in v.disk.filterHeaders then stored == StoredAt(v, height)
    else exists now: nat :: (stored.None? ==> from <= now) && stored == FromServer(v, now, height)
  }

  /** The verdict on filters between the stored headers on both ends. */
  ghost predicate Closure(v: Setup, start: nat, from: nat, filters: seq<Blob>, ok: bool)
    requires v.headersPerFile > 0 && v.filtersPerFile > 0
  {
    exists before: Option<Hash>, end: Option<Hash> :: ClosesBetween(v, start, from, filters, ok, before, end)
  }

  ghost predicate ClosesBetween(v: Setup, start: nat, from: nat, filters: seq<Blob>, ok: bool,
                                before: Option<Hash>, end: Option<Hash>)
    requires v.headersPerFile > 0 && v.filtersPerFile > 0
  {
    && (if start == 0 then before == Some(ZERO_HASH) else Stored(v, start - 1, from, before))
    && (before.Some? ==> Stored(v, start + v.filtersPerFile - 1, from, end))
    && (ok <==> before.Some? && end.Some? && Fold(v.H, before.value, filters) == end.value)
  }

  /** The verdict on a filter file. */
  ghost predicate FileVerdict(v: Setup, start: nat, from: nat, good: bool)
    requires v.headersPerFile > 0 && v.filtersPerFile > 0 && start in v.disk.filters
  {
    var fs := FiltersOf(v, v.disk.filters[start]);
    if fs.None? then !good else Closure(v, start, from, fs.value, good)
  }

  function FiltersOf(v: Setup, data: Option<Bytes>): Option<seq<Blob>> {
    if data.None? then None else FilterFile.ParseExactly(data.value, v.filtersPerFile)
  }

  predicate Closes(v: Setup, start: nat, filters: seq<Blob>)
    requires v.headersPerFile > 0 && v.filtersPerFile > 0
  {
    var before, end := StoredBefore(v, start), StoredAt(v, start + v.filtersPerFile - 1);
    before.Some? && end.Some? && Fold(v.H, before.value, filters) == end.value
  }

  predicate FiltersOk(v: Setup, start: nat, data: Option<Bytes>)
    requires v.headersPerFile > 0 && v.filtersPerFile > 0
  {
    FiltersOf(v, data).Some? && Closes(v, start, FiltersOf(v, data).value)
  }

  // ---------- the walks ----------

  /** The walk over a directory reaches a start when no file before it is missing. */
  predicate Reached(dir: Dir, size: nat, start: int)
    requires size > 0
    decreases start
  {
    start == 0 || (start >= size && start - size in dir && Reached(dir, size, start - size))
  }

  predicate Visited(dir: Dir, size: nat, start: int)
    requires size > 0
  {
    start in dir && Reached(dir, size, start)
  }

  /** The block hash the header walk carries into a file. */
  function RunningBefore(v: Setup, start: int): Hash
    requires v.headersPerFile > 0
    decreases start
  {
    var before := start - v.headersPerFile;
    if before < 0 || before !in v.disk.headers then ZERO_HASH
    else RunningAfter(v, before, RunningBefore(v, before), v.disk.headers[before])
  }

  lemma {:induction false} ReachedBounds(dir: Dir, size: nat, start: int)
    requires size > 0 && Reached(dir, size, start)
    ensures start >= 0 && start % size == 0
    decreases start
  {
    if start != 0 {
      ReachedBounds(dir, size, start - size);
      ModStep(start - size, size);
    }
  }

  /** The walk order: every other reached start is behind or at least one file ahead. */
  lemma {:induction false} ReachedApart(dir: Dir, size: nat, s: int, t: int)
    requires size > 0 && Reached(dir, size, s) && Reached(dir, size, t) && s < t
    ensures Visited(dir, size, s) && s + size <= t
    decreases t
  {
    ReachedBounds(dir, size, s);
    if s < t - size {
      ReachedApart(dir, size, s, t - size);
    } else {
      ReachedBounds(dir, size, t - size);
      AlignedGap(t - size, s, size);
    }
  }

  datatype FileId =
    | HeaderFile(start: int) | FilterHeaderFile(start: int) | FilterFile(start: int)
    | MemoryHeaders(start: int) | MemoryFilterHeaders(start: int)

  /** Exactly the visited header files that fail their check are reported. */
  ghost predicate HeadersReported(v: Setup, bad: seq<FileId>, upTo: int)
    requires v.headersPerFile > 0
  {
    forall s :: HeaderVisited(v, s) && s < upTo ==> HeaderVerdicts(v, bad, s)
  }

  predicate HeaderVisited(v: Setup, s: int)
    requires v.headersPerFile > 0
  {
    0 <= s && Visited(v.disk.headers, v.headersPerFile, s)
  }

  predicate HeaderVerdicts(v: Setup, bad: seq<FileId>, s: int)
    requires v.headersPerFile > 0 && HeaderVisited(v, s)
  {
    && (HeaderFile(s) in bad <==> !HeadersOk(v, s, RunningBefore(v, s), v.disk.headers[s]))
    && (FilterHeaderFile(s) in bad <==>
          !(s in v.disk.filterHeaders && FilterHeadersOk(v, s, v.disk.filterHeaders[s])))
  }

  predicate FilterVisited(v: Setup, s: int)
    requires v.filtersPerFile > 0
  {
    0 <= s && Visited(v.disk.filters, v.filtersPerFile, s)
  }

  /** Exactly the visited filter files that get a bad verdict are reported. */
  ghost predicate FiltersReported(v: Setup, bad: seq<FileId>, from: nat, upTo: int)
    requires v.headersPerFile > 0 && v.filtersPerFile > 0
  {
    forall s :: FilterVisited(v, s) && s < upTo ==> FilterReport(v, bad, from, s)
  }

  ghost predicate FilterReport(v: Setup, bad: seq<FileId>, from: nat, s: int)
    requires v.headersPerFile > 0 && v.filtersPerFile > 0 && FilterVisited(v, s)
  {
    var good := FilterFile(s) !in bad;
    exists g: bool :: g == good && FileVerdict(v, s, from, g)
  }

  /** Between sealed anchors, the verdict is whether the file parses and closes. */
  lemma SealedVerdict(v: Setup, start: nat, from: nat, good: bool)
    requires v.headersPerFile > 0 && v.filtersPerFile > 0 && start in v.disk.filters && AnchorsSealed(v, start)
    requires FileVerdict(v, start, from, good)
    ensures good <==> FiltersOk(v, start, v.disk.filters[start])
  {
  }

  /** Nothing is reported but visited files and what the range behind them adds. */
  ghost predicate NothingElse(v: Setup, bad: seq<FileId>)
    requires v.headersPerFile > 0 && v.filtersPerFile > 0
  {
    forall id :: id in bad ==>
      match id
      case HeaderFile(s) => HeaderVisited(v, s)
      case FilterHeaderFile(s) => HeaderVisited(v, s)
      case FilterFile(s) => FilterVisited(v, s)
      case _ => true
  }

  /** The ids of files that start at or past a height do not occur. */
  predicate NothingFrom(bad: seq<FileId>, start: int) {
    forall id :: id in bad ==> id.start < start
  }

  /** A walk ends at its first missing file, so it visited them all. */
  lemma WalkEnds(dir: Dir, size: nat, end: int, s: int)
    requires size > 0 && Reached(dir, size, end) && end !in dir && Visited(dir, size, s)
    ensures s < end
  {
    if end < s {
      ReachedApart(dir, size, end, s);
    }
  }

  /** What the header walk reports about one start. */
  ghost function NewVerdicts(v: Setup, start: nat): seq<FileId>
    requires v.headersPerFile > 0 && start in v.disk.headers
  {
    (if HeadersOk(v, start, RunningBefore(v, start), v.disk.headers[start]) then [] else [HeaderFile(start)])
    + if start in v.disk.filterHeaders && FilterHeadersOk(v, start, v.disk.filterHeaders[start])
      then [] else [FilterHeaderFile(start)]
  }

  lemma HeaderStep(v: Setup, bad: seq<FileId>, start: nat)
    requires v.headersPerFile > 0 && HeaderVisited(v, start)
    requires HeadersReported(v, bad, start) && NothingFrom(bad, start)
    ensures HeadersReported(v, bad + NewVerdicts(v, start), start + v.headersPerFile)
    ensures NothingFrom(bad + NewVerdicts(v, start), start + v.headersPerFile)
  {
    var more := NewVerdicts(v, start);
    assert forall id :: id in more ==> id.start == start;
    forall s | HeaderVisited(v, s) && s < start + v.headersPerFile
      ensures HeaderVerdicts(v, bad + more, s)
    {
      if s < start {
        assert HeaderVerdicts(v, bad, s);
        assert HeaderFile(s) !in more && FilterHeaderFile(s) !in more;
      } else {
        if s > start {
          ReachedApart(v.disk.headers, v.headersPerFile, start, s);
        }
        assert HeaderFile(s) !in bad && FilterHeaderFile(s) !in bad;
      }
    }
  }

  lemma FilterStep(v: Setup, bad: seq<FileId>, from: nat, start: int, good: bool, more: seq<FileId>)
    requires v.headersPerFile > 0 && v.filtersPerFile > 0 && FilterVisited(v, start)
    requires FiltersReported(v, bad, from, start) && FilterFile(start) !in bad
    requires more == if good then [] else [FilterFile(start)]
    requires FileVerdict(v, start, from, good)
    ensures FiltersReported(v, bad + more, from, start + v.filtersPerFile)
  {
    forall s | FilterVisited(v, s) && s < start + v.filtersPerFile
      ensures FilterReport(v, bad + more, from, s)
    {
      if s > start {
        ReachedApart(v.disk.filters, v.filtersPerFile, start, s);
      } else if s < start {
        assert FilterReport(v, bad, from, s);
        assert FilterFile(s) in bad + more <==> FilterFile(s) in bad;
      } else {
        assert FilterFile(s) in bad + more <==> !good;
      }
    }
  }

  /** A verdict that asked since a moment asked since any earlier one. */
  lemma VerdictEarlier(v: Setup, start: nat, earlier: nat, from: nat, good: bool)
    requires v.headersPerFile > 0 && v.filtersPerFile > 0 && start in v.disk.filters
    requires earlier <= from && FileVerdict(v, start, from, good)
    ensures FileVerdict(v, start, earlier, good)
  {
    var fs := FiltersOf(v, v.disk.filters[start]);
    if fs.Some? {
      var before: Option<Hash>, end: Option<Hash> :| ClosesBetween(v, start, from, fs.value, good, before, end);
      if start > 0 {
        StoredEarlier(v, start - 1, earlier, from, before);
      }
      if before.Some? {
        StoredEarlier(v, start + v.filtersPerFile - 1, earlier, from, end);
      }
      assert ClosesBetween(v, start, earlier, fs.value, good, before, end);
    }
  }

  lemma StoredEarlier(v: Setup, height: nat, earlier: nat, from: nat, stored: Option<Hash>)
    requires v.headersPerFile > 0 && earlier <= from && Stored(v, height, from, stored)
    ensures Stored(v, height, earlier, stored)
  {
  }

  /** Exactly what is bad about the range behind the sealed files is reported. */
  ghost predicate TailReported(v: Setup, bad: seq<FileId>, end: nat, tail: Tail)
    requires v.headersPerFile > 0
  {
    forall id: FileId :: id.MemoryHeaders? || id.MemoryFilterHeaders? ==>
      (id in bad <==> id in TailVerdicts(v, end, RunningBefore(v, end), tail).0)
  }

  lemma TailOnly(v: Setup, start: nat, running: Hash, tail: Tail)
    ensures forall id :: id in TailVerdicts(v, start, running, tail).0 ==> id.MemoryHeaders? || id.MemoryFilterHeaders?
  {
  }

  // ---------- the checker ----------

  class Verifier {
    const v: Setup

    var badFiles: seq<FileId>
    var fHeaderCacheStart: int
    var fHeaderCache: Bytes
    var fHeaderCacheFromMemory: bool

    /** Counts the questions to the server; a cached answer of its is from `cachedAt`. */
    var clock: nat
    ghost var cachedAt: nat

    /** A cached range is the sealed file's content, or came from the server's memory. */
    ghost predicate Valid()
      reads this
    {
      && ValidSetup(v)
      && (fHeaderCacheStart != -1 ==>
            if fHeaderCacheFromMemory
            then fHeaderCacheStart !in v.disk.filterHeaders && v.memory(cachedAt, fHeaderCacheStart) == Some(fHeaderCache)
            else fHeaderCacheStart in v.disk.filterHeaders && v.disk.filterHeaders[fHeaderCacheStart] == Some(fHeaderCache))
    }

    constructor (v: Setup)
      requires ValidSetup(v)
      ensures Valid() && this.v == v && badFiles == []
    {
      this.v := v;
      badFiles := [];
      fHeaderCacheStart, fHeaderCache, fHeaderCacheFromMemory, clock, cachedAt := -1, [], false, 0, 0;
    }

    /** The last block hash of records that link to each other and to what came before. */
    method WalkLinks(hs: seq<Header>, start: nat, running: Hash) returns (last: Option<Hash>)
      ensures last.Some? <==> forall i: nat :: i < |hs| ==> LinksAt(v, start, running, hs, i)
      ensures last.Some? ==> last.value == if hs == [] then running else v.H(hs[|hs| - 1])
    {
      var prev := running;
      for i := 0 to |hs|
        invariant forall j: nat :: j < i ==> LinksAt(v, start, running, hs, j)
        invariant prev == if i == 0 then running else v.H(hs[i - 1])
      {
        var hash := v.H(hs[i]);
        if start + i == 0 {
          if hash != v.genesis {
            assert !LinksAt(v, start, running, hs, i);
            return None;
          }
        } else if PrevBlock(hs[i]) != prev {
          assert !LinksAt(v, start, running, hs, i);
          return None;
        }
        prev := hash;
      }
      last := Some(prev);
    }

    method CheckHeaders(start: nat, running: Hash) returns (after: Option<Hash>)
      requires v.headersPerFile > 0 && start in v.disk.headers
      ensures after.Some? <==> HeadersOk(v, start, running, v.disk.headers[start])
      ensures after.Some? ==> after.value == RunningAfter(v, start, running, v.disk.headers[start])
    {
      var data := v.disk.headers[start];
      if data.None? || |data.value| != v.headersPerFile * HEADER_SIZE {
        return None;
      }
      var hs := HeaderRecords(data.value, v.headersPerFile);
      after := WalkLinks(hs, start, running);
      if after.Some? {
        var anchor := BestHash(v.backend, start + v.headersPerFile - 1);
        if anchor != after {
          after := None;
        }
      }
    }

    method CheckMemoryHeaders(hs: seq<Header>, start: nat, running: Hash) returns (good: bool)
      ensures good <==> TailHeadersOk(v, start, running, hs)
    {
      var last := WalkLinks(hs, start, running);
      if last.None? {
        return false;
      }
      var anchor := |hs| - 1 - v.safeDepth;
      if anchor < 0 {
        return true;
      }
      var named := BestHash(v.backend, start + anchor);
      good := named == Some(v.H(hs[anchor]));
    }

    method CheckMemoryFilterHeaders(data: Bytes, n: nat, start: nat) returns (good: bool)
      requires |data| == n * HASH_SIZE
      ensures good <==> TailFilterHeadersOk(v, start, data, n)
    {
      var anchor := n - 1 - v.safeDepth;
      if anchor < 0 {
        return true;
      }
      var reported := ReportedFilterHeader(v, start + anchor);
      good := reported == EntryOf(data, anchor);
    }

    /** The range behind the sealed files, as the running server answers about it. */
    method VerifyMemoryTail(start: nat, running: Hash, tail: Tail) returns (ok: bool)
      modifies `badFiles
      ensures badFiles == old(badFiles) + TailVerdicts(v, start, running, tail).0
      ensures ok == TailVerdicts(v, start, running, tail).1
    {
      var n := RecordCount(tail.headers, HEADER_SIZE);
      if n.None? {
        return false;
      }
      Counted(tail.headers.value, HEADER_SIZE);
      var good := CheckMemoryHeaders(HeaderRecords(tail.headers.value, n.value), start, running);
      if !good {
        badFiles := badFiles + [MemoryHeaders(start)];
      }
      var m := RecordCount(tail.filterHeaders, HASH_SIZE);
      if m.None? {
        return false;
      }
      Counted(tail.filterHeaders.value, HASH_SIZE);
      good := CheckMemoryFilterHeaders(tail.filterHeaders.value, m.value, start);
      if !good {
        badFiles := badFiles + [MemoryFilterHeaders(start)];
      }
      ok := true;
    }

    /** Reports the file if it is bad; only a good file moves the running hash. */
    method VerifyOneHeaderFile(start: nat, running: Hash) returns (after: Hash)
      requires Valid() && start in v.disk.headers
      modifies `badFiles
      ensures Valid()
      ensures after == RunningAfter(v, start, running, v.disk.headers[start])
      ensures badFiles == old(badFiles)
                          + if HeadersOk(v, start, running, v.disk.headers[start]) then [] else [HeaderFile(start)]
      ensures |badFiles| > |old(badFiles)| ==> after == running
    {
      var checked := CheckHeaders(start, running);
      if checked.Some? {
        return checked.value;
      }
      badFiles := badFiles + [HeaderFile(start)];
      after := running;
    }

    method VerifyFilterHeaderAnchor(start: nat)
      requires Valid()
      modifies `badFiles
      ensures Valid()
      ensures badFiles == old(badFiles)
                          + if start in v.disk.filterHeaders && FilterHeadersOk(v, start, v.disk.filterHeaders[start])
                            then [] else [FilterHeaderFile(start)]
    {
      if start in v.disk.filterHeaders && v.disk.filterHeaders[start].Some? {
        var data := v.disk.filterHeaders[start].value;
        if |data| == v.headersPerFile * HASH_SIZE {
          var authority := ReportedFilterHeader(v, start + v.headersPerFile - 1);
          if authority == Some(data[|data| - HASH_SIZE..]) {
            return;
          }
        }
      }
      badFiles := badFiles + [FilterHeaderFile(start)];
    }

    /** Reports exactly the bad ones among all sealed header and filter header files. */
    method WalkHeaderFiles() returns (start: nat, running: Hash)
      requires Valid() && badFiles == []
      modifies `badFiles
      ensures Valid()
      ensures forall s :: HeaderVisited(v, s) ==> HeaderVerdicts(v, badFiles, s)
      ensures forall id :: id in badFiles ==> id.HeaderFile? || id.FilterHeaderFile?
      ensures NothingElse(v, badFiles)
      ensures Reached(v.disk.headers, v.headersPerFile, start) && start !in v.disk.headers
      ensures running == RunningBefore(v, start)
    {
      start, running := 0, ZERO_HASH;
      ghost var left := v.disk.headers.Keys;
      while start in v.disk.headers
        invariant Valid() && Reached(v.disk.headers, v.headersPerFile, start)
        invariant running == RunningBefore(v, start)
        invariant HeadersReported(v, badFiles, start) && NothingFrom(badFiles, start)
        invariant forall id :: id in badFiles ==> id.HeaderFile? || id.FilterHeaderFile?
        invariant NothingElse(v, badFiles)
        invariant forall s :: s in v.disk.headers && s >= start ==> s in left
        decreases |left|
      {
        ghost var before := badFiles;
        ghost var more := NewVerdicts(v, start);
        running := VerifyOneHeaderFile(start, running);
        VerifyFilterHeaderAnchor(start);
        assert badFiles == before + more;
        HeaderStep(v, before, start);
        left := left - {start};
        start := start + v.headersPerFile;
      }
      forall s | HeaderVisited(v, s) ensures HeaderVerdicts(v, badFiles, s) {
        WalkEnds(v.disk.headers, v.headersPerFile, start, s);
      }
    }

    /**
     * The sealed files, then what is bad about the range behind them; fails exactly if the
     * server's answers about that range cannot be read.
     */
    method VerifyHeaderFiles(tail: Tail) returns (ok: bool, ghost end: nat)
      requires Valid() && badFiles == []
      modifies `badFiles
      ensures Valid()
      ensures forall s :: HeaderVisited(v, s) ==> HeaderVerdicts(v, badFiles, s)
      ensures forall id :: id in badFiles ==> !id.FilterFile?
      ensures NothingElse(v, badFiles)
      ensures Reached(v.disk.headers, v.headersPerFile, end) && end !in v.disk.headers
      ensures ok == TailVerdicts(v, end, RunningBefore(v, end), tail).1
      ensures TailReported(v, badFiles, end, tail)
    {
      var start, running := WalkHeaderFiles();
      ghost var sealed := badFiles;
      ok := VerifyMemoryTail(start, running, tail);
      end := start;
      TailOnly(v, start, running, tail);
      forall s | HeaderVisited(v, s) ensures HeaderVerdicts(v, badFiles, s) {
        assert HeaderVerdicts(v, sealed, s);
      }
    }

    /** Fills the cache from the sealed file, or from the server if there is none. */
    method LoadFilterHeaders(fileStart: int) returns (ok: bool)
      requires Valid() && fileStart >= 0
      modifies `fHeaderCache, `fHeaderCacheStart, `fHeaderCacheFromMemory, `clock, `cachedAt
      ensures Valid() && old(clock) <= clock
      ensures ok ==> fHeaderCacheStart == fileStart
      ensures fileStart in v.disk.filterHeaders ==> (ok <==> v.disk.filterHeaders[fileStart].Some?)
      ensures fileStart !in v.disk.filterHeaders ==> (ok <==> v.memory(old(clock), fileStart).Some?)
      ensures fileStart !in v.disk.filterHeaders && ok ==> cachedAt == old(clock)
    {
      if fileStart in v.disk.filterHeaders {
        if v.disk.filterHeaders[fileStart].None? {
          return false;
        }
        fHeaderCacheFromMemory := false;
        fHeaderCache := v.disk.filterHeaders[fileStart].value;
      } else {
        var body := v.memory(clock, fileStart);
        clock := clock + 1;
        if body.None? {
          return false;
        }
        fHeaderCacheFromMemory := true;
        fHeaderCache := body.value;
        cachedAt := clock - 1;
      }
      fHeaderCacheStart := fileStart;
      ok := true;
    }

    /**
     * Whatever the cache holds, a height in a sealed file is answered from that file; for
     * others a snapshot of the server's is refreshed once before it is found too short.
     */
    method StoredFilterHeader(height: nat) returns (stored: Option<Hash>)
      requires Valid()
      modifies `fHeaderCache, `fHeaderCacheStart, `fHeaderCacheFromMemory, `clock, `cachedAt
      ensures Valid() && old(clock) <= clock
      ensures Stored(v, height, old(clock), stored)
    {
      var fileStart := FileStart(v, height);
      FileStartBelow(v, height);
      var attempt := 0;
      while true
        invariant Valid() && 0 <= attempt <= 1 && old(clock) <= clock
        invariant attempt > 0 ==> fHeaderCacheStart == -1
        decreases 1 - attempt
      {
        if fHeaderCacheStart != fileStart {
          ghost var now := clock;
          var ok := LoadFilterHeaders(fileStart);
          if !ok {
            assert fileStart !in v.disk.filterHeaders ==> FromServer(v, now, height) == None;
            return None;
          }
        }
        stored := EntryOf(fHeaderCache, height - fileStart);
        assert fHeaderCacheFromMemory ==> FromServer(v, cachedAt, height) == stored;
        if stored.Some? || !fHeaderCacheFromMemory || attempt > 0 {
          return;
        }
        fHeaderCacheStart := -1;
        attempt := attempt + 1;
      }
    }

    /** The closure between the stored headers on both ends. */
    method CheckFilterChain(filters: seq<Blob>, start: nat) returns (ok: bool)
      requires Valid()
      modifies `fHeaderCache, `fHeaderCacheStart, `fHeaderCacheFromMemory, `clock, `cachedAt
      ensures Valid() && old(clock) <= clock
      ensures Closure(v, start, old(clock), filters, ok)
    {
      var before := Some(ZERO_HASH);
      if start > 0 {
        before := StoredFilterHeader(start - 1);
        if before.None? {
          NoStart(v, start, old(clock), filters);
          return false;
        }
      }
      ghost var now := clock;
      var want := StoredFilterHeader(start + v.filtersPerFile - 1);
      StoredEarlier(v, start + v.filtersPerFile - 1, old(clock), now, want);
      if want.None? {
        BothEnds(v, start, old(clock), filters, before, want, false);
        return false;
      }
      var prev := Chained(before.value, filters);
      ok := prev == want.value;
      BothEnds(v, start, old(clock), filters, before, want, ok);
    }

    method Chained(start: Hash, filters: seq<Blob>) returns (prev: Hash)
      ensures prev == Fold(v.H, start, filters)
    {
      prev := start;
      for i := 0 to |filters|
        invariant prev == Fold(v.H, start, filters[..i])
      {
        ChainedStep(v.H, start, filters, i);
        prev := FilterHeader(v.H, filters[i], prev);
      }
      assert filters[..|filters|] == filters;
    }

    method VerifyOneFilterFile(start: nat) returns (ghost good: bool)
      requires Valid() && start in v.disk.filters
      modifies this
      ensures Valid() && old(clock) <= clock
      ensures FileVerdict(v, start, old(clock), good)
      ensures badFiles == old(badFiles) + if good then [] else [FilterFile(start)]
    {
      good := false;
      var data := v.disk.filters[start];
      if data.Some? {
        var filters := FilterFile.ReadExactly(data.value, v.filtersPerFile);
        if filters.Some? {
          var ok := CheckFilterChain(filters.value, start);
          good := ok;
          if ok {
            return;
          }
        }
      }
      badFiles := badFiles + [FilterFile(start)];
    }

    /** Reports exactly the visited filter files that get a bad verdict. */
    method VerifyFilterFiles()
      requires Valid() && NothingElse(v, badFiles) && forall id :: id in badFiles ==> !id.FilterFile?
      modifies this
      ensures Valid() && NothingElse(v, badFiles)
      ensures forall s :: FilterVisited(v, s) ==> FilterReport(v, badFiles, 0, s)
      ensures forall id: FileId :: !id.FilterFile? ==> (id in badFiles <==> id in old(badFiles))
    {
      var start := 0;
      ghost var left, first := v.disk.filters.Keys, badFiles;
      while start in v.disk.filters
        invariant Valid() && start >= 0 && Reached(v.disk.filters, v.filtersPerFile, start)
        invariant FiltersReported(v, badFiles, 0, start) && NothingElse(v, badFiles)
        invariant forall id :: id in badFiles && id.FilterFile? ==> id.start < start
        invariant forall id: FileId :: !id.FilterFile? ==> (id in badFiles <==> id in first)
        invariant forall s :: s in v.disk.filters && s >= start ==> s in left
        decreases |left|
      {
        ghost var before, now := badFiles, clock;
        ghost var good := VerifyOneFilterFile(start);
        VerdictEarlier(v, start, 0, now, good);
        FilterStep(v, before, 0, start, good, if good then [] else [FilterFile(start)]);
        left := left - {start};
        start := start + v.filtersPerFile;
      }
      forall s | FilterVisited(v, s) ensures FilterReport(v, badFiles, 0, s) {
        WalkEnds(v.disk.filters, v.filtersPerFile, start, s);
      }
    }

    /**
     * A whole run that gets through lists exactly the files that fail their checks, and
     * what is bad about the range behind the sealed headers.
     */
    method Run(tail: Tail) returns (ok: bool, ghost end: nat)
      requires Valid() && badFiles == []
      modifies this
      ensures Valid() && NothingElse(v, badFiles)
      ensures forall s :: HeaderVisited(v, s) ==> HeaderVerdicts(v, badFiles, s)
      ensures Reached(v.disk.headers, v.headersPerFile, end) && end !in v.disk.headers
      ensures ok == TailVerdicts(v, end, RunningBefore(v, end), tail).1
      ensures TailReported(v, badFiles, end, tail)
      ensures ok ==> forall s :: FilterVisited(v, s) ==> FilterReport(v, badFiles, 0, s)
    {
      ok, end := VerifyHeaderFiles(tail);
      if !ok {
        return;
      }
      ghost var headersBad := badFiles;
      VerifyFilterFiles();
      forall s | HeaderVisited(v, s) ensures HeaderVerdicts(v, badFiles, s) {
        assert HeaderVerdicts(v, headersBad, s);
      }
    }
  }

  lemma FileStartBelow(v: Setup, height: nat)
    requires v.headersPerFile > 0
    ensures 0 <= FileStart(v, height) <= height
  {
    if FileStart(v, height) < 0 {
      MulBound(height / v.headersPerFile, v.headersPerFile);
    }
  }

  lemma NoStart(v: Setup, start: nat, from: nat, filters: seq<Blob>)
    requires v.headersPerFile > 0 && v.filtersPerFile > 0 && start > 0 && Stored(v, start - 1, from, None)
    ensures Closure(v, start, from, filters, false)
  {
    assert ClosesBetween(v, start, from, filters, false, None, None);
  }

  lemma BothEnds(v: Setup, start: nat, from: nat, filters: seq<Blob>, before: Option<Hash>, end: Option<Hash>, ok: bool)
    requires v.headersPerFile > 0 && v.filtersPerFile > 0 && before.Some?
    requires if start == 0 then before == Some(ZERO_HASH) else Stored(v, start - 1, from, before)
    requires Stored(v, start + v.filtersPerFile - 1, from, end)
    requires ok <==> end.Some? && Fold(v.H, before.value, filters) == end.value
    ensures Closure(v, start, from, filters, ok)
  {
    assert ClosesBetween(v, start, from, filters, ok, before, end);
  }

  lemma ChainedStep(H: Hasher, start: Hash, filters: seq<Blob>, i: nat)
    requires i < |filters|
    ensures Fold(H, start, filters[..i + 1]) == FilterHeader(H, filters[i], Fold(H, start, filters[..i]))
  {
    assert filters[..i + 1] == filters[..i] + [filters[i]];
    FoldSnoc(H, start, filters[..i], filters[i]);
  }
}
