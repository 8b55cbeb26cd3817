/**
 * The custom filter producer: several filter sets built in one pass, with filter
 * headers kept in memory until their larger file is sealed and rebuilt from the sealed
 * filter files after a restart. A file write may fail at any point, which is also how
 * a crash between two writes looks to the directory.
 */
module CustomFilters {
  import opened Basics
  import opened Wire
  import opened FilterChain
  import opened CustomChain
  import FilterFile
  import Schedule
  import FileNames

  const FILTER_SUFFIX := ".cfilter"

  /**
   * What the schedule may do to the producer between two of its own steps. A seal meets a
   * disk that takes `writes` more files.
   */
  datatype Event =
    | Block(hash: Option<Hash>, row: Option<Row>)
    | Seal(writes: nat, killedAfterWrites: bool)
    | Reorg(to: int)
    | Kill

  /** The map's row at a height is the matching entry of every column. */
  predicate StoredRow(headers: map<int, seq<Hash>>, h: int, start: int, columns: seq<seq<Hash>>)
    requires start <= h && forall c :: 0 <= c < |columns| ==> h - start < |columns[c]|
  {
    && h in headers && |headers[h]| == |columns|
    && forall c :: 0 <= c < |columns| ==> headers[h][c] == columns[c][h - start]
  }

  /** The columns of filters read for the heights from `start` on, `n` of them. */
  predicate Shaped(prev: seq<Hash>, cols: seq<seq<Blob>>, n: nat) {
    |cols| == |prev| && forall c :: 0 <= c < |cols| ==> |cols[c]| == n
  }

  /** The map's row at a height is what ingesting the columns one height at a time stores. */
  predicate FoldRow(H: Hasher, prev: seq<Hash>, cols: seq<seq<Blob>>, headers: map<int, seq<Hash>>, start: int, h: int)
    requires start <= h && Shaped(prev, cols, if |cols| == 0 then 0 else |cols[0]|)
    requires |cols| > 0 ==> h - start < |cols[0]|
  {
    && h in headers && |headers[h]| == |prev|
    && forall c :: 0 <= c < |prev| ==> headers[h][c] == Fold(H, prev[c], cols[c][..h - start + 1])
  }

  ghost predicate Rebuilt(H: Hasher, prev: seq<Hash>, cols: seq<seq<Blob>>, headers: map<int, seq<Hash>>, start: int, n: nat) {
    Shaped(prev, cols, n) && forall h :: start <= h < start + n ==> FoldRow(H, prev, cols, headers, start, h)
  }

  /** The chain state after the columns. */
  predicate FoldedTo(H: Hasher, prev: seq<Hash>, cols: seq<seq<Blob>>, state: seq<Hash>)
    requires |cols| == |prev|
  {
    |state| == |prev| && forall c :: 0 <= c < |prev| ==> state[c] == Fold(H, prev[c], cols[c])
  }

  function Joined(cols: seq<seq<Blob>>, more: seq<seq<Blob>>): (r: seq<seq<Blob>>)
    requires |cols| == |more|
    ensures |r| == |cols| && forall c :: 0 <= c < |r| ==> r[c] == cols[c] + more[c]
  {
    seq<seq<Blob>>(|cols|, c requires 0 <= c < |cols| => cols[c] + more[c])
  }

  /** One more file: chaining its entries onto the running state is chaining them all. */
  lemma RebuiltFurther(H: Hasher, prev: seq<Hash>, cols: seq<seq<Blob>>, state: seq<Hash>, more: seq<seq<Blob>>,
                       columns: seq<seq<Hash>>, headers: map<int, seq<Hash>>, headers': map<int, seq<Hash>>,
                       start: int, n: nat, mid: int, size: nat)
    requires |prev| > 0 && size > 0
    requires Rebuilt(H, prev, cols, headers, start, n) && FoldedTo(H, prev, cols, state)
    requires Shaped(prev, more, size) && |columns| == |prev| && forall c :: 0 <= c < |prev| ==> |columns[c]| == size
    requires forall c, r :: 0 <= c < |prev| && 0 <= r < size ==> columns[c][r] == Fold(H, state[c], more[c][..r + 1])
    requires mid == start + n
    requires forall h :: start <= h < mid ==> h in headers && h in headers' && headers'[h] == headers[h]
    requires forall h :: mid <= h < mid + size ==> StoredRow(headers', h, mid, columns)
    ensures Rebuilt(H, prev, Joined(cols, more), headers', start, n + size)
  {
    var all := Joined(cols, more);
    forall h | start <= h < mid + size ensures FoldRow(H, prev, all, headers', start, h) {
      if h < mid {
        assert FoldRow(H, prev, cols, headers, start, h);
        forall c | 0 <= c < |prev| ensures all[c][..h - start + 1] == cols[c][..h - start + 1] {
        }
      } else {
        assert StoredRow(headers', h, mid, columns);
        forall c | 0 <= c < |prev| ensures headers'[h][c] == Fold(H, prev[c], all[c][..h - start + 1]) {
          assert all[c][..h - start + 1] == cols[c] + more[c][..h - mid + 1];
          FoldConcat(H, prev[c], cols[c], more[c][..h - mid + 1]);
        }
      }
    }
  }

  lemma FoldedFurther(H: Hasher, prev: seq<Hash>, cols: seq<seq<Blob>>, state: seq<Hash>, more: seq<seq<Blob>>, state': seq<Hash>)
    requires |cols| == |prev| == |more| && FoldedTo(H, prev, cols, state) && FoldedTo(H, state, more, state')
    ensures FoldedTo(H, prev, Joined(cols, more), state')
  {
    forall c | 0 <= c < |prev| ensures state'[c] == Fold(H, prev[c], Joined(cols, more)[c]) {
      FoldConcat(H, prev[c], cols[c], more[c]);
    }
  }

  /** Every row of the range that is present has an entry for configuration `c`. */
  predicate Wide(headers: map<int, seq<Hash>>, c: nat, lo: int, hi: int) {
    forall h :: lo <= h < hi && h in headers ==> c < |headers[h]|
  }

  function HeaderColumn(headers: map<int, seq<Hash>>, c: nat, lo: int, hi: int): (hs: seq<Hash>)
    requires lo <= hi && Covers(headers, lo, hi) && Wide(headers, c, lo, hi)
    ensures |hs| == hi - lo && forall i :: 0 <= i < |hs| ==> hs[i] == headers[lo + i][c]
  {
    seq<Hash>(hi - lo, i requires 0 <= i < hi - lo => headers[lo + i][c])
  }

  /** The filters in memory are the unsealed rows of the log, each with its block hash. */
  ghost predicate TailIsLog(filters: map<int, Row>, hashes: map<int, Hash>, log: seq<Row>, lastSealed: int, current: int) {
    && (forall h :: h in filters <==> lastSealed < h < |log|)
    && (forall h :: h in filters ==> 0 <= h && filters[h] == log[h])
    && hashes.Keys == filters.Keys
    && current == (if log == [] then 0 else |log| - 1)
  }

  lemma TailGrows(filters: map<int, Row>, hashes: map<int, Hash>, log: seq<Row>, lastSealed: int, current: int,
                  row: Row, hash: Hash)
    requires TailIsLog(filters, hashes, log, lastSealed, current) && lastSealed < |log|
    ensures TailIsLog(filters[|log| := row], hashes[|log| := hash], log + [row], lastSealed, |log|)
  {
  }

  /** Disk, filters and header rows all belong to one log. */
  ghost predicate Consistent(H: Hasher, z: Sizes, log: seq<Row>, lastSealed: int, current: int,
                             filters: map<int, Row>, hashes: map<int, Hash>, headers: map<int, seq<Hash>>,
                             filterFiles: Dir, headerFiles: Dir)
  {
    && OnDisk(H, z, log, lastSealed + 1, filterFiles, headerFiles)
    && TailIsLog(filters, hashes, log, lastSealed, current)
    && HeadersInMemory(H, z, log, lastSealed + 1, headers)
  }

  lemma ConsistentCut(H: Hasher, z: Sizes, log: seq<Row>, lastSealed: int, current: int,
                      filters: map<int, Row>, hashes: map<int, Hash>, headers: map<int, seq<Hash>>,
                      filterFiles: Dir, headerFiles: Dir, to: int)
    requires Consistent(H, z, log, lastSealed, current, filters, hashes, headers, filterFiles, headerFiles)
    requires lastSealed < to < |log|
    ensures 0 <= to
    ensures Consistent(H, z, log[..to + 1], lastSealed, to, Without(filters, to + 1, current + 1),
                       Without(hashes, to + 1, current + 1), headers, filterFiles, headerFiles)
  {
    HeadersSurviveRollback(H, z, log, lastSealed + 1, headers, to + 1);
    assert log[..to + 1][..lastSealed + 1] == log[..lastSealed + 1];
    OnDiskCut(H, z, log, log[..to + 1], lastSealed + 1, filterFiles, headerFiles);
  }

  lemma ConsistentGrows(H: Hasher, z: Sizes, log: seq<Row>, lastSealed: int, current: int,
                        filters: map<int, Row>, hashes: map<int, Hash>, headers: map<int, seq<Hash>>,
                        filterFiles: Dir, headerFiles: Dir, row: Row, hash: Hash, hs: seq<Hash>)
    requires Consistent(H, z, log, lastSealed, current, filters, hashes, headers, filterFiles, headerFiles)
    requires 0 <= SpanStart(z, lastSealed + 1) && |row| == z.count && Rows(z, log + [row])
    requires HoldsHeaders(H, z, log, headers, SpanStart(z, lastSealed + 1), |log|)
    requires IsHeaderRow(H, z, log + [row], |log| + 1, hs)
    ensures Consistent(H, z, log + [row], lastSealed, |log|, filters[|log| := row], hashes[|log| := hash],
                       headers[|log| := hs], filterFiles, headerFiles)
    ensures HoldsHeaders(H, z, log + [row], headers[|log| := hs], SpanStart(z, lastSealed + 1), |log| + 1)
  {
    HeadersGrow(H, z, log, lastSealed + 1, headers, row, hs);
    assert (log + [row])[..lastSealed + 1] == log[..lastSealed + 1];
    OnDiskCut(H, z, log, log + [row], lastSealed + 1, filterFiles, headerFiles);
    TailGrows(filters, hashes, log, lastSealed, current, row, hash);
  }

  lemma HeaderColumnNext(headers: map<int, seq<Hash>>, c: nat, lo: int, j: int)
    requires lo <= j && Covers(headers, lo, j) && j in headers && Wide(headers, c, lo, j + 1)
    ensures Covers(headers, lo, j + 1)
    ensures HashBytes(HeaderColumn(headers, c, lo, j + 1)) == HashBytes(HeaderColumn(headers, c, lo, j)) + headers[j][c]
  {
    HashBytesSnoc(HeaderColumn(headers, c, lo, j), headers[j][c]);
    assert HeaderColumn(headers, c, lo, j + 1) == HeaderColumn(headers, c, lo, j) + [headers[j][c]];
  }

  function Without<T>(m: map<int, T>, lo: int, hi: int): map<int, T> {
    map h | h in m && !(lo <= h < hi) :: m[h]
  }

  /** After a seal the map is still what the header invariant asks for. */
  lemma HeadersAfterSeal(H: Hasher, z: Sizes, log: seq<Row>, end: int, headers: map<int, seq<Hash>>)
    requires HeadersInMemory(H, z, log, end, headers) && end % z.perFile == 0 && end + z.perFile <= |log|
    ensures var end' := end + z.perFile;
            HeadersInMemory(H, z, log, end',
              if end' % z.perHeaderFile == 0 then Without(headers, end' - z.perHeaderFile, end') else headers)
  {
    SpanAfterSeal(z, end);
    SpanAligned(z, end);
  }

  /** Outside `lo..hi-1` the maps are the same. */
  predicate SameOutside(a: map<int, seq<Hash>>, b: map<int, seq<Hash>>, lo: int, hi: int) {
    && (forall h :: h in a && !(lo <= h < hi) ==> h in b && b[h] == a[h])
    && (forall h :: h in b && !(lo <= h < hi) ==> h in a)
  }

  lemma NextFileFits(at: int, end: int, size: nat)
    requires size > 0 && 0 <= at < end && at % size == 0 && end % size == 0
    ensures at + size <= end && (at + size) % size == 0
  {
    ModStep(at, size);
    if end < at + size {
      AlignedGap(at, end, size);
    }
  }

  class CustomFilterFiles {
    const H: Hasher
    const z: Sizes
    const depth: nat

    var filters: map<int, Row>
    var filterHeaders: map<int, seq<Hash>>
    var heightToHash: map<int, Hash>
    var currentHeight: int
    var lastSealedHeight: int

    /** The heights the shared height-to-hash cache was told to forget from. */
    var invalidated: seq<int>

    var filterFiles: Dir
    var headerFiles: Dir

    /** Every row ingested and not rolled back, disk then memory. */
    ghost var log: seq<Row>

    ghost predicate Valid()
      reads this
    {
      Consistent(H, z, log, lastSealedHeight, currentHeight, filters, heightToHash, filterHeaders, filterFiles, headerFiles)
    }

    constructor (H: Hasher, z: Sizes, depth: nat)
      requires ValidSizes(z)
      ensures Valid() && log == [] && lastSealedHeight == -1
      ensures this.H == H && this.z == z && this.depth == depth
    {
      this.H, this.z, this.depth := H, z, depth;
      filters, filterHeaders, heightToHash := map[], map[], map[];
      currentHeight, lastSealedHeight, invalidated := 0, -1, [];
      filterFiles, headerFiles := map[], map[];
      log := [];
      new;
      assert 0 % z.perFile == 0 && 0 % z.perHeaderFile == 0;
    }

    // ---------- rebuilding filter headers from disk ----------

    /** A filter file that reads cleanly and holds exactly one file's worth of entries. */
    predicate Readable(c: nat, s: int)
      reads `filterFiles
    {
      && (c, s) in filterFiles
      && FilterFile.ScanFile(filterFiles[(c, s)]).clean
      && |FilterFile.ScanFile(filterFiles[(c, s)]).entries| == z.perFile
    }

    /** The headers one configuration's entries chain to, from `prev`. */
    method ChainEntries(prev: Hash, entries: seq<Blob>, limit: nat) returns (headers: seq<Hash>)
      requires limit <= |entries|
      ensures |headers| == limit
      ensures forall k :: 0 <= k < limit ==> headers[k] == Fold(H, prev, entries[..k + 1])
    {
      headers := [];
      var running := prev;
      assert entries[..0] == [];
      for idx := 0 to limit
        invariant |headers| == idx && running == Fold(H, prev, entries[..idx])
        invariant forall k :: 0 <= k < idx ==> headers[k] == Fold(H, prev, entries[..k + 1])
      {
        assert entries[..idx + 1] == entries[..idx] + [entries[idx]];
        FoldSnoc(H, prev, entries[..idx], entries[idx]);
        running := FilterHeader(H, entries[idx], running);
        headers := headers + [running];
      }
    }

    /** A configuration's file read as `entries`, which chain `from` to `headers` and end in `to`. */
    ghost predicate ReadAndChained(fileStart: int, c: nat, from: Hash, entries: seq<Blob>, headers: seq<Hash>, to: Hash)
      reads `filterFiles
    {
      && Readable(c, fileStart)
      && entries == FilterFile.ScanFile(filterFiles[(c, fileStart)]).entries
      && |headers| == |entries|
      && (forall r :: 0 <= r < |headers| ==> headers[r] == Fold(H, from, entries[..r + 1]))
      && to == Fold(H, from, entries)
    }

    /** One filter file of every configuration; fails at the first one that is not readable. */
    method RebuildFile(fileStart: int, prev0: seq<Hash>)
      returns (ok: bool, prev: seq<Hash>, columns: seq<seq<Hash>>, ghost entries: seq<seq<Blob>>)
      requires ValidSizes(z) && |prev0| == z.count
      ensures ok <==> forall c: nat :: c < z.count ==> Readable(c, fileStart)
      ensures ok ==> |prev| == |columns| == |entries| == z.count
      ensures ok ==> forall c: nat :: c < z.count ==>
                ReadAndChained(fileStart, c, prev0[c], entries[c], columns[c], prev[c])
    {
      prev, columns, entries := prev0, [], [];
      for i := 0 to z.count
        invariant |prev| == z.count && |columns| == |entries| == i
        invariant forall c: nat :: c < i ==>
                    ReadAndChained(fileStart, c, prev0[c], entries[c], columns[c], prev[c])
        invariant forall c: nat :: i <= c < z.count ==> prev[c] == prev0[c]
      {
        if (i, fileStart) !in filterFiles {
          assert !Readable(i, fileStart);
          return false, prev, columns, entries;
        }
        var read, clean := FilterFile.ReadFilterFile(filterFiles[(i, fileStart)]);
        var limit := if |read| < z.perFile then |read| else z.perFile;
        var headers := ChainEntries(prev[i], read, limit);
        if limit > 0 {
          prev := prev[i := headers[limit - 1]];
        }
        if !clean || |read| != z.perFile {
          assert !Readable(i, fileStart);
          return false, prev, columns, entries;
        }
        assert read[..limit] == read;
        assert ReadAndChained(fileStart, i, prev0[i], read, headers, prev[i]);
        columns, entries := columns + [headers], entries + [read];
      }
      forall c: nat | c < z.count ensures Readable(c, fileStart) {
        assert ReadAndChained(fileStart, c, prev0[c], entries[c], columns[c], prev[c]);
      }
      ok := true;
    }

    /** Puts one file's header rows into the map. */
    method StoreRows(fileStart: int, columns: seq<seq<Hash>>)
      requires |columns| == z.count && forall c :: 0 <= c < z.count ==> |columns[c]| == z.perFile
      modifies `filterHeaders
      ensures SameOutside(old(filterHeaders), filterHeaders, fileStart, fileStart + z.perFile)
      ensures forall h :: fileStart <= h < fileStart + z.perFile ==> StoredRow(filterHeaders, h, fileStart, columns)
    {
      for r := 0 to z.perFile
        invariant SameOutside(old(filterHeaders), filterHeaders, fileStart, fileStart + r)
        invariant forall h :: fileStart <= h < fileStart + r ==> StoredRow(filterHeaders, h, fileStart, columns)
      {
        var row := seq<Hash>(z.count, c requires 0 <= c < z.count => columns[c][r]);
        ghost var before := filterHeaders;
        filterHeaders := filterHeaders[fileStart + r := row];
        forall h | fileStart <= h < fileStart + r ensures StoredRow(filterHeaders, h, fileStart, columns) {
          assert StoredRow(before, h, fileStart, columns);
        }
        assert StoredRow(filterHeaders, fileStart + r, fileStart, columns);
      }
    }

    /** The file that starts at `s` decodes to this stretch of the columns. */
    ghost predicate ReadFrom(cols: seq<seq<Blob>>, start: int, c: nat, s: int)
      requires c < |cols|
      reads `filterFiles
    {
      && Readable(c, s) && start <= s && s - start + z.perFile <= |cols[c]|
      && cols[c][s - start..s - start + z.perFile] == FilterFile.ScanFile(filterFiles[(c, s)]).entries
    }

    /** Every file from `start` up to `end` decodes to its stretch of the columns. */
    ghost predicate AllReadFrom(cols: seq<seq<Blob>>, start: int, end: int)
      requires |cols| == z.count && z.perFile > 0
      reads `filterFiles
    {
      forall c: nat, s :: c < z.count && start <= s < end && (s - start) % z.perFile == 0 ==>
        ReadFrom(cols, start, c, s)
    }

    /** Every file from `start` up to `end` is readable, for every configuration. */
    ghost predicate AllReadable(start: int, end: int)
      requires z.perFile > 0
      reads `filterFiles
    {
      forall c: nat, s :: c < z.count && start <= s < end && (s - start) % z.perFile == 0 ==> Readable(c, s)
    }

    lemma AllReadFurther(cols: seq<seq<Blob>>, more: seq<seq<Blob>>, start: int, end: int)
      requires ValidSizes(z) && |cols| == |more| == z.count && start <= end && (end - start) % z.perFile == 0
      requires forall c :: 0 <= c < z.count ==> |cols[c]| == end - start
      requires AllReadFrom(cols, start, end)
      requires forall c: nat :: c < z.count ==>
                 Readable(c, end) && more[c] == FilterFile.ScanFile(filterFiles[(c, end)]).entries
      ensures AllReadFrom(Joined(cols, more), start, end + z.perFile)
    {
      forall c: nat, s | c < z.count && start <= s < end + z.perFile && (s - start) % z.perFile == 0
        ensures ReadFrom(Joined(cols, more), start, c, s)
      {
        if end < s {
          AlignedGap(end - start, s - start, z.perFile);
        } else if s < end {
          assert ReadFrom(cols, start, c, s);
        }
      }
    }

    /** One file of the walk: read it for every configuration and store its rows. */
    method RebuildNext(ghost prev0: seq<Hash>, start: int, fileStart: int, prev: seq<Hash>, ghost cols: seq<seq<Blob>>)
      returns (ok: bool, state: seq<Hash>, ghost cols': seq<seq<Blob>>)
      requires ValidSizes(z) && |prev0| == z.count
      requires start <= fileStart && (fileStart - start) % z.perFile == 0
      requires Rebuilt(H, prev0, cols, filterHeaders, start, fileStart - start)
      requires FoldedTo(H, prev0, cols, prev) && AllReadFrom(cols, start, fileStart)
      modifies `filterHeaders
      ensures !ok ==> filterHeaders == old(filterHeaders) && exists c: nat :: c < z.count && !Readable(c, fileStart)
      ensures ok ==> Rebuilt(H, prev0, cols', filterHeaders, start, fileStart - start + z.perFile)
      ensures ok ==> FoldedTo(H, prev0, cols', state) && AllReadFrom(cols', start, fileStart + z.perFile)
      ensures ok ==> SameOutside(old(filterHeaders), filterHeaders, fileStart, fileStart + z.perFile)
    {
      var columns;
      ghost var more;
      ok, state, columns, more := RebuildFile(fileStart, prev);
      cols' := cols;
      if ok {
        ghost var before := filterHeaders;
        forall h | start <= h < fileStart ensures h in before {
          assert FoldRow(H, prev0, cols, before, start, h);
        }
        StoreRows(fileStart, columns);
        cols' := Joined(cols, more);
        forall c: nat | c < z.count ensures |more[c]| == |columns[c]| == z.perFile {
          assert ReadAndChained(fileStart, c, prev[c], more[c], columns[c], state[c]);
        }
        RebuiltFurther(H, prev0, cols, prev, more, columns, before, filterHeaders, start, fileStart - start, fileStart, z.perFile);
        FoldedFurther(H, prev0, cols, prev, more, state);
        AllReadFurther(cols, more, start, fileStart);
      }
    }

    /**
     * Walks the sealed filter files of `start..end` file by file and configuration by
     * configuration. It stores for every height the row that ingesting the same filters
     * height by height would store, and returns the chain state at `end`; it fails
     * exactly if some file does not hold one file's worth of entries.
     */
    method RebuildFilterHeaders(prevHeaders: seq<Hash>, start: int, end: int)
      returns (r: Option<seq<Hash>>, ghost cols: seq<seq<Blob>>)
      requires ValidSizes(z) && |prevHeaders| == z.count
      requires start <= end + 1 && (end + 1 - start) % z.perFile == 0
      modifies `filterHeaders
      ensures r.Some? <==> AllReadable(start, end + 1)
      ensures r.Some? ==> Rebuilt(H, prevHeaders, cols, filterHeaders, start, end + 1 - start)
      ensures r.Some? ==> FoldedTo(H, prevHeaders, cols, r.value) && AllReadFrom(cols, start, end + 1)
      ensures SameOutside(old(filterHeaders), filterHeaders, start, end + 1)
    {
      var prev := prevHeaders;
      var fileStart := start;
      cols := seq<seq<Blob>>(z.count, _ => []);
      while fileStart <= end
        invariant start <= fileStart <= end + 1 && (fileStart - start) % z.perFile == 0
        invariant Rebuilt(H, prevHeaders, cols, filterHeaders, start, fileStart - start)
        invariant FoldedTo(H, prevHeaders, cols, prev) && AllReadFrom(cols, start, fileStart)
        invariant SameOutside(old(filterHeaders), filterHeaders, start, end + 1)
      {
        NextFileFits(fileStart - start, end + 1 - start, z.perFile);
        var ok, state;
        ghost var cols';
        ok, state, cols' := RebuildNext(prevHeaders, start, fileStart, prev, cols);
        if !ok {
          return None, cols;
        }
        cols, prev := cols', state;
        fileStart := fileStart + z.perFile;
      }
      assert AllReadable(start, end + 1) by {
        forall c: nat, s | c < z.count && start <= s <= end && (s - start) % z.perFile == 0 ensures Readable(c, s) {
          assert ReadFrom(cols, start, c, s);
        }
      }
      r := Some(prev);
    }

    // ---------- resuming the chain ----------

    /** The last header of every configuration's file that ends at `height`. */
    method ReadHeaderFileAnchor(height: int) returns (r: Option<seq<Hash>>)
      requires ValidSizes(z)
      ensures r.Some? <==> AllHaveAnchors(headerFiles, height + 1 - z.perHeaderFile)
      ensures r.Some? ==> AreAnchors(headerFiles, height + 1 - z.perHeaderFile, r.value)
    {
      var fileStart := height + 1 - z.perHeaderFile;
      var headers: seq<Hash> := [];
      for i := 0 to z.count
        invariant |headers| == i
        invariant forall c: nat :: c < i ==> HasAnchor(headerFiles, c, fileStart)
                                             && headers[c] == Anchor(headerFiles, c, fileStart)
      {
        if (i, fileStart) !in headerFiles || |headerFiles[(i, fileStart)]| != z.perHeaderFile * HASH_SIZE {
          assert !HasAnchor(headerFiles, i, fileStart);
          return None;
        }
        headers := headers + [Anchor(headerFiles, i, fileStart)];
      }
      r := Some(headers);
    }

    predicate HasAnchor(files: Dir, c: nat, t: int) {
      (c, t) in files && |files[(c, t)]| == z.perHeaderFile * HASH_SIZE
    }

    ghost predicate AllHaveAnchors(files: Dir, t: int) {
      forall c: nat :: c < z.count ==> HasAnchor(files, c, t)
    }

    ghost predicate AreAnchors(files: Dir, t: int, row: seq<Hash>)
      requires z.perHeaderFile > 0
    {
      |row| == z.count && forall c: nat :: c < z.count ==> HasAnchor(files, c, t) && row[c] == Anchor(files, c, t)
    }

    function Anchor(files: Dir, c: nat, t: int): Hash
      requires z.perHeaderFile > 0 && HasAnchor(files, c, t)
    {
      files[(c, t)][(z.perHeaderFile - 1) * HASH_SIZE..]
    }

    lemma AnchorOnDisk(end: int, c: nat)
      requires OnDisk(H, z, log, end, filterFiles, headerFiles) && c < z.count && SpanStart(z, end) > 0
      ensures var t := SpanStart(z, end) - z.perHeaderFile;
              && 0 <= SpanStart(z, end) <= |log|
              && HasAnchor(headerFiles, c, t)
              && Anchor(headerFiles, c, t) == HeaderAfter(H, z, log, c, SpanStart(z, end))
    {
      SpanAligned(z, end);
      var a, p := SpanStart(z, end), z.perHeaderFile;
      NextFileFits(0, a, p);
      ModStep(a - p, p);
      assert Below(a - p, p, end);
      assert HeaderFileHolds(H, z, log, c, a - p, headerFiles[(c, a - p)]);
      LastHash(HeaderStretch(H, z, log, c, a - p, a));
    }

    lemma ReadableOnDisk(end: int, c: nat, s: int)
      requires OnDisk(H, z, log, end, filterFiles, headerFiles) && c < z.count && Below(s, z.perFile, end)
      ensures Readable(c, s)
      ensures FilterFile.ScanFile(filterFiles[(c, s)]).entries == Column(z, log, c)[s..s + z.perFile]
    {
      assert FilterFileHolds(z, log, c, s, filterFiles[(c, s)]);
      FilterFile.ScanRoundTrip(Column(z, log, c)[s..s + z.perFile]);
    }

    lemma BelowFromSpan(end: int, s: int)
      requires ValidSizes(z) && 0 <= end && end % z.perFile == 0
      requires SpanStart(z, end) <= s < end && (s - SpanStart(z, end)) % z.perFile == 0
      ensures Below(s, z.perFile, end)
    {
      SpanAligned(z, end);
      var a, e := SpanStart(z, end), z.perFile;
      assert s == ((s - a) / e + a / e) * e;
      DivMod(s, e, (s - a) / e + a / e, 0);
      NextFileFits(s, end, e);
    }

    /** The file of the walk that holds the `i`-th height of the open span. */
    lemma FileOfSpan(end: int, i: int)
      requires ValidSizes(z) && 0 <= end && end % z.perFile == 0 && 0 <= i < end - SpanStart(z, end)
      ensures var a, off := SpanStart(z, end), i - i % z.perFile;
              && 0 <= a && 0 <= off <= i < off + z.perFile && off % z.perFile == 0
              && Below(a + off, z.perFile, end)
    {
      var e := z.perFile;
      DivMod(i - i % e, e, i / e, 0);
      MulBound(i / e, e);
      SpanAligned(z, end);
      BelowFromSpan(end, SpanStart(z, end) + (i - i % e));
    }

    lemma FileIsTheLog(cols: seq<seq<Blob>>, a: int, end: int, c: nat, s: int)
      requires OnDisk(H, z, log, end, filterFiles, headerFiles) && c < z.count
      requires |cols| == z.count && AllReadFrom(cols, a, end)
      requires 0 <= a <= s && (s - a) % z.perFile == 0 && Below(s, z.perFile, end)
      ensures s - a + z.perFile <= |cols[c]|
      ensures cols[c][s - a..s - a + z.perFile] == Column(z, log, c)[s..s + z.perFile]
    {
      ReadableOnDisk(end, c, s);
      assert ReadFrom(cols, a, c, s);
    }

    lemma EntryIsTheLog(cols: seq<seq<Blob>>, end: int, c: nat, i: int)
      requires OnDisk(H, z, log, end, filterFiles, headerFiles) && c < z.count
      requires |cols| == z.count && AllReadFrom(cols, SpanStart(z, end), end)
      requires 0 <= i < end - SpanStart(z, end) && i < |cols[c]|
      ensures 0 <= SpanStart(z, end) && cols[c][i] == Column(z, log, c)[SpanStart(z, end) + i]
    {
      FileOfSpan(end, i);
      FileIsTheLog(cols, SpanStart(z, end), end, c, SpanStart(z, end) + (i - i % z.perFile));
      SliceEntry(cols[c], Column(z, log, c), i - i % z.perFile, SpanStart(z, end), z.perFile, i);
    }

    lemma SliceEntry(x: seq<Blob>, y: seq<Blob>, off: int, a: int, n: nat, i: int)
      requires 0 <= off <= i < off + n <= |x| && 0 <= a && a + off + n <= |y|
      requires x[off..off + n] == y[a + off..a + off + n]
      ensures x[i] == y[a + i]
    {
      assert x[off..off + n][i - off] == y[a + off..a + off + n][i - off];
    }

    /** What the walk read is the log itself. */
    lemma ColumnsAreTheLog(cols: seq<seq<Blob>>, end: int, c: nat)
      requires OnDisk(H, z, log, end, filterFiles, headerFiles) && c < z.count
      requires |cols| == z.count && 0 <= SpanStart(z, end) <= end && |cols[c]| == end - SpanStart(z, end)
      requires AllReadFrom(cols, SpanStart(z, end), end)
      ensures cols[c] == Column(z, log, c)[SpanStart(z, end)..end]
    {
      var a, col := SpanStart(z, end), Column(z, log, c);
      forall i | 0 <= i < end - a ensures cols[c][i] == col[a + i] {
        EntryIsTheLog(cols, end, c, i);
      }
    }

    lemma RebuiltIsTheLog(prev: seq<Hash>, cols: seq<seq<Blob>>, headers: map<int, seq<Hash>>, end: int)
      requires OnDisk(H, z, log, end, filterFiles, headerFiles) && 0 <= SpanStart(z, end) <= end
      requires IsHeaderRow(H, z, log, SpanStart(z, end), prev)
      requires Rebuilt(H, prev, cols, headers, SpanStart(z, end), end - SpanStart(z, end))
      requires AllReadFrom(cols, SpanStart(z, end), end)
      ensures HoldsHeaders(H, z, log, headers, SpanStart(z, end), end)
    {
      var a := SpanStart(z, end);
      forall h | a <= h < end ensures h in headers && IsHeaderRow(H, z, log, h + 1, headers[h]) {
        assert FoldRow(H, prev, cols, headers, a, h);
        forall c | 0 <= c < z.count ensures headers[h][c] == HeaderAfter(H, z, log, c, h + 1) {
          ColumnsAreTheLog(cols, end, c);
          assert cols[c][..h - a + 1] == Column(z, log, c)[a..h + 1];
          HeaderAfterStretch(H, z, log, c, a, h + 1);
        }
      }
    }

    lemma FoldedIsTheLog(prev: seq<Hash>, cols: seq<seq<Blob>>, state: seq<Hash>, end: int)
      requires OnDisk(H, z, log, end, filterFiles, headerFiles) && 0 <= SpanStart(z, end) <= end
      requires IsHeaderRow(H, z, log, SpanStart(z, end), prev)
      requires Shaped(prev, cols, end - SpanStart(z, end)) && FoldedTo(H, prev, cols, state)
      requires AllReadFrom(cols, SpanStart(z, end), end)
      ensures IsHeaderRow(H, z, log, end, state)
    {
      forall c | 0 <= c < z.count ensures state[c] == HeaderAfter(H, z, log, c, end) {
        ColumnsAreTheLog(cols, end, c);
        HeaderAfterStretch(H, z, log, c, SpanStart(z, end), end);
      }
    }

    lemma AnchorsOnDisk(end: int, row: seq<Hash>)
      requires OnDisk(H, z, log, end, filterFiles, headerFiles) && SpanStart(z, end) > 0
      ensures AllHaveAnchors(headerFiles, SpanStart(z, end) - z.perHeaderFile)
      ensures SpanStart(z, end) <= |log|
      ensures AreAnchors(headerFiles, SpanStart(z, end) - z.perHeaderFile, row) ==>
                IsHeaderRow(H, z, log, SpanStart(z, end), row)
    {
      AnchorOnDisk(end, 0);
      var n, t := SpanStart(z, end), SpanStart(z, end) - z.perHeaderFile;
      forall c: nat | c < z.count ensures HasAnchor(headerFiles, c, t) {
        AnchorOnDisk(end, c);
      }
      if AreAnchors(headerFiles, t, row) {
        forall c: nat | c < z.count ensures row[c] == HeaderAfter(H, z, log, c, n) {
          AnchorOnDisk(end, c);
        }
      }
    }

    lemma SpanReadable(end: int)
      requires OnDisk(H, z, log, end, filterFiles, headerFiles)
      ensures AllReadable(SpanStart(z, end), end)
    {
      forall c: nat, s | c < z.count && SpanStart(z, end) <= s < end && (s - SpanStart(z, end)) % z.perFile == 0
        ensures Readable(c, s)
      {
        BelowFromSpan(end, s);
        ReadableOnDisk(end, c, s);
      }
    }

    /**
     * Anchors the chain at the last sealed header file and rebuilds the open span. With
     * a good disk it cannot fail, and the state it returns chains the next height.
     */
    method ResumeFilterHeaders(height: int) returns (r: Option<seq<Hash>>)
      requires OnDisk(H, z, log, height, filterFiles, headerFiles) && height > 0
      modifies `filterHeaders
      ensures r.Some? && IsHeaderRow(H, z, log, height, r.value)
      ensures SpanStart(z, height) >= 0 && HoldsHeaders(H, z, log, filterHeaders, SpanStart(z, height), height)
      ensures SameOutside(old(filterHeaders), filterHeaders, SpanStart(z, height), height)
    {
      SpanAligned(z, height);
      var anchorCount := (height / z.perHeaderFile) * z.perHeaderFile;
      assert anchorCount == SpanStart(z, height);
      var prevHeaders := seq<Hash>(z.count, _ => ZERO_HASH);
      if anchorCount > 0 {
        AnchorsOnDisk(height, []);
        var anchors := ReadHeaderFileAnchor(anchorCount - 1);
        if anchors.None? {
          return None;
        }
        AnchorsOnDisk(height, anchors.value);
        prevHeaders := anchors.value;
      }
      assert IsHeaderRow(H, z, log, anchorCount, prevHeaders);
      if anchorCount == height {
        return Some(prevHeaders);
      }
      SpanReadable(height);
      ghost var cols;
      r, cols := RebuildFilterHeaders(prevHeaders, anchorCount, height - 1);
      RebuiltIsTheLog(prevHeaders, cols, filterHeaders, height);
      FoldedIsTheLog(prevHeaders, cols, r.value, height);
    }

    // ---------- ingest ----------

    /**
     * The headers the given height chains onto: zero for genesis, the row in memory, or
     * the resumed chain. What it returns is never stale.
     */
    method PrevFilterHeaders(height: int) returns (prev: Option<seq<Hash>>)
      requires Valid() && height == |log|
      modifies `filterHeaders
      ensures Valid()
      ensures prev.Some? && IsHeaderRow(H, z, log, height, prev.value)
      ensures SpanStart(z, lastSealedHeight + 1) >= 0
      ensures HoldsHeaders(H, z, log, filterHeaders, SpanStart(z, lastSealedHeight + 1), |log|)
    {
      SpanAligned(z, lastSealedHeight + 1);
      if height == 0 {
        return Some(seq<Hash>(z.count, _ => ZERO_HASH));
      }
      if height - 1 in filterHeaders {
        return Some(filterHeaders[height - 1]);
      }
      prev := ResumeFilterHeaders(height);
    }

    /**
     * Ingests the next height: on success the log has one more row and the map its
     * headers; a failed block hash or block fetch leaves the log as it was.
     */
    method Ingest(height: int, hash: Option<Hash>, row: Option<Row>) returns (ok: bool)
      requires Valid() && height == |log|
      requires row.Some? ==> |row.value| == z.count
      modifies `filters, `filterHeaders, `heightToHash, `currentHeight, `log
      ensures Valid() && (ok <==> hash.Some? && row.Some?)
      ensures ok ==> log == old(log) + [row.value] && heightToHash == old(heightToHash)[height := hash.value]
      ensures !ok ==> log == old(log) && heightToHash == old(heightToHash)
      ensures ok ==> HoldsHeaders(H, z, log, filterHeaders, SpanStart(z, lastSealedHeight + 1), |log|)
    {
      if hash.None? {
        return false;
      }
      var prev := PrevFilterHeaders(height);
      if prev.None? || row.None? {
        return false;
      }
      var headers := NextHeaders(prev.value, row.value);
      ConsistentGrows(H, z, log, lastSealedHeight, currentHeight, filters, heightToHash, filterHeaders, filterFiles, headerFiles,
                      row.value, hash.value, headers);
      filters := filters[height := row.value];
      filterHeaders := filterHeaders[height := headers];
      heightToHash := heightToHash[height := hash.value];
      currentHeight := height;
      log := log + [row.value];
      ok := true;
    }

    /** Chains one row of filters onto one row of headers. */
    method NextHeaders(prev: seq<Hash>, row: Row) returns (headers: seq<Hash>)
      requires Rows(z, log) && |row| == z.count && IsHeaderRow(H, z, log, |log|, prev)
      ensures Rows(z, log + [row]) && IsHeaderRow(H, z, log + [row], |log| + 1, headers)
    {
      headers := [];
      for i := 0 to z.count
        invariant |headers| == i
        invariant forall c :: 0 <= c < i ==> headers[c] == FilterHeader(H, row[c], prev[c])
      {
        headers := headers + [FilterHeader(H, row[i], prev[i])];
      }
      forall c | 0 <= c < z.count ensures headers[c] == HeaderAfter(H, z, log + [row], c, |log| + 1) {
        HeaderAfterNext(H, z, log, row, c);
      }
    }

    // ---------- sealing ----------

    /** Writes one configuration's headers for the range; a missing height fails. */
    method SerializeFilterHeaders(c: nat, start: int, end: int) returns (out: Bytes, ok: bool)
      requires start <= end + 1 && Wide(filterHeaders, c, start, end + 1)
      ensures ok <==> Covers(filterHeaders, start, end + 1)
      ensures ok ==> out == HashBytes(HeaderColumn(filterHeaders, c, start, end + 1))
    {
      out := [];
      assert HeaderColumn(filterHeaders, c, start, start) == [];
      for j := start to end + 1
        invariant Covers(filterHeaders, start, j)
        invariant out == HashBytes(HeaderColumn(filterHeaders, c, start, j))
      {
        if j !in filterHeaders {
          return out, false;
        }
        HeaderColumnNext(filterHeaders, c, start, j);
        out := out + filterHeaders[j][c];
      }
      ok := true;
    }

    lemma ColumnIsStretch(headers: map<int, seq<Hash>>, c: nat, lo: int, hi: int)
      requires ValidSizes(z) && Rows(z, log) && c < z.count && 0 <= lo <= hi <= |log|
      requires HoldsHeaders(H, z, log, headers, lo, hi)
      ensures Covers(headers, lo, hi) && Wide(headers, c, lo, hi)
      ensures HeaderColumn(headers, c, lo, hi) == HeaderStretch(H, z, log, c, lo, hi)
    {
      forall h | lo <= h < hi ensures h in headers && |headers[h]| == z.count
                                      && headers[h][c] == HeaderAfter(H, z, log, c, h + 1)
      {
        assert IsHeaderRow(H, z, log, h + 1, headers[h]);
      }
    }

    /** The span that starts at `t` is complete in memory. */
    ghost predicate CanWriteHeaders(t: int)
      reads `filterHeaders, `log
    {
      && ValidSizes(z) && Rows(z, log) && 0 <= t && t + z.perHeaderFile <= |log|
      && HoldsHeaders(H, z, log, filterHeaders, t, t + z.perHeaderFile)
    }

    /** One header file; the write may fail and then nothing changes. */
    method WriteHeaderFile(i: nat, fileStart: int, diskTakesIt: bool) returns (ok: bool, ghost data: Bytes)
      requires i < z.count && CanWriteHeaders(fileStart)
      modifies `headerFiles
      ensures ok == diskTakesIt
      ensures HeaderFileHolds(H, z, log, i, fileStart, data)
      ensures headerFiles == if ok then old(headerFiles)[(i, fileStart) := data] else old(headerFiles)
    {
      ColumnIsStretch(filterHeaders, i, fileStart, fileStart + z.perHeaderFile);
      var out, complete := SerializeFilterHeaders(i, fileStart, fileStart + z.perHeaderFile - 1);
      data := out;
      if !complete || !diskTakesIt {
        return false, data;
      }
      headerFiles := headerFiles[(i, fileStart) := out];
      ok := true;
    }

    /**
     * Writes the header file of every configuration for the span that ends at `fileEnd`,
     * then drops the span from memory. The disk takes `writes` files; earlier ones stay.
     */
    method WriteFilterHeaderFiles(fileEnd: int, writes: nat) returns (ok: bool)
      requires CanWriteHeaders(fileEnd + 1 - z.perHeaderFile)
      modifies `headerFiles, `filterHeaders
      ensures ok <==> writes >= z.count
      ensures OnlyAt(old(headerFiles), headerFiles, fileEnd + 1 - z.perHeaderFile)
      ensures ok ==> HeadersWritten(H, z, log, headerFiles, fileEnd + 1 - z.perHeaderFile, z.count)
      ensures filterHeaders == if ok then Without(old(filterHeaders), fileEnd + 1 - z.perHeaderFile, fileEnd + 1)
                               else old(filterHeaders)
    {
      var fileStart := fileEnd + 1 - z.perHeaderFile;
      for i := 0 to z.count
        invariant filterHeaders == old(filterHeaders) && i <= writes
        invariant OnlyAt(old(headerFiles), headerFiles, fileStart)
        invariant HeadersWritten(H, z, log, headerFiles, fileStart, i)
      {
        ghost var data;
        ok, data := WriteHeaderFile(i, fileStart, i < writes);
        if !ok {
          return;
        }
      }
      ghost var written := headerFiles;
      for j := fileStart to fileEnd + 1
        invariant headerFiles == written
        invariant filterHeaders == Without(old(filterHeaders), fileStart, j)
      {
        filterHeaders := map h | h in filterHeaders && h != j :: filterHeaders[h];
      }
      ok := true;
    }

    /** One configuration's filters, as the shared writer takes them. */
    function FiltersOf(c: nat): map<int, Blob>
      requires forall h :: h in filters ==> c < |filters[h]|
      reads `filters
    {
      map h | h in filters :: filters[h][c]
    }

    ghost predicate CanWriteFilters(fileStart: int, fileEnd: int)
      reads `filters, `log
    {
      && Rows(z, log) && 0 <= fileStart && fileEnd + 1 == fileStart + z.perFile <= |log|
      && (forall h :: h in filters ==> 0 <= h < |log| && filters[h] == log[h])
      && Covers(filters, fileStart, fileEnd + 1)
    }

    /** One filter file; the write may fail and then nothing changes. */
    method WriteFilterFile(i: nat, fileStart: int, fileEnd: int, diskTakesIt: bool) returns (ok: bool, ghost data: Bytes)
      requires i < z.count && CanWriteFilters(fileStart, fileEnd)
      modifies `filterFiles
      ensures ok == diskTakesIt
      ensures FilterFileHolds(z, log, i, fileStart, data)
      ensures filterFiles == if ok then old(filterFiles)[(i, fileStart) := data] else old(filterFiles)
    {
      var out, complete := FilterFile.SerializeFilters(FiltersOf(i), fileStart, fileEnd);
      assert Span(FiltersOf(i), fileStart, fileEnd) == Column(z, log, i)[fileStart..fileStart + z.perFile];
      data := out;
      if !complete || !diskTakesIt {
        return false, data;
      }
      filterFiles := filterFiles[(i, fileStart) := out];
      ok := true;
    }

    /** The filter files of one range, the resume configuration's last. */
    method WriteFilterFiles(fileStart: int, fileEnd: int, writes: nat) returns (ok: bool)
      requires CanWriteFilters(fileStart, fileEnd) && z.count >= 1 && (0, fileStart) !in filterFiles
      modifies `filterFiles
      ensures ok <==> writes >= z.count
      ensures OnlyAt(old(filterFiles), filterFiles, fileStart)
      ensures if ok then FiltersWritten(z, log, filterFiles, fileStart, 0, z.count)
              else (0, fileStart) !in filterFiles
    {
      for i := z.count downto 0
        invariant OnlyAt(old(filterFiles), filterFiles, fileStart) && z.count - i <= writes
        invariant i > 0 ==> (0, fileStart) !in filterFiles
        invariant FiltersWritten(z, log, filterFiles, fileStart, i, z.count)
      {
        ghost var data;
        ok, data := WriteFilterFile(i, fileStart, fileEnd, z.count - 1 - i < writes);
        if !ok {
          return;
        }
      }
      ok := true;
    }

    /** Header files where the range completes their span, then the filter files. */
    method WriteBatch(fileStart: int, fileEnd: int, spanDone: bool, writes: nat) returns (ok: bool)
      requires CanWriteFilters(fileStart, fileEnd) && z.count >= 1 && (0, fileStart) !in filterFiles
      requires spanDone ==> CanWriteHeaders(fileEnd + 1 - z.perHeaderFile)
      modifies `filterFiles, `headerFiles, `filterHeaders
      ensures ok <==> writes >= BatchFiles(z, spanDone)
      ensures FilterBatch(z, log, fileStart, old(filterFiles), filterFiles, ok)
      ensures HeaderBatch(H, z, log, fileEnd + 1 - z.perHeaderFile, spanDone, old(headerFiles), headerFiles, ok)
      ensures ok ==> filterHeaders == PrunedHeaders(old(filterHeaders), fileEnd, spanDone)
    {
      var left := writes;
      if spanDone {
        ok := WriteFilterHeaderFiles(fileEnd, left);
        if !ok {
          return;
        }
        left := left - z.count;
      }
      ok := WriteFilterFiles(fileStart, fileEnd, left);
    }

    /** A completed span leaves memory with its files. */
    function PrunedHeaders(headers: map<int, seq<Hash>>, fileEnd: int, spanDone: bool): map<int, seq<Hash>> {
      if spanDone then Without(headers, fileEnd + 1 - z.perHeaderFile, fileEnd + 1) else headers
    }

    /**
     * Writes the batch of one file range. Whatever write fails, the directory is as
     * durable as before; it is one file further exactly when all writes are done, and
     * they are if the disk takes them. Nothing outside the batch is touched.
     */
    method WriteSealedFile(fileStart: int, fileEnd: int, writes: nat) returns (ok: bool)
      requires Valid() && fileStart == lastSealedHeight + 1 && fileEnd + 1 == fileStart + z.perFile <= |log|
      modifies `filterFiles, `headerFiles, `filterHeaders
      ensures ok <==> writes >= BatchFiles(z, SpanDone(z, fileEnd + 1))
      ensures OnDisk(H, z, log, if ok then fileEnd + 1 else fileStart, filterFiles, headerFiles)
      ensures ok ==> HeadersInMemory(H, z, log, fileEnd + 1, filterHeaders)
      ensures OnlyAt(old(filterFiles), filterFiles, fileStart)
      ensures if SpanDone(z, fileEnd + 1) then OnlyAt(old(headerFiles), headerFiles, fileEnd + 1 - z.perHeaderFile)
              else headerFiles == old(headerFiles)
    {
      ReadyToSeal(fileStart, fileEnd);
      ok := WriteBatch(fileStart, fileEnd, (fileEnd + 1) % z.perHeaderFile == 0, writes);
      BatchOutcome(H, z, log, fileStart, fileEnd + 1 - z.perHeaderFile,
                   old(filterFiles), old(headerFiles), filterFiles, headerFiles, ok);
    }

    /** What a batch needs is there before it starts. */
    lemma ReadyToSeal(fileStart: int, fileEnd: int)
      requires Valid() && fileStart == lastSealedHeight + 1 && fileEnd + 1 == fileStart + z.perFile <= |log|
      ensures CanWriteFilters(fileStart, fileEnd) && (0, fileStart) !in filterFiles
      ensures SpanDone(z, fileEnd + 1) ==> CanWriteHeaders(fileEnd + 1 - z.perHeaderFile)
      ensures HeadersInMemory(H, z, log, fileEnd + 1, PrunedHeaders(filterHeaders, fileEnd, SpanDone(z, fileEnd + 1)))
    {
      assert !Below(fileStart, z.perFile, fileStart);
      HeadersAfterSeal(H, z, log, fileStart, filterHeaders);
      SpanAfterSeal(z, fileStart);
    }

    // ---------- promotion, rollback, restart ----------

    /** Drops the filters of the inclusive range; the header map is left alone. */
    method Prune(start: int, end: int)
      modifies `filters, `heightToHash
      ensures filters == Without(old(filters), start, end + 1)
      ensures heightToHash == Without(old(heightToHash), start, end + 1)
    {
      var j := start;
      while j <= end
        invariant start <= j && (j <= end + 1 || j == start)
        invariant filters == Without(old(filters), start, j)
        invariant heightToHash == Without(old(heightToHash), start, j)
      {
        filters := map h | h in filters && h != j :: filters[h];
        heightToHash := map h | h in heightToHash && h != j :: heightToHash[h];
        j := j + 1;
      }
      assert end < start ==> filters == Without(old(filters), start, end + 1);
    }

    /** Prunes a written batch and advances: memory shrinks, the log does not. */
    method Promote(fileStart: int, fileEnd: int)
      requires fileStart == lastSealedHeight + 1 && fileStart <= fileEnd + 1 <= |log|
      requires OnDisk(H, z, log, fileEnd + 1, filterFiles, headerFiles)
      requires HeadersInMemory(H, z, log, fileEnd + 1, filterHeaders)
      requires TailIsLog(filters, heightToHash, log, lastSealedHeight, currentHeight)
      modifies `filters, `heightToHash, `lastSealedHeight
      ensures Valid() && lastSealedHeight == fileEnd
    {
      Prune(fileStart, fileEnd);
      lastSealedHeight := fileEnd;
    }

    /**
     * Cuts the log at `toHeight`, above everything sealed, and makes the shared hash cache
     * forget what lies above. Header entries above it stay in the map and are stale from
     * here on.
     */
    method Rollback(toHeight: int)
      requires Valid() && lastSealedHeight < toHeight < |log|
      modifies `filters, `heightToHash, `currentHeight, `log, `invalidated
      ensures Valid() && log == old(log)[..toHeight + 1] && lastSealedHeight == old(lastSealedHeight)
      ensures invalidated == old(invalidated) + [toHeight + 1]
    {
      ConsistentCut(H, z, log, lastSealedHeight, currentHeight, filters, heightToHash, filterHeaders, filterFiles, headerFiles,
                    toHeight);
      Prune(toHeight + 1, currentHeight);
      currentHeight := toHeight;
      invalidated := invalidated + [toHeight + 1];
      log := log[..toHeight + 1];
    }

    /** Over the durable part of the log, empty memory is a valid state. */
    lemma FreshProcess(end: nat)
      requires OnDisk(H, z, log, end, filterFiles, headerFiles)
      ensures OnDisk(H, z, log[..end], end, filterFiles, headerFiles)
      ensures HeadersInMemory(H, z, log[..end], end, map[])
      ensures TailIsLog(map[], map[], log[..end], end - 1, if end == 0 then 0 else end - 1)
      ensures end > 0 ==> end >= 2
    {
      assert log[..end][..end] == log[..end];
      OnDiskCut(H, z, log, log[..end], end, filterFiles, headerFiles);
      SpanAligned(z, end);
      if end > 0 {
        NextFileFits(0, end, z.perFile);
      }
    }

    /**
     * A new process over the same directories; `listing` names the resume directory,
     * which holds exactly the completed files. It resumes right behind the last
     * completed batch, however far an interrupted one got, and its memory is empty.
     */
    method Restart(listing: seq<string>, ghost end: nat) returns (ok: bool)
      requires OnDisk(H, z, log, end, filterFiles, headerFiles)
      requires FileNames.ListsSealed(listing, FILTER_SUFFIX, z.perFile, end)
      modifies `filters, `filterHeaders, `heightToHash, `currentHeight, `lastSealedHeight, `log
      ensures end <= FileNames.HEIGHT_LIMIT ==> ok && Valid() && log == old(log)[..end] && lastSealedHeight == end - 1
    {
      var lookup := FileNames.ResumePoint(listing, FILTER_SUFFIX, z.perFile, end);
      if lookup.Unparseable? {
        return false;
      }
      ResumeAt(lookup, end);
      ok := true;
    }

    /** What the lookup finds in a directory of `end` heights whose names fit seven digits. */
    function LookupFor(end: nat): FileNames.Lookup {
      if end == 0 then FileNames.NoFiles else FileNames.Last(end - 1)
    }

    /** Empty memory and the height fields the lookup gives. */
    method ResumeAt(lookup: FileNames.Lookup, ghost end: nat)
      requires OnDisk(H, z, log, end, filterFiles, headerFiles) && !lookup.Unparseable?
      modifies `filters, `filterHeaders, `heightToHash, `currentHeight, `lastSealedHeight, `log
      ensures lookup == LookupFor(end) ==> Valid() && log == old(log)[..end] && lastSealedHeight == end - 1
    {
      FreshProcess(end);
      filters, filterHeaders, heightToHash := map[], map[], map[];
      var lastBlock := if lookup.NoFiles? then 0 else lookup.end;
      if lastBlock > 0 {
        lastSealedHeight, currentHeight := lastBlock, lastBlock;
      } else {
        lastSealedHeight, currentHeight := -1, 0;
      }
      log := log[..end];
    }

    // ---------- every run ----------

    /** The filter headers from the start of the open span to the tip are the fold from genesis. */
    ghost predicate HeadersAreTheFold()
      requires Rows(z, log)
      reads this
    {
      forall c: nat, h :: c < z.count && OpenHeight(h) ==> IsTheFold(c, h)
    }

    ghost predicate IsTheFold(c: nat, h: int)
      requires Rows(z, log) && c < z.count && OpenHeight(h)
      reads this
    {
      && h in filterHeaders && c < |filterHeaders[h]|
      && filterHeaders[h][c] == Fold(H, ZERO_HASH, Column(z, log, c)[..h + 1])
    }

    /** From the start of the span no header file covers up to the tip. */
    ghost predicate OpenHeight(h: int)
      reads this
    {
      ValidSizes(z) && 0 <= h && SpanStart(z, lastSealedHeight + 1) <= h < |log|
    }

    lemma ValidHeaders()
      requires Valid() && lastSealedHeight + 1 < |log|
      ensures ValidSizes(z) && Rows(z, log) && HeadersAreTheFold()
    {
      forall c: nat, h | c < z.count && OpenHeight(h) ensures IsTheFold(c, h) {
        assert IsHeaderRow(H, z, log, h + 1, filterHeaders[h]);
      }
    }

    /** The directory a dead process leaves. */
    ghost predicate Leaves(end: int)
      reads this
    {
      0 <= end && OnDisk(H, z, log, end, filterFiles, headerFiles)
    }

    /** Where the producer stands, as the replay of its events counts it. */
    ghost function Standing(): Schedule.Replay<Row>
      requires -1 <= lastSealedHeight
      reads this
    {
      Schedule.Replay(log, lastSealedHeight + 1, true)
    }

    /** Seals the next file if it is reorg-safe; a failed write, or a kill behind them, ends the process. */
    method SealOrDie(next: int, writes: nat, killedAfterWrites: bool) returns (alive: bool, next': int)
      requires Valid() && next == |log|
      modifies this
      ensures Happens(z, depth, old(Standing()), Seal(writes, killedAfterWrites), alive, log, lastSealedHeight, next')
      ensures if alive then Valid() else Leaves(next')
    {
      alive, next' := true, next;
      SealHappens(z, depth, Standing(), currentHeight, writes, killedAfterWrites);
      if lastSealedHeight + z.perFile <= currentHeight - depth {
        var ok := SealDue(writes, killedAfterWrites);
        if !ok || killedAfterWrites {
          alive, next' := false, lastSealedHeight + 1 + if ok then z.perFile else 0;
        }
      }
    }

    /** Writes the due batch, and promotes it if it is complete and the process lives. */
    method SealDue(writes: nat, killed: bool) returns (ok: bool)
      requires Valid() && z.perFile + lastSealedHeight < |log|
      modifies this
      ensures ok <==> writes >= BatchFiles(z, SpanDone(z, old(lastSealedHeight) + 1 + z.perFile))
      ensures log == old(log)
      ensures lastSealedHeight == old(lastSealedHeight) + if ok && !killed then z.perFile else 0
      ensures ok && !killed ==> Valid()
      ensures !ok || killed ==> Leaves(lastSealedHeight + 1 + if ok then z.perFile else 0)
    {
      ok := WriteDue(writes);
      if ok && !killed {
        Promote(lastSealedHeight + 1, lastSealedHeight + z.perFile);
      }
    }

    method WriteDue(writes: nat) returns (ok: bool)
      requires Valid() && z.perFile + lastSealedHeight < |log|
      modifies `filterFiles, `headerFiles, `filterHeaders
      ensures ok <==> writes >= BatchFiles(z, SpanDone(z, lastSealedHeight + 1 + z.perFile))
      ensures OnDisk(H, z, log, lastSealedHeight + 1 + if ok then z.perFile else 0, filterFiles, headerFiles)
      ensures ok ==> HeadersInMemory(H, z, log, lastSealedHeight + 1 + z.perFile, filterHeaders)
    {
      ok := WriteSealedFile(lastSealedHeight + 1, lastSealedHeight + z.perFile, writes);
    }

    /**
     * One step of a schedule. While the process lives, `next` is the height to ingest next;
     * when it is dead, what its directory covers.
     */
    method Step(event: Event, next: int) returns (alive: bool, next': int)
      requires Valid() && next == |log| && WellFormed(z, event)
      modifies this
      ensures Happens(z, depth, old(Standing()), event, alive, log, lastSealedHeight, next')
      ensures if alive then Valid() else Leaves(next')
    {
      alive, next' := true, next;
      match event
      case Block(hash, row) =>
        alive := Ingest(next, hash, row);
        next' := if alive then next + 1 else lastSealedHeight + 1;
      case Seal(writes, killedAfterWrites) =>
        alive, next' := SealOrDie(next, writes, killedAfterWrites);
      case Reorg(to) =>
        if lastSealedHeight < to < next {
          Rollback(to);
          next' := to + 1;
        }
      case Kill =>
        alive, next' := false, lastSealedHeight + 1;
    }

    /** Where one event leaves the producer, with a new process started if it ended. */
    method StepOrRestart(event: Event, next: int, listings: nat -> seq<string>) returns (alive: bool, next': int)
      requires Valid() && next == |log| && WellFormed(z, event)
      requires forall n: nat :: n % z.perFile == 0 ==> FileNames.ListsSealed(listings(n), FILTER_SUFFIX, z.perFile, n)
      modifies this
      ensures Arrived(Schedule.After(RulesOf(z, depth), old(Standing()), Seen(z, old(Standing()), event)), alive, next')
    {
      alive, next' := Step(event, next);
      if !alive {
        if next' > FileNames.HEIGHT_LIMIT {
          return;
        }
        alive := Restart(listings(next'), next');
      }
    }

    /** The producer stands where the replay does, or its directory is what the replay leaves. */
    ghost predicate Arrived(r: Schedule.Replay<Row>, alive: bool, next: int)
      reads this
    {
      && alive == r.alive
      && (alive ==> Valid() && Standing() == r && next == |log|)
      && (!alive ==> next == r.durable && Leaves(next) && next <= |log| && log[..next] == r.log)
    }

    /**
     * Whatever the schedule of blocks, failures, seals, rollbacks and kills: the producer
     * ends with exactly the log the events leave, and as soon as anything is in memory every
     * filter header from the open span to the tip is the fold from the zero header over that
     * configuration's filters in this log. Every new process reads its resume point off the
     * directory; one whose heights no longer fit the file names ends the schedule, with what
     * is on disk intact.
     */
    method Run(events: seq<Event>, listings: nat -> seq<string>) returns (alive: bool, end: int)
      requires Valid() && log == [] && lastSealedHeight == -1
      requires forall e :: e in events ==> WellFormed(z, e)
      requires forall n: nat :: n % z.perFile == 0 ==> FileNames.ListsSealed(listings(n), FILTER_SUFFIX, z.perFile, n)
      modifies this
      ensures Arrived(Replayed(z, depth, events), alive, end)
      ensures alive && lastSealedHeight + 1 < |log| ==> Rows(z, log) && HeadersAreTheFold()
    {
      alive, end := true, 0;
      assert events[..0] == [];
      for i := 0 to |events|
        invariant alive && Arrived(Replayed(z, depth, events[..i]), alive, end)
      {
        assert events[..i + 1][..i] == events[..i];
        alive, end := StepOrRestart(events[i], end, listings);
        if !alive {
          DeadStays(z, depth, events, i + 1);
          return;
        }
      }
      assert events[..|events|] == events;
      if lastSealedHeight + 1 < end {
        ValidHeaders();
      }
    }
  }

  // ---------- what the events leave ----------

  /** The files of a batch. */
  function BatchFiles(z: Sizes, spanDone: bool): nat {
    if spanDone then z.count + z.count else z.count
  }

  /** A block has one filter for each configuration. */
  predicate WellFormed(z: Sizes, e: Event) {
    e.Block? && e.row.Some? ==> |e.row.value| == z.count
  }

  function RulesOf(z: Sizes, depth: nat): Schedule.Rules {
    Schedule.Rules(z.perFile, depth, FileNames.HEIGHT_LIMIT)
  }

  /** An event as the replay sees it: a batch is complete if the disk takes all of its files. */
  ghost function Seen(z: Sizes, r: Schedule.Replay<Row>, e: Event): Schedule.Happened<Row>
    requires z.perHeaderFile > 0
  {
    match e
    case Block(hash, row) => Schedule.Block(if hash.Some? then row else None)
    case Seal(writes, killed) => Schedule.Seal(writes >= BatchFiles(z, SpanDone(z, r.durable + z.perFile)), killed)
    case Reorg(to) => Schedule.Reorg(to)
    case Kill => Schedule.Kill
  }

  /** The log that a schedule leaves, from an empty directory on. */
  ghost function Replayed(z: Sizes, depth: nat, events: seq<Event>): (r: Schedule.Replay<Row>)
    requires z.perHeaderFile > 0
    ensures Schedule.Sound(r)
  {
    if events == [] then Schedule.Replay([], 0, true)
    else
      var r := Replayed(z, depth, events[..|events| - 1]);
      if !r.alive then r else Schedule.After(RulesOf(z, depth), r, Seen(z, r, events[|events| - 1]))
  }

  lemma {:induction false} DeadStays(z: Sizes, depth: nat, events: seq<Event>, k: nat)
    requires z.perHeaderFile > 0 && k <= |events| && !Replayed(z, depth, events[..k]).alive
    ensures Replayed(z, depth, events) == Replayed(z, depth, events[..k])
    decreases |events|
  {
    if k == |events| {
      assert events[..k] == events;
    } else {
      assert events[..|events| - 1][..k] == events[..k];
      DeadStays(z, depth, events[..|events| - 1], k);
    }
  }

  /** One event takes a standing producer where the replay says, or ends the process there. */
  ghost predicate Happens(z: Sizes, depth: nat, r: Schedule.Replay<Row>, e: Event, alive: bool,
                          log: seq<Row>, lastSealed: int, end: int)
    requires z.perHeaderFile > 0 && Schedule.Sound(r)
  {
    var t := Schedule.After(RulesOf(z, depth), r, Seen(z, r, e));
    && (alive <==> !Schedule.Dies(RulesOf(z, depth), r, Seen(z, r, e)))
    && (alive ==> log == t.log && lastSealed + 1 == t.durable && end == |log|)
    && (!alive ==> end == t.durable <= |log| && log[..end] == t.log)
  }

  lemma SealHappens(z: Sizes, depth: nat, r: Schedule.Replay<Row>, current: int, writes: nat, killed: bool)
    requires ValidSizes(z) && Schedule.Sound(r) && r.alive && current == (if r.log == [] then 0 else |r.log| - 1)
    ensures var e, due, ok := Seal(writes, killed), r.durable - 1 + z.perFile <= current - depth,
                              writes >= BatchFiles(z, SpanDone(z, r.durable + z.perFile));
            && (!due ==> Happens(z, depth, r, e, true, r.log, r.durable - 1, |r.log|))
            && (due ==> r.durable + z.perFile <= |r.log|)
            && (due && ok && !killed ==> Happens(z, depth, r, e, true, r.log, r.durable - 1 + z.perFile, |r.log|))
            && (due && (!ok || killed) ==>
                  Happens(z, depth, r, e, false, r.log, r.durable - 1, r.durable + if ok then z.perFile else 0))
  {
  }

  /** In what a schedule leaves, a block after a rollback stands for the one given up. */
  lemma BlockAfterReorg(z: Sizes, depth: nat, events: seq<Event>, to: int, hash: Hash, row: Row)
    requires z.perHeaderFile > 0 && Replayed(z, depth, events).alive
    requires Replayed(z, depth, events).durable <= to < |Replayed(z, depth, events).log|
    ensures Replayed(z, depth, events + [Reorg(to), Block(Some(hash), Some(row))]).log
            == Replayed(z, depth, events).log[..to + 1] + [row]
  {
    var cut, all := events + [Reorg(to)], events + [Reorg(to), Block(Some(hash), Some(row))];
    assert cut[..|cut| - 1] == events && all[..|all| - 1] == cut;
    assert Replayed(z, depth, cut).log == Replayed(z, depth, events).log[..to + 1];
  }
}
