/**
 * What the custom filter producer's disk and memory must hold, stated against the log
 * of ingested rows (one filter per configuration and height): filter files hold columns
 * of the log, header files and the header map hold folds over those columns.
 */
module CustomChain {
  import opened Basics
  import opened Wire
  import opened FilterChain
  import FilterFile

  /** A serialized filter; one that the file readers would refuse cannot come from a block. */
  type Filter = b: Blob | |b| <= MAX_MESSAGE_PAYLOAD

  type Row = seq<Filter>

  /** `count` configurations; filters and filter headers per file. */
  datatype Sizes = Sizes(count: nat, perFile: nat, perHeaderFile: nat)

  predicate ValidSizes(z: Sizes) {
    z.count >= 1 && z.perFile >= 2 && z.perHeaderFile > 0 && z.perHeaderFile % z.perFile == 0
  }

  predicate Rows(z: Sizes, log: seq<Row>) {
    forall h :: 0 <= h < |log| ==> |log[h]| == z.count
  }

  // ---------- columns and their filter headers ----------

  function Column(z: Sizes, log: seq<Row>, c: nat): (col: seq<Blob>)
    requires Rows(z, log) && c < z.count
    ensures |col| == |log|
    ensures forall h :: 0 <= h < |log| ==> col[h] == log[h][c]
  {
    seq<Blob>(|log|, h requires 0 <= h < |log| => log[h][c])
  }

  /** The filter header of configuration `c` after the first `n` heights. */
  function HeaderAfter(H: Hasher, z: Sizes, log: seq<Row>, c: nat, n: nat): Hash
    requires Rows(z, log) && c < z.count && n <= |log|
  {
    Fold(H, ZERO_HASH, Column(z, log, c)[..n])
  }

  /** The row of filter headers at a height. */
  predicate IsHeaderRow(H: Hasher, z: Sizes, log: seq<Row>, n: nat, row: seq<Hash>)
    requires Rows(z, log) && n <= |log|
  {
    |row| == z.count && forall c :: 0 <= c < z.count ==> row[c] == HeaderAfter(H, z, log, c, n)
  }

  /** Headers depend on the rows below only. */
  lemma HeaderAfterCut(H: Hasher, z: Sizes, log: seq<Row>, other: seq<Row>, c: nat, n: nat)
    requires Rows(z, log) && Rows(z, other) && c < z.count && n <= |log| && n <= |other|
    requires log[..n] == other[..n]
    ensures HeaderAfter(H, z, log, c, n) == HeaderAfter(H, z, other, c, n)
  {
    var a, b := Column(z, log, c)[..n], Column(z, other, c)[..n];
    forall h | 0 <= h < n ensures a[h] == b[h] {
      assert log[h] == log[..n][h] == other[..n][h] == other[h];
    }
    assert a == b;
  }

  lemma HeaderRowCut(H: Hasher, z: Sizes, log: seq<Row>, other: seq<Row>, n: nat, row: seq<Hash>)
    requires Rows(z, log) && Rows(z, other) && n <= |log| && n <= |other| && log[..n] == other[..n]
    requires IsHeaderRow(H, z, log, n, row)
    ensures IsHeaderRow(H, z, other, n, row)
  {
    forall c | 0 <= c < z.count ensures row[c] == HeaderAfter(H, z, other, c, n) {
      HeaderAfterCut(H, z, log, other, c, n);
    }
  }

  /** One more row chains onto the headers below it. */
  lemma HeaderAfterNext(H: Hasher, z: Sizes, log: seq<Row>, row: Row, c: nat)
    requires Rows(z, log) && |row| == z.count && c < z.count
    ensures Rows(z, log + [row])
    ensures HeaderAfter(H, z, log + [row], c, |log| + 1)
            == FilterHeader(H, row[c], HeaderAfter(H, z, log, c, |log|))
  {
    var all := Column(z, log + [row], c);
    assert all[..|log| + 1] == Column(z, log, c) + [row[c]];
    assert Column(z, log, c)[..|log|] == Column(z, log, c);
    FoldSnoc(H, ZERO_HASH, Column(z, log, c), row[c]);
  }

  /** Chaining a stretch of the column onto the header before it gives the header after it. */
  lemma HeaderAfterStretch(H: Hasher, z: Sizes, log: seq<Row>, c: nat, from: nat, n: nat)
    requires Rows(z, log) && c < z.count && from <= n <= |log|
    ensures HeaderAfter(H, z, log, c, n)
            == Fold(H, HeaderAfter(H, z, log, c, from), Column(z, log, c)[from..n])
  {
    var col := Column(z, log, c);
    assert col[..n] == col[..from] + col[from..n];
    FoldConcat(H, ZERO_HASH, col[..from], col[from..n]);
  }

  // ---------- header files ----------

  /** Raw 32-byte hashes one after the other. */
  function HashBytes(hs: seq<Hash>): (bs: Bytes)
    ensures |bs| == HASH_SIZE * |hs|
  {
    if hs == [] then [] else HashBytes(hs[..|hs| - 1]) + hs[|hs| - 1]
  }

  lemma HashBytesSnoc(hs: seq<Hash>, h: Hash)
    ensures HashBytes(hs + [h]) == HashBytes(hs) + h
  {
    assert (hs + [h])[..|hs|] == hs;
  }

  lemma LastHash(hs: seq<Hash>)
    requires hs != []
    ensures |HashBytes(hs)| >= HASH_SIZE
    ensures HashBytes(hs)[|HashBytes(hs)| - HASH_SIZE..] == hs[|hs| - 1]
  {
  }

  /** The headers of configuration `c` for the heights `from..to-1`. */
  function HeaderStretch(H: Hasher, z: Sizes, log: seq<Row>, c: nat, from: nat, to: nat): (hs: seq<Hash>)
    requires Rows(z, log) && c < z.count && from <= to <= |log|
    ensures |hs| == to - from
    ensures forall i :: 0 <= i < |hs| ==> hs[i] == HeaderAfter(H, z, log, c, from + i + 1)
  {
    seq<Hash>(to - from, i requires 0 <= i < to - from => HeaderAfter(H, z, log, c, from + i + 1))
  }

  lemma HeaderStretchCut(H: Hasher, z: Sizes, log: seq<Row>, other: seq<Row>, c: nat, from: nat, to: nat)
    requires Rows(z, log) && Rows(z, other) && c < z.count && from <= to <= |log| && to <= |other|
    requires log[..to] == other[..to]
    ensures HeaderStretch(H, z, log, c, from, to) == HeaderStretch(H, z, other, c, from, to)
  {
    var a, b := HeaderStretch(H, z, log, c, from, to), HeaderStretch(H, z, other, c, from, to);
    forall i | 0 <= i < to - from ensures a[i] == b[i] {
      var n := from + i + 1;
      assert log[..n] == log[..to][..n] == other[..to][..n] == other[..n];
      HeaderAfterCut(H, z, log, other, c, n);
    }
  }

  // ---------- the directories ----------

  /** Files by configuration and start height. */
  type Dir = map<(nat, int), Bytes>

  /** A file of `size` entries that starts at `s` lies below `end`. */
  predicate Below(s: int, size: nat, end: int)
    requires size > 0
  {
    0 <= s && s % size == 0 && s + size <= end
  }

  predicate FilterFileHolds(z: Sizes, log: seq<Row>, c: nat, s: int, data: Bytes)
    requires Rows(z, log) && c < z.count && 0 <= s && s + z.perFile <= |log|
  {
    data == FilterFile.Serialize(Column(z, log, c)[s..s + z.perFile])
  }

  predicate HeaderFileHolds(H: Hasher, z: Sizes, log: seq<Row>, c: nat, t: int, data: Bytes)
    requires Rows(z, log) && c < z.count && 0 <= t && t + z.perHeaderFile <= |log|
  {
    data == HashBytes(HeaderStretch(H, z, log, c, t, t + z.perHeaderFile))
  }

  /**
   * The first `end` heights of the log are durable. The first configuration's files are
   * exactly the completed ones: a leftover of an interrupted batch never has one.
   */
  ghost predicate OnDisk(H: Hasher, z: Sizes, log: seq<Row>, end: int, filterFiles: Dir, headerFiles: Dir) {
    && ValidSizes(z) && Rows(z, log)
    && 0 <= end <= |log| && end % z.perFile == 0
    && (forall s :: (0, s) in filterFiles <==> Below(s, z.perFile, end))
    && (forall c: nat, s :: c < z.count && Below(s, z.perFile, end) ==>
          (c, s) in filterFiles && FilterFileHolds(z, log, c, s, filterFiles[(c, s)]))
    && (forall c: nat, t :: c < z.count && Below(t, z.perHeaderFile, end) ==>
          (c, t) in headerFiles && HeaderFileHolds(H, z, log, c, t, headerFiles[(c, t)]))
  }

  /** Replacing the part of the log that is not durable leaves the disk as good. */
  lemma FilterFileCut(z: Sizes, log: seq<Row>, other: seq<Row>, end: int, c: nat, s: int, data: Bytes)
    requires Rows(z, log) && Rows(z, other) && 0 <= end <= |log| && end <= |other| && log[..end] == other[..end]
    requires ValidSizes(z) && c < z.count && Below(s, z.perFile, end) && FilterFileHolds(z, log, c, s, data)
    ensures FilterFileHolds(z, other, c, s, data)
  {
    var a, b := Column(z, log, c)[s..s + z.perFile], Column(z, other, c)[s..s + z.perFile];
    forall i | 0 <= i < z.perFile ensures a[i] == b[i] {
      assert log[s + i] == log[..end][s + i] == other[..end][s + i] == other[s + i];
    }
    assert a == b;
  }

  lemma HeaderFileCut(H: Hasher, z: Sizes, log: seq<Row>, other: seq<Row>, end: int, c: nat, t: int, data: Bytes)
    requires Rows(z, log) && Rows(z, other) && 0 <= end <= |log| && end <= |other| && log[..end] == other[..end]
    requires ValidSizes(z) && c < z.count && Below(t, z.perHeaderFile, end) && HeaderFileHolds(H, z, log, c, t, data)
    ensures HeaderFileHolds(H, z, other, c, t, data)
  {
    var to := t + z.perHeaderFile;
    assert log[..to] == log[..end][..to] == other[..end][..to] == other[..to];
    HeaderStretchCut(H, z, log, other, c, t, to);
  }

  lemma OnDiskCut(H: Hasher, z: Sizes, log: seq<Row>, other: seq<Row>, end: int, filterFiles: Dir, headerFiles: Dir)
    requires OnDisk(H, z, log, end, filterFiles, headerFiles)
    requires Rows(z, other) && end <= |other| && log[..end] == other[..end]
    ensures OnDisk(H, z, other, end, filterFiles, headerFiles)
  {
    forall c: nat, s | c < z.count && Below(s, z.perFile, end)
      ensures FilterFileHolds(z, other, c, s, filterFiles[(c, s)])
    {
      assert FilterFileHolds(z, log, c, s, filterFiles[(c, s)]);
      FilterFileCut(z, log, other, end, c, s, filterFiles[(c, s)]);
    }
    forall c: nat, t | c < z.count && Below(t, z.perHeaderFile, end)
      ensures HeaderFileHolds(H, z, other, c, t, headerFiles[(c, t)])
    {
      assert HeaderFileHolds(H, z, log, c, t, headerFiles[(c, t)]);
      HeaderFileCut(H, z, log, other, end, c, t, headerFiles[(c, t)]);
    }
  }

  // ---------- the header map ----------

  /** Where the filter header span starts that no header file covers yet. */
  function SpanStart(z: Sizes, end: int): int
    requires ValidSizes(z)
  {
    end - end % z.perHeaderFile
  }

  /** The map holds the headers of `from..to-1`. */
  ghost predicate HoldsHeaders(H: Hasher, z: Sizes, log: seq<Row>, headers: map<int, seq<Hash>>, from: int, to: int)
    requires Rows(z, log) && 0 <= from && to <= |log|
  {
    forall h :: from <= h < to ==> h in headers && IsHeaderRow(H, z, log, h + 1, headers[h])
  }

  /**
   * Nothing below the span; and either the whole span up to the tip, or, right after a
   * restart, nothing at all. Entries above the tip may be stale.
   */
  ghost predicate HeadersInMemory(H: Hasher, z: Sizes, log: seq<Row>, end: int, headers: map<int, seq<Hash>>) {
    && ValidSizes(z) && Rows(z, log) && 0 <= end <= |log|
    && (forall h :: h in headers ==> SpanStart(z, end) <= h)
    && SpanStart(z, end) >= 0
    && ((headers == map[] && |log| == end) || HoldsHeaders(H, z, log, headers, SpanStart(z, end), |log|))
  }

  /** A rollback keeps what is at or below it; what it leaves above is not claimed. */
  lemma HeadersSurviveRollback(H: Hasher, z: Sizes, log: seq<Row>, end: int, headers: map<int, seq<Hash>>, n: nat)
    requires HeadersInMemory(H, z, log, end, headers) && end < n <= |log|
    ensures HeadersInMemory(H, z, log[..n], end, headers)
  {
    var cut := log[..n];
    forall h | SpanStart(z, end) <= h < n ensures h in headers && IsHeaderRow(H, z, cut, h + 1, headers[h]) {
      assert cut[..h + 1] == log[..h + 1];
      HeaderRowCut(H, z, log, cut, h + 1, headers[h]);
    }
  }

  /** One more row with its headers, stale entries or not. */
  lemma HeadersGrow(H: Hasher, z: Sizes, log: seq<Row>, end: int, headers: map<int, seq<Hash>>, row: Row, hs: seq<Hash>)
    requires HeadersInMemory(H, z, log, end, headers) && HoldsHeaders(H, z, log, headers, SpanStart(z, end), |log|)
    requires |row| == z.count && Rows(z, log + [row]) && IsHeaderRow(H, z, log + [row], |log| + 1, hs)
    ensures HeadersInMemory(H, z, log + [row], end, headers[|log| := hs])
    ensures HoldsHeaders(H, z, log + [row], headers[|log| := hs], SpanStart(z, end), |log| + 1)
  {
    var log', headers' := log + [row], headers[|log| := hs];
    forall h | SpanStart(z, end) <= h < |log'| ensures h in headers' && IsHeaderRow(H, z, log', h + 1, headers'[h]) {
      if h < |log| {
        assert log'[..h + 1] == log[..h + 1];
        HeaderRowCut(H, z, log, log', h + 1, headers[h]);
      }
    }
  }

  // ---------- spans and boundaries ----------

  lemma SpanAligned(z: Sizes, end: int)
    requires ValidSizes(z) && 0 <= end && end % z.perFile == 0
    ensures var a := SpanStart(z, end);
            0 <= a <= end && a % z.perHeaderFile == 0 && a % z.perFile == 0 && (end - a) % z.perFile == 0
    ensures SpanStart(z, end) == (end / z.perHeaderFile) * z.perHeaderFile
  {
    var p, e := z.perHeaderFile, z.perFile;
    var a := SpanStart(z, end);
    assert a == (end / p) * p;
    MulBound(end / p, p);
    DivMod(a, p, end / p, 0);
    MultipleOfMultiple(a, p, e);
    assert end - a == (end / e - a / e) * e;
    DivMod(end - a, e, end / e - a / e, 0);
  }

  /** Sealing one more file either completes the header span or stays inside it. */
  lemma SpanAfterSeal(z: Sizes, end: int)
    requires ValidSizes(z) && 0 <= end && end % z.perFile == 0
    ensures var end' := end + z.perFile;
            SpanStart(z, end') == if end' % z.perHeaderFile == 0 then end' else SpanStart(z, end)
    ensures (end + z.perFile) % z.perHeaderFile == 0 ==>
              SpanStart(z, end) == end + z.perFile - z.perHeaderFile
  {
    var p, e := z.perHeaderFile, z.perFile;
    var r := end % p;
    SpanAligned(z, end);
    assert r % e == 0;
    if p < r + e {
      AlignedGap(r, p, e);
      assert false;
    }
    if r + e < p {
      DivMod(end + e, p, end / p, r + e);
    } else {
      DivMod(end + e, p, end / p + 1, 0);
    }
  }

  /** A header file that becomes due with this seal is the one the seal completes. */
  lemma NewHeaderFile(z: Sizes, end: int, t: int)
    requires ValidSizes(z) && 0 <= end && end % z.perFile == 0
    requires Below(t, z.perHeaderFile, end + z.perFile) && !Below(t, z.perHeaderFile, end)
    ensures t + z.perHeaderFile == end + z.perFile && (end + z.perFile) % z.perHeaderFile == 0
  {
    var p, e := z.perHeaderFile, z.perFile;
    ModStep(t, p);
    MultipleOfMultiple(t + p, p, e);
    ModStep(end, e);
    AlignedGap(t + p, end + e, e);
  }

  lemma NewFilterFile(z: Sizes, end: int, s: int)
    requires ValidSizes(z) && 0 <= end && end % z.perFile == 0
    ensures Below(s, z.perFile, end + z.perFile) <==> Below(s, z.perFile, end) || s == end
  {
    if Below(s, z.perFile, end + z.perFile) && !Below(s, z.perFile, end) {
      AlignedGap(s, end, z.perFile);
    }
  }

  // ---------- a batch on disk ----------

  /** The directories differ from before only in files that start at `s`. */
  ghost predicate OnlyAt(before: Dir, after: Dir, s: int) {
    && (forall k :: k in before && k.1 != s ==> k in after && after[k] == before[k])
    && (forall k :: k in after && k.1 != s ==> k in before)
  }

  /** The configurations `from..to-1` have their filter file for the range at `s`. */
  ghost predicate FiltersWritten(z: Sizes, log: seq<Row>, files: Dir, s: int, from: nat, to: nat)
    requires Rows(z, log) && to <= z.count && 0 <= s && s + z.perFile <= |log|
  {
    forall c: nat :: from <= c < to ==> (c, s) in files && FilterFileHolds(z, log, c, s, files[(c, s)])
  }

  /** The configurations below `to` have their header file for the span at `t`. */
  ghost predicate HeadersWritten(H: Hasher, z: Sizes, log: seq<Row>, files: Dir, t: int, to: nat)
    requires Rows(z, log) && to <= z.count && 0 <= t && t + z.perHeaderFile <= |log|
  {
    forall c: nat :: c < to ==> (c, t) in files && HeaderFileHolds(H, z, log, c, t, files[(c, t)])
  }

  /** A file that ends at `end` completes a header span. */
  predicate SpanDone(z: Sizes, end: int)
    requires z.perHeaderFile > 0
  {
    end % z.perHeaderFile == 0
  }

  /** The header directory after a batch whose span, if it completes one, starts at `t`. */
  ghost predicate HeaderBatch(H: Hasher, z: Sizes, log: seq<Row>, t: int, spanDone: bool,
                              before: Dir, after: Dir, all: bool)
    requires Rows(z, log) && (spanDone ==> 0 <= t && t + z.perHeaderFile <= |log|)
  {
    if spanDone then OnlyAt(before, after, t) && (all ==> HeadersWritten(H, z, log, after, t, z.count))
    else after == before
  }

  /** The filter directory after the batch: complete, or without the resume configuration's file. */
  ghost predicate FilterBatch(z: Sizes, log: seq<Row>, end: int, before: Dir, after: Dir, all: bool)
    requires Rows(z, log) && 0 <= end && end + z.perFile <= |log|
  {
    OnlyAt(before, after, end) && if all then FiltersWritten(z, log, after, end, 0, z.count) else (0, end) !in after
  }

  /** An interrupted batch, without the first configuration's file, is a harmless leftover. */
  lemma LeftoversAreHarmless(H: Hasher, z: Sizes, log: seq<Row>, end: int, t: int,
                             filterFiles: Dir, headerFiles: Dir, filterFiles': Dir, headerFiles': Dir)
    requires OnDisk(H, z, log, end, filterFiles, headerFiles) && end + z.perFile <= |log|
    requires t == end + z.perFile - z.perHeaderFile && (SpanDone(z, end + z.perFile) ==> 0 <= t)
    requires FilterBatch(z, log, end, filterFiles, filterFiles', false)
    requires HeaderBatch(H, z, log, t, SpanDone(z, end + z.perFile), headerFiles, headerFiles', false)
    ensures OnDisk(H, z, log, end, filterFiles', headerFiles')
  {
    forall c: nat, u | c < z.count && Below(u, z.perHeaderFile, end)
      ensures (c, u) in headerFiles' && HeaderFileHolds(H, z, log, c, u, headerFiles'[(c, u)])
    {
      assert (c, u) in headerFiles && HeaderFileHolds(H, z, log, c, u, headerFiles[(c, u)]);
    }
    forall c: nat, s | c < z.count && Below(s, z.perFile, end)
      ensures (c, s) in filterFiles' && FilterFileHolds(z, log, c, s, filterFiles'[(c, s)])
    {
      assert (c, s) in filterFiles && FilterFileHolds(z, log, c, s, filterFiles[(c, s)]);
    }
  }

  /** The header files a complete batch leaves cover one file range more. */
  lemma BatchHeaders(H: Hasher, z: Sizes, log: seq<Row>, end: int, t: int, filterFiles: Dir, before: Dir, after: Dir,
                     c: nat, u: int)
    requires OnDisk(H, z, log, end, filterFiles, before) && end + z.perFile <= |log|
    requires t == end + z.perFile - z.perHeaderFile && (SpanDone(z, end + z.perFile) ==> 0 <= t)
    requires HeaderBatch(H, z, log, t, SpanDone(z, end + z.perFile), before, after, true)
    requires c < z.count && Below(u, z.perHeaderFile, end + z.perFile)
    ensures (c, u) in after && HeaderFileHolds(H, z, log, c, u, after[(c, u)])
  {
    if Below(u, z.perHeaderFile, end) {
      assert (c, u) in before && HeaderFileHolds(H, z, log, c, u, before[(c, u)]);
    } else {
      NewHeaderFile(z, end, u);
    }
  }

  lemma BatchFilters(H: Hasher, z: Sizes, log: seq<Row>, end: int, before: Dir, headerFiles: Dir, after: Dir)
    requires OnDisk(H, z, log, end, before, headerFiles) && end + z.perFile <= |log|
    requires FilterBatch(z, log, end, before, after, true)
    ensures forall s :: (0, s) in after <==> Below(s, z.perFile, end + z.perFile)
    ensures forall c: nat, s :: c < z.count && Below(s, z.perFile, end + z.perFile) ==>
              (c, s) in after && FilterFileHolds(z, log, c, s, after[(c, s)])
  {
    ModStep(end, z.perFile);
    forall s ensures Below(s, z.perFile, end + z.perFile) <==> Below(s, z.perFile, end) || s == end {
      NewFilterFile(z, end, s);
    }
    forall c: nat, s | c < z.count && Below(s, z.perFile, end + z.perFile)
      ensures (c, s) in after && FilterFileHolds(z, log, c, s, after[(c, s)])
    {
      if s != end {
        assert (c, s) in before && FilterFileHolds(z, log, c, s, before[(c, s)]);
      }
    }
  }

  /** A complete batch extends what is durable by one file. */
  lemma BatchOnDisk(H: Hasher, z: Sizes, log: seq<Row>, end: int, t: int,
                    filterFiles: Dir, headerFiles: Dir, filterFiles': Dir, headerFiles': Dir)
    requires OnDisk(H, z, log, end, filterFiles, headerFiles) && end + z.perFile <= |log|
    requires t == end + z.perFile - z.perHeaderFile && (SpanDone(z, end + z.perFile) ==> 0 <= t)
    requires FilterBatch(z, log, end, filterFiles, filterFiles', true)
    requires HeaderBatch(H, z, log, t, SpanDone(z, end + z.perFile), headerFiles, headerFiles', true)
    ensures OnDisk(H, z, log, end + z.perFile, filterFiles', headerFiles')
  {
    ModStep(end, z.perFile);
    BatchFilters(H, z, log, end, filterFiles, headerFiles, filterFiles');
    forall c: nat, u | c < z.count && Below(u, z.perHeaderFile, end + z.perFile)
      ensures (c, u) in headerFiles' && HeaderFileHolds(H, z, log, c, u, headerFiles'[(c, u)])
    {
      BatchHeaders(H, z, log, end, t, filterFiles, headerFiles, headerFiles', c, u);
    }
  }

  lemma BatchOutcome(H: Hasher, z: Sizes, log: seq<Row>, end: int, t: int,
                     filterFiles: Dir, headerFiles: Dir, filterFiles': Dir, headerFiles': Dir, all: bool)
    requires OnDisk(H, z, log, end, filterFiles, headerFiles) && end + z.perFile <= |log|
    requires t == end + z.perFile - z.perHeaderFile && (SpanDone(z, end + z.perFile) ==> 0 <= t)
    requires FilterBatch(z, log, end, filterFiles, filterFiles', all)
    requires HeaderBatch(H, z, log, t, SpanDone(z, end + z.perFile), headerFiles, headerFiles', all)
    ensures OnDisk(H, z, log, if all then end + z.perFile else end, filterFiles', headerFiles')
  {
    if all {
      BatchOnDisk(H, z, log, end, t, filterFiles, headerFiles, filterFiles', headerFiles');
    } else {
      LeftoversAreHarmless(H, z, log, end, t, filterFiles, headerFiles, filterFiles', headerFiles');
    }
  }

  /** Presence of the resume configuration's file implies the rest of its batch. */
  lemma ResumeFileImpliesBatch(H: Hasher, z: Sizes, log: seq<Row>, end: int, filterFiles: Dir, headerFiles: Dir, s: int)
    requires OnDisk(H, z, log, end, filterFiles, headerFiles) && (0, s) in filterFiles
    ensures forall c: nat :: c < z.count ==> (c, s) in filterFiles
    ensures forall c: nat, t :: c < z.count && Below(t, z.perHeaderFile, s + z.perFile) ==> (c, t) in headerFiles
  {
    forall c: nat | c < z.count ensures (c, s) in filterFiles {
      assert Below(s, z.perFile, end);
    }
    forall c: nat, t | c < z.count && Below(t, z.perHeaderFile, s + z.perFile) ensures (c, t) in headerFiles {
      assert Below(t, z.perHeaderFile, end);
    }
  }
}
