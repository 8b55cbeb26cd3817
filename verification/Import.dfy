/**
 * The height-based endpoints: an import stitches all sealed files and the memory tail
 * into one response from height 0 to an exclusive end, a range request answers with one
 * sealed file or with memory up to the tip. Both are served from a producer state with
 * no file half promoted. Request heights are int64 and are narrowed to int32 on the way,
 * as the server does.
 */
module Import {
  import opened Basics
  import opened Wire
  import opened ProducerLog

  /** Cache for a year, or for a minute. */
  datatype Tier = Disk | Memory

  /** A refusal, a complete body, or a body that broke off. */
  datatype Answer = Refused | Full(tier: Tier, body: Bytes) | Broken(tier: Tier)

  const METADATA_SIZE := 10
  const HEADER_IMPORT_VERSION: byte := 0
  const MAX_INT32 := 0x7fff_ffff

  /** The conversion int32(n). */
  function ToInt32(n: int): int {
    (n + 0x8000_0000) % 0x1_0000_0000 - 0x8000_0000
  }

  /** Network, version, file type and the start height, which is always 0. */
  function Metadata(net: uint32, fileType: byte): (m: Bytes)
    ensures |m| == METADATA_SIZE
  {
    LittleEndian(net, 4) + [HEADER_IMPORT_VERSION, fileType] + LittleEndian(0, 4)
  }

  /** A state to serve from. */
  ghost predicate Serving(p: Params, s: State<Bytes>) {
    Good(p, s) && !s.written && 0 <= s.current < MAX_INT32
  }

  // ---------- what a request asks for ----------

  /** The last memory index an import asks for: int32(endHeight)-1, in 32-bit arithmetic. */
  function LastIndex(endHeight: int): int {
    ToInt32(ToInt32(endHeight) - 1)
  }

  /** Where an import ends: past the sealed files only the low 32 bits of the end count. */
  function ServedEnd(s: State<Bytes>, endHeight: int): int {
    var boundary := s.lastSealed + 1;
    if endHeight <= boundary then endHeight
    else if LastIndex(endHeight) + 1 < boundary then boundary
    else LastIndex(endHeight) + 1
  }

  /** The heights the hash cache or the backend can name at the moment. */
  type Names = int -> bool

  /** The answer of a server whose files and connection do not fail. */
  ghost function ImportAnswer(p: Params, s: State<Bytes>, known: Names, net: uint32, fileType: byte, endHeight: int): Answer
    requires Serving(p, s) && endHeight >= 0
  {
    var tier := if endHeight <= s.lastSealed + 1 then Disk else Memory;
    var end := ServedEnd(s, endHeight);
    if tier.Disk? && endHeight % p.size != 0 then Refused
    else if tier.Memory? && (!known(s.lastSealed + 1) || end > |Log(p, s)|) then Broken(tier)
    else Full(tier, Metadata(net, fileType) + Concat(Log(p, s)[..end]))
  }

  predicate EndHeightAccepted(s: State<Bytes>, height: int) {
    ToInt32(height) <= s.current + 1 && height != 0
  }

  ghost function NumericAnswer(p: Params, s: State<Bytes>, known: Names, net: uint32, fileType: byte, endHeight: int): Answer
    requires Serving(p, s) && endHeight >= 0
  {
    if EndHeightAccepted(s, endHeight) then ImportAnswer(p, s, known, net, fileType, endHeight) else Refused
  }

  predicate StartHeightAccepted(p: Params, s: State<Bytes>, height: int)
    requires p.size > 0
  {
    ToInt32(height) <= s.current && (height == 0 || height % p.size == 0)
  }

  // ---------- files and memory as parts of the log ----------

  lemma FileIsLogSlice(p: Params, s: State<Bytes>, start: int)
    requires Serving(p, s) && start in s.files
    ensures 0 <= start && start + p.size <= |Log(p, s)|
    ensures s.files[start] == Log(p, s)[start..start + p.size]
  {
    DiskEndAligned(p, s);
    forall i | 0 <= i < p.size ensures s.files[start][i] == Log(p, s)[start + i] {
      DurableIsOnDisk(p, s, start + i);
      PlaceInFile(p.size, start, i);
    }
  }

  lemma MemoryIsLogSlice(p: Params, s: State<Bytes>, from: int, to: int)
    requires Serving(p, s) && s.lastSealed < from <= to <= |Log(p, s)|
    ensures Covers(s.mem, from, to) && Range(s.mem, from, to) == Log(p, s)[from..to]
  {
  }

  /** One more file: the walk stays within the end and inside the sealed part. */
  lemma NextFile(p: Params, s: State<Bytes>, start: int, end: int)
    requires Serving(p, s) && start in s.files && start < end
    requires end <= s.lastSealed + 1 ==> end % p.size == 0
    ensures start + p.size <= end && (start + p.size) % p.size == 0 && start + p.size <= s.lastSealed + 1
  {
    ModStep(start, p.size);
    if end < start + p.size {
      AlignedGap(start, end, p.size);
    }
  }

  /** The walk stops exactly behind the last sealed file. */
  lemma NoFileIsTheEnd(p: Params, s: State<Bytes>, start: int)
    requires Serving(p, s) && start !in s.files && 0 <= start <= s.lastSealed + 1 && start % p.size == 0
    ensures start == s.lastSealed + 1
  {
    if start <= s.lastSealed {
      AlignedGap(start, s.lastSealed + 1, p.size);
    }
  }

  /** The entries `first..last` from memory; a missing height ends the output early. */
  method SerializeEntries(mem: map<int, Bytes>, first: int, last: int) returns (out: Bytes, ok: bool)
    ensures ok <==> Covers(mem, first, last + 1)
    ensures ok ==> out == Concat(Span(mem, first, last))
  {
    out := [];
    var j := first;
    while j <= last
      invariant first <= j && (j <= last + 1 || j == first)
      invariant Covers(mem, first, j)
      invariant out == Concat(Span(mem, first, j - 1))
    {
      if j !in mem {
        return out, false;
      }
      ConcatNext(mem, first, j);
      out := out + mem[j];
      j := j + 1;
    }
    assert last < first ==> Span(mem, first, j - 1) == [];
    ok := true;
  }

  lemma ConcatNext(mem: map<int, Bytes>, first: int, j: int)
    requires first <= j && Covers(mem, first, j + 1)
    ensures Concat(Span(mem, first, j)) == Concat(Span(mem, first, j - 1)) + mem[j]
  {
    var before := Span(mem, first, j - 1);
    assert Span(mem, first, j)[..|before|] == before;
  }

  // ---------- serving ----------

  /** The file part: everything up to the end, or everything that is sealed. */
  method StreamFiles(p: Params, s: State<Bytes>, endHeight: int, healthy: bool)
    returns (sent: Bytes, lastHeight: int, torn: bool)
    requires Serving(p, s) && endHeight >= 0
    requires endHeight <= s.lastSealed + 1 ==> endHeight % p.size == 0
    ensures torn ==> !healthy
    ensures !torn ==> lastHeight == if endHeight <= s.lastSealed + 1 then endHeight else s.lastSealed + 1
    ensures !torn ==> 0 <= lastHeight <= |Log(p, s)| && sent == Concat(Log(p, s)[..lastHeight])
  {
    sent, lastHeight, torn := [], 0, false;
    assert Concat(Log(p, s)[..0]) == [];
    while lastHeight < endHeight && lastHeight in s.files
      invariant 0 <= lastHeight <= s.lastSealed + 1 && lastHeight <= endHeight && lastHeight % p.size == 0
      invariant 0 <= lastHeight <= |Log(p, s)| && sent == Concat(Log(p, s)[..lastHeight])
      decreases endHeight - lastHeight
    {
      var fails: bool := *;
      if !healthy && fails {
        return sent, lastHeight, true;
      }
      NextFile(p, s, lastHeight, endHeight);
      ConcatFile(p, s, lastHeight);
      sent := sent + Concat(s.files[lastHeight]);
      lastHeight := lastHeight + p.size;
    }
    if lastHeight < endHeight {
      NoFileIsTheEnd(p, s, lastHeight);
    }
  }

  lemma ConcatFile(p: Params, s: State<Bytes>, start: int)
    requires Serving(p, s) && start in s.files
    ensures 0 <= start && start + p.size <= |Log(p, s)|
    ensures Concat(Log(p, s)[..start + p.size]) == Concat(Log(p, s)[..start]) + Concat(s.files[start])
  {
    FileIsLogSlice(p, s, start);
    SplitAt(Log(p, s), start, start + p.size);
  }

  lemma SplitAt(log: seq<Bytes>, from: nat, to: nat)
    requires from <= to <= |log|
    ensures Concat(log[..to]) == Concat(log[..from]) + Concat(log[from..to])
  {
    ConcatAppend(log[..from], log[from..to]);
    assert log[..from] + log[from..to] == log[..to];
  }

  /**
   * Streams an import. With nothing failing, the answer is exactly the one the request
   * asks for; a failure on the way only ever breaks it off.
   */
  method ServeImport(p: Params, s: State<Bytes>, known: Names, net: uint32, fileType: byte, endHeight: int, healthy: bool)
    returns (r: Answer)
    requires Serving(p, s) && endHeight >= 0
    ensures r == ImportAnswer(p, s, known, net, fileType, endHeight)
            || (!healthy && !ImportAnswer(p, s, known, net, fileType, endHeight).Refused? && r.Broken?)
  {
    var tier := Memory;
    if endHeight <= s.lastSealed + 1 {
      tier := Disk;
      if endHeight % p.size != 0 {
        return Refused;
      }
    }
    var metadata := Metadata(net, fileType);
    var sent, lastHeight, torn := StreamFiles(p, s, endHeight, healthy);
    if torn {
      return Broken(tier);
    }
    if lastHeight == endHeight {
      return Full(tier, metadata + sent);
    }
    r := ServeTail(p, s, known, net, fileType, endHeight, lastHeight, sent);
  }

  /** The rest from memory, behind everything that is sealed. */
  method ServeTail(p: Params, s: State<Bytes>, known: Names, net: uint32, fileType: byte, endHeight: int,
                   lastHeight: int, sent: Bytes) returns (r: Answer)
    requires Serving(p, s) && endHeight > lastHeight == s.lastSealed + 1
    requires lastHeight <= |Log(p, s)| && sent == Concat(Log(p, s)[..lastHeight])
    ensures r == ImportAnswer(p, s, known, net, fileType, endHeight)
  {
    NarrowBoundary(p, s);
    if !known(ToInt32(lastHeight)) {
      return Broken(Memory);
    }
    var tail, ok := SerializeEntries(s.mem, ToInt32(lastHeight), LastIndex(endHeight));
    TailOfLog(p, s, LastIndex(endHeight) + 1, tail, ok);
    r := if ok then Full(Memory, Metadata(net, fileType) + (sent + tail)) else Broken(Memory);
  }

  lemma NarrowBoundary(p: Params, s: State<Bytes>)
    requires Serving(p, s)
    ensures ToInt32(s.lastSealed + 1) == s.lastSealed + 1
  {
  }

  /** What memory adds behind the last sealed file completes the log, or breaks off. */
  lemma TailOfLog(p: Params, s: State<Bytes>, end: int, tail: Bytes, ok: bool)
    requires Serving(p, s)
    requires ok <==> Covers(s.mem, s.lastSealed + 1, end)
    requires ok ==> tail == Concat(Span(s.mem, s.lastSealed + 1, end - 1))
    ensures ok <==> end <= |Log(p, s)|
    ensures ok ==> var to := if end < s.lastSealed + 1 then s.lastSealed + 1 else end;
                   Concat(Log(p, s)[..to]) == Concat(Log(p, s)[..s.lastSealed + 1]) + tail
  {
    var boundary, log := s.lastSealed + 1, Log(p, s);
    if end > |log| {
      assert |log| !in s.mem;
    } else if end <= boundary {
      assert Span(s.mem, boundary, end - 1) == [];
    } else {
      MemoryIsLogSlice(p, s, boundary, end);
      assert Span(s.mem, boundary, end - 1) == log[boundary..end];
      SplitAt(log, boundary, end);
    }
  }

  /** The numeric route: checkEndHeight, then the stream. */
  method ImportRequest(p: Params, s: State<Bytes>, known: Names, net: uint32, fileType: byte, endHeight: int, healthy: bool)
    returns (r: Answer)
    requires Serving(p, s) && endHeight >= 0
    ensures r == NumericAnswer(p, s, known, net, fileType, endHeight)
            || (!healthy && !NumericAnswer(p, s, known, net, fileType, endHeight).Refused? && r.Broken?)
  {
    if ToInt32(endHeight) > s.current + 1 || endHeight == 0 {
      return Refused;
    }
    r := ServeImport(p, s, known, net, fileType, endHeight, healthy);
  }

  /** The latest route skips the check and asks for everything up to the tip. */
  method ImportLatest(p: Params, s: State<Bytes>, known: Names, net: uint32, fileType: byte, healthy: bool) returns (r: Answer)
    requires Serving(p, s)
    ensures r == NumericAnswer(p, s, known, net, fileType, s.current + 1)
            || (!healthy && !NumericAnswer(p, s, known, net, fileType, s.current + 1).Refused? && r.Broken?)
  {
    r := ServeImport(p, s, known, net, fileType, s.current + 1, healthy);
  }

  /** Every height up to the tip has a name. */
  ghost predicate AllNamed(s: State<Bytes>, known: Names) {
    forall h :: 0 <= h <= s.current ==> known(h)
  }

  /**
   * An accepted end lies within the chain exactly when it fits an int32; the check narrows
   * before it compares. Those are the ends that get served as asked: with the whole
   * prefix of the log, unless the end is sealed and not a file end.
   */
  lemma AcceptedEnds(p: Params, s: State<Bytes>, known: Names, net: uint32, fileType: byte, height: int)
    requires Serving(p, s) && !Fresh(s) && AllNamed(s, known) && height >= 0 && EndHeightAccepted(s, height)
    ensures height <= s.current + 1 <==> height <= MAX_INT32
    ensures height <= MAX_INT32 ==> 1 <= height <= |Log(p, s)|
    ensures height <= MAX_INT32 ==>
              NumericAnswer(p, s, known, net, fileType, height)
              == if height > s.lastSealed + 1 then Full(Memory, Metadata(net, fileType) + Concat(Log(p, s)[..height]))
                 else if height % p.size != 0 then Refused
                 else Full(Disk, Metadata(net, fileType) + Concat(Log(p, s)[..height]))
  {
    if height <= MAX_INT32 {
      assert ToInt32(height) == height && LastIndex(height) == height - 1;
      assert ServedEnd(s, height) == height;
    } else {
      assert ToInt32(height) <= MAX_INT32;
    }
  }

  /** Up to int32, exactly the ends from 1 to the tip + 1 are accepted. */
  lemma EndsWithinTheChain(s: State<Bytes>, height: int)
    requires 0 <= height <= MAX_INT32 && s.current < MAX_INT32
    ensures EndHeightAccepted(s, height) <==> 1 <= height <= s.current + 1
  {
  }

  /**
   * The bytes of a complete answer: the network, version 0, the file type, start height 0,
   * each at its place, and behind them the entries.
   */
  lemma ImportFields(p: Params, s: State<Bytes>, known: Names, net: uint32, fileType: byte, endHeight: int)
    requires Serving(p, s) && endHeight >= 0 && NumericAnswer(p, s, known, net, fileType, endHeight).Full?
    ensures ServedEnd(s, endHeight) <= |Log(p, s)|
    ensures var body := NumericAnswer(p, s, known, net, fileType, endHeight).body;
            && |body| >= 10 && FromLittleEndian(body[..4]) == net && body[4] == 0 && body[5] == fileType
            && body[6] == body[7] == body[8] == body[9] == 0
            && body[10..] == Concat(Log(p, s)[..ServedEnd(s, endHeight)])
  {
    MetadataFields(net, fileType, Concat(Log(p, s)[..ServedEnd(s, endHeight)]));
  }

  lemma MetadataFields(net: uint32, fileType: byte, rest: Bytes)
    ensures var body := Metadata(net, fileType) + rest;
            && |body| >= 10 && FromLittleEndian(body[..4]) == net && body[4] == 0 && body[5] == fileType
            && body[6] == body[7] == body[8] == body[9] == 0 && body[10..] == rest
  {
    PowersOf256();
    LittleEndianRoundTrip(net, 4);
    var body := Metadata(net, fileType) + rest;
    assert body[..4] == LittleEndian(net, 4);
    assert LittleEndian(0, 4) == [0] + LittleEndian(0, 3) && LittleEndian(0, 3) == [0] + LittleEndian(0, 2);
    assert LittleEndian(0, 2) == [0, 0];
    assert body[6..10] == LittleEndian(0, 4) == [0, 0, 0, 0];
    assert body[6] == body[6..10][0] && body[7] == body[6..10][1] && body[8] == body[6..10][2] && body[9] == body[6..10][3];
  }

  /** A height past every chain is accepted, and answered with what is sealed. */
  lemma WideHeightIsAccepted(p: Params, s: State<Bytes>, known: Names, net: uint32, fileType: byte)
    requires Serving(p, s) && known(s.lastSealed + 1)
    ensures EndHeightAccepted(s, 0x1_0000_0000) && s.lastSealed + 1 <= |Log(p, s)|
    ensures NumericAnswer(p, s, known, net, fileType, 0x1_0000_0000)
            == Full(Memory, Metadata(net, fileType) + Concat(Log(p, s)[..s.lastSealed + 1]))
  {
    assert ToInt32(0x1_0000_0000) == 0 && LastIndex(0x1_0000_0000) == -1;
  }

  /** One more is subtracted after the narrowing, so this height asks for all of memory and more. */
  lemma HalfwayHeightBreaksOff(p: Params, s: State<Bytes>, known: Names, net: uint32, fileType: byte)
    requires Serving(p, s)
    ensures EndHeightAccepted(s, 0x8000_0000)
    ensures NumericAnswer(p, s, known, net, fileType, 0x8000_0000) == Broken(Memory)
  {
    assert ToInt32(0x8000_0000) == -0x8000_0000 && LastIndex(0x8000_0000) == MAX_INT32;
  }

  /** In later states the sealed part has only grown. */
  lemma LaterBoundary(p: Params, s: State<Bytes>, run: seq<Step<Bytes>>)
    requires Serving(p, s) && Legal(p, s, run) && Serving(p, Exec(p, s, run))
    ensures 0 <= s.lastSealed + 1 <= |Log(p, s)|
    ensures s.lastSealed <= Exec(p, s, run).lastSealed < |Log(p, Exec(p, s, run))|
    ensures Log(p, Exec(p, s, run))[..s.lastSealed + 1] == Log(p, s)[..s.lastSealed + 1]
  {
    var t := Exec(p, s, run);
    FrozenPrefix(p, s, run);
    DiskEndAligned(p, s);
    DiskEndAligned(p, t);
    assert Durable(p, s) == Durable(p, t)[..s.lastSealed + 1];
  }

  /**
   * A response cacheable for a year consists of sealed entries only, and the same request
   * gets the same bytes in every later state of the producer, whatever reorgs and restarts
   * lie between.
   */
  lemma DiskAnswersNeverChange(p: Params, s: State<Bytes>, run: seq<Step<Bytes>>, known: Names, later: Names,
                               net: uint32, fileType: byte, end: int)
    requires Serving(p, s) && Legal(p, s, run) && Serving(p, Exec(p, s, run)) && end >= 0
    requires var r := NumericAnswer(p, s, known, net, fileType, end); r.Full? && r.tier.Disk?
    ensures forall h :: 0 <= h < end ==> OnDisk(p, s, h)
    ensures NumericAnswer(p, Exec(p, s, run), later, net, fileType, end) == NumericAnswer(p, s, known, net, fileType, end)
  {
    var t := Exec(p, s, run);
    LaterBoundary(p, s, run);
    assert Log(p, t)[..end] == Log(p, t)[..s.lastSealed + 1][..end] == Log(p, s)[..end];
    forall h | 0 <= h < end ensures OnDisk(p, s, h) {
      OnDiskAt(p, s, h);
    }
    NarrowEnd(s, end);
    NarrowEnd(t, end);
  }

  lemma NarrowEnd(s: State<Bytes>, end: int)
    requires 0 <= end <= s.current + 1 && s.current < MAX_INT32
    ensures EndHeightAccepted(s, end) <==> end != 0
  {
  }

  /** The entry of the log at a height is the one in its file. */
  ghost predicate OnDisk(p: Params, s: State<Bytes>, h: int)
    requires Serving(p, s)
  {
    && 0 <= h < |Log(p, s)| && h - h % p.size in s.files
    && Log(p, s)[h] == s.files[h - h % p.size][h % p.size]
  }

  lemma OnDiskAt(p: Params, s: State<Bytes>, h: int)
    requires Serving(p, s) && 0 <= h <= s.lastSealed
    ensures OnDisk(p, s, h)
  {
    DurableIsOnDisk(p, s, h);
    FileOf(p.size, h, s.lastSealed + 1);
  }

  // ---------- range requests ----------

  /** One sealed file, or memory from the start height to the tip. */
  ghost function RangeAnswer(p: Params, s: State<Bytes>, known: Names, start: int): Answer
    requires Serving(p, s) && start >= 0
  {
    if !StartHeightAccepted(p, s, start) then Refused
    else if start in s.files then Full(Disk, Concat(s.files[start]))
    else if !known(ToInt32(start)) then Refused
    else if s.lastSealed < ToInt32(start) < |Log(p, s)| then Full(Memory, Concat(Log(p, s)[ToInt32(start)..]))
    else Broken(Memory)
  }

  method RangeRequest(p: Params, s: State<Bytes>, known: Names, start: int, healthy: bool) returns (r: Answer)
    requires Serving(p, s) && start >= 0
    ensures r == RangeAnswer(p, s, known, start) || (!healthy && start in s.files && r == Broken(Disk))
    ensures r.Refused? <==> RangeAnswer(p, s, known, start).Refused?
  {
    if ToInt32(start) > s.current || (start != 0 && start % p.size != 0) {
      assert !StartHeightAccepted(p, s, start);
      return Refused;
    }
    if start in s.files {
      var torn: bool := *;
      return if !healthy && torn then Broken(Disk) else Full(Disk, Concat(s.files[start]));
    }
    if !known(ToInt32(start)) {
      return Refused;
    }
    var body, ok := SerializeEntries(s.mem, ToInt32(start), s.current);
    RangeFromMemory(p, s, ToInt32(start), body, ok);
    r := if ok then Full(Memory, body) else Broken(Memory);
  }

  /**
   * What a start within the chain gets: refused exactly if it is misaligned, or unsealed
   * without a name; otherwise its sealed file, or everything from it to the tip.
   */
  lemma RangeServes(p: Params, s: State<Bytes>, known: Names, start: int)
    requires Serving(p, s) && !Fresh(s) && 0 <= start <= s.current
    ensures RangeAnswer(p, s, known, start).Refused?
            <==> start % p.size != 0 || (start > s.lastSealed && !known(start))
    ensures start % p.size == 0 && start <= s.lastSealed ==>
              start + p.size <= |Log(p, s)|
              && RangeAnswer(p, s, known, start) == Full(Disk, Concat(Log(p, s)[start..start + p.size]))
    ensures start % p.size == 0 && start > s.lastSealed && known(start) ==>
              start <= |Log(p, s)| && RangeAnswer(p, s, known, start) == Full(Memory, Concat(Log(p, s)[start..]))
  {
    AcceptedStarts(p, s, start);
    if start % p.size == 0 {
      SealedStarts(p, s, start);
      if start <= s.lastSealed {
        FileIsLogSlice(p, s, start);
      }
    }
  }

  lemma AcceptedStarts(p: Params, s: State<Bytes>, start: int)
    requires p.size > 0 && 0 <= start <= s.current < MAX_INT32
    ensures ToInt32(start) == start
    ensures StartHeightAccepted(p, s, start) <==> start % p.size == 0
  {
    NarrowStart(s, start);
    if start == 0 {
      DivMod(0, p.size, 0, 0);
    }
  }

  /** A start past the tip is refused, if it fits an int32. */
  lemma RangePastTheTip(p: Params, s: State<Bytes>, known: Names, start: int)
    requires Serving(p, s) && s.current < start <= MAX_INT32
    ensures RangeAnswer(p, s, known, start).Refused?
  {
    NarrowStart(s, start);
  }

  lemma NarrowStart(s: State<Bytes>, start: int)
    requires 0 <= start <= MAX_INT32
    ensures ToInt32(start) == start
  {
  }

  /** The aligned heights below the boundary are the starts of the files. */
  lemma SealedStarts(p: Params, s: State<Bytes>, start: int)
    requires Serving(p, s) && start >= 0 && start % p.size == 0
    ensures start in s.files <==> start <= s.lastSealed
  {
    if start <= s.lastSealed && start !in s.files {
      NoFileIsTheEnd(p, s, start);
    }
  }

  /** Sealed files answer a range request forever with the same bytes, too. */
  lemma DiskRangesNeverChange(p: Params, s: State<Bytes>, run: seq<Step<Bytes>>, known: Names, later: Names, start: int)
    requires Serving(p, s) && Legal(p, s, run) && Serving(p, Exec(p, s, run)) && start >= 0
    requires var r := RangeAnswer(p, s, known, start); r.Full? && r.tier.Disk?
    ensures start in s.files && RangeAnswer(p, s, known, start) == Full(Disk, Concat(s.files[start]))
    ensures RangeAnswer(p, Exec(p, s, run), later, start) == RangeAnswer(p, s, known, start)
  {
    var t := Exec(p, s, run);
    FrozenPrefix(p, s, run);
    LaterBoundary(p, s, run);
    assert start <= s.lastSealed && ToInt32(start) == start;
    DiskEndAligned(p, t);
  }

  lemma RangeFromMemory(p: Params, s: State<Bytes>, from: int, body: Bytes, ok: bool)
    requires Serving(p, s) && from <= s.current
    requires ok <==> Covers(s.mem, from, s.current + 1)
    requires ok ==> body == Concat(Span(s.mem, from, s.current))
    ensures ok <==> s.lastSealed < from < |Log(p, s)|
    ensures ok ==> body == Concat(Log(p, s)[from..])
  {
    if s.lastSealed < from < |Log(p, s)| {
      MemoryIsLogSlice(p, s, from, |Log(p, s)|);
      assert Log(p, s)[from..|Log(p, s)|] == Log(p, s)[from..];
    } else {
      assert from !in s.mem;
    }
  }

  /** Asking for 0, one file further, and so on, until an answer comes from memory. */
  ghost function Download(p: Params, s: State<Bytes>, known: Names, start: int): Bytes
    requires Serving(p, s) && start >= 0
    decreases s.lastSealed - start
  {
    var r := RangeAnswer(p, s, known, start);
    if r.Full? && r.tier.Disk? && start <= s.lastSealed then r.body + Download(p, s, known, start + p.size)
    else if r.Full? then r.body
    else []
  }

  /** What is known before `start` with what is downloaded from there on. */
  ghost function Whole(p: Params, s: State<Bytes>, known: Names, start: int): Bytes
    requires Serving(p, s) && 0 <= start <= |Log(p, s)|
  {
    Concat(Log(p, s)[..start]) + Download(p, s, known, start)
  }

  lemma FileComesFirst(p: Params, s: State<Bytes>, known: Names, start: int)
    requires Serving(p, s) && start in s.files
    ensures start >= 0 && Download(p, s, known, start) == Concat(s.files[start]) + Download(p, s, known, start + p.size)
  {
    assert ToInt32(start) == start;
  }

  lemma DownloadsFile(p: Params, s: State<Bytes>, known: Names, start: int)
    requires Serving(p, s) && start in s.files
    ensures start >= 0 && start + p.size <= |Log(p, s)|
    ensures Whole(p, s, known, start) == Whole(p, s, known, start + p.size)
  {
    ConcatFile(p, s, start);
    FileComesFirst(p, s, known, start);
    Associates(Concat(Log(p, s)[..start]), Concat(s.files[start]), Download(p, s, known, start + p.size));
  }

  lemma DownloadsTail(p: Params, s: State<Bytes>, known: Names)
    requires Serving(p, s) && AllNamed(s, known)
    ensures s.lastSealed + 1 <= |Log(p, s)|
    ensures Whole(p, s, known, s.lastSealed + 1) == Concat(Log(p, s))
  {
    var start, log := s.lastSealed + 1, Log(p, s);
    assert ToInt32(start) == start;
    if start == |log| {
      assert log[start..] == [];
    }
    assert Download(p, s, known, start) == Concat(log[start..]);
    SplitAt(log, start, |log|);
    assert log[..|log|] == log && log[start..|log|] == log[start..];
  }

  /** The range answers put together are the whole log. */
  lemma {:induction false} DownloadFromFile(p: Params, s: State<Bytes>, known: Names, start: int)
    requires Serving(p, s) && AllNamed(s, known) && 0 <= start <= s.lastSealed + 1 && start % p.size == 0
    ensures start <= |Log(p, s)| && Whole(p, s, known, start) == Concat(Log(p, s))
    decreases s.lastSealed - start
  {
    if start in s.files {
      NextFile(p, s, start, s.lastSealed + 1);
      DownloadsFile(p, s, known, start);
      DownloadFromFile(p, s, known, start + p.size);
    } else {
      NoFileIsTheEnd(p, s, start);
      DownloadsTail(p, s, known);
    }
  }

  lemma DownloadIsTheLog(p: Params, s: State<Bytes>, known: Names)
    requires Serving(p, s) && AllNamed(s, known)
    ensures Download(p, s, known, 0) == Concat(Log(p, s))
  {
    DownloadFromFile(p, s, known, 0);
    assert Log(p, s)[..0] == [];
  }
}
