/**
 * The life of one on-disk producer as a transition system. A process ingests entries,
 * writes a file, promotes it (prune and advance), rolls back, and may be killed and
 * restarted between any two of these steps; only the files survive a restart.
 *
 * The results here hold for every run: disk plus memory is a log that only ingest
 * extends and only rollback and restart cut, never below what is on disk; and no file
 * is ever written twice.
 */
module ProducerLog {
  import opened Basics

  /** Entries per file and reorg-safe depth. */
  datatype Params = Params(size: nat, depth: nat)

  /** One entry per file would end the first file at height 0, the value for "no files". */
  predicate ValidParams(p: Params) { p.size >= 2 }

  /**
   * Files by start height, the in-memory tail, and the two height fields. `written`
   * marks the moment between writing a file and promoting it.
   */
  datatype State<E> = State(
    files: map<int, seq<E>>,
    mem: map<int, E>,
    lastSealed: int,
    current: int,
    written: bool)

  datatype Step<E> = Ingest(entry: E) | Write | Promote | Rollback(to: int) | Restart

  /** The current height is 0, not -1, before the first ingest. */
  predicate Fresh<E>(s: State<E>) { s.lastSealed == -1 && |s.mem| == 0 }

  /** The first height not ingested yet. */
  function Next<E>(s: State<E>): int {
    if Fresh(s) then 0 else s.current + 1
  }

  /** The first height not on disk yet. */
  function DiskEnd<E>(p: Params, s: State<E>): int {
    s.lastSealed + 1 + if s.written then p.size else 0
  }

  predicate FilesUpTo<E>(size: nat, files: map<int, seq<E>>, end: int)
    requires size > 0
  {
    && (forall k :: k in files ==> 0 <= k && k % size == 0 && k + size <= end && |files[k]| == size)
    && (forall k :: 0 <= k && k % size == 0 && k + size <= end ==> k in files)
  }

  ghost predicate Good<E>(p: Params, s: State<E>) {
    && ValidParams(p)
    && -1 <= s.lastSealed && (s.lastSealed + 1) % p.size == 0
    && s.lastSealed < Next(s)
    && (Fresh(s) ==> s.current == 0)
    && FilesUpTo(p.size, s.files, DiskEnd(p, s))
    && (forall h :: h in s.mem <==> s.lastSealed < h < Next(s))
    && (s.written ==> DiskEnd(p, s) <= Next(s)
                      && s.files[s.lastSealed + 1] == Range(s.mem, s.lastSealed + 1, DiskEnd(p, s)))
  }

  lemma DiskEndAligned<E>(p: Params, s: State<E>)
    requires Good(p, s)
    ensures DiskEnd(p, s) % p.size == 0 && 0 <= DiskEnd(p, s) <= Next(s)
  {
    ModStep(s.lastSealed + 1, p.size);
  }

  // ---------- the log ----------

  /** The file that holds a height, and the height's place in it. */
  lemma FileOf(size: nat, h: int, end: int)
    requires size > 0 && 0 <= h < end && end % size == 0
    ensures var k := h - h % size; 0 <= k && k % size == 0 && k + size <= end
  {
    var k := h - h % size;
    DivMod(k, size, h / size, 0);
    MulBound(h / size, size);
    if end < k + size {
      AlignedGap(k, end, size);
    }
  }

  lemma PlaceInFile(size: nat, k: int, i: int)
    requires size > 0 && k % size == 0 && 0 <= i < size
    ensures (k + i) % size == i
  {
    DivMod(k + i, size, k / size, i);
  }

  ghost function FileEntry<E>(size: nat, files: map<int, seq<E>>, h: int, end: int): E
    requires size > 0 && 0 <= h < end && end % size == 0 && FilesUpTo(size, files, end)
  {
    FileOf(size, h, end);
    files[h - h % size][h % size]
  }

  ghost function EntryAt<E>(p: Params, s: State<E>, h: int): E
    requires Good(p, s) && 0 <= h < Next(s)
  {
    DiskEndAligned(p, s);
    if h in s.mem then s.mem[h] else FileEntry(p.size, s.files, h, DiskEnd(p, s))
  }

  /** Disk, then memory: everything ingested and not cut. */
  ghost function Log<E>(p: Params, s: State<E>): (log: seq<E>)
    requires Good(p, s)
    ensures |log| == Next(s)
  {
    seq(Next(s), h requires 0 <= h < Next(s) => EntryAt(p, s, h))
  }

  /** The part of the log that is on disk. */
  ghost function Durable<E>(p: Params, s: State<E>): seq<E>
    requires Good(p, s)
  {
    DiskEndAligned(p, s);
    Log(p, s)[..DiskEnd(p, s)]
  }

  lemma DurableIsOnDisk<E>(p: Params, s: State<E>, h: int)
    requires Good(p, s) && 0 <= h < DiskEnd(p, s)
    ensures DiskEnd(p, s) % p.size == 0 && DiskEnd(p, s) <= Next(s)
    ensures Log(p, s)[h] == FileEntry(p.size, s.files, h, DiskEnd(p, s))
  {
    DiskEndAligned(p, s);
    if s.written && s.lastSealed < h {
      PlaceInFile(p.size, s.lastSealed + 1, h - s.lastSealed - 1);
    }
  }

  // ---------- the steps ----------

  predicate Enabled<E>(p: Params, s: State<E>, step: Step<E>) {
    match step
    case Ingest(_) => !s.written
    case Write => !s.written && s.lastSealed + p.size <= s.current - p.depth
    case Promote => s.written
    case Rollback(to) => !s.written && s.lastSealed < to <= s.current && !Fresh(s)
    case Restart => true
  }

  ghost function Apply<E>(p: Params, s: State<E>, step: Step<E>): (t: State<E>)
    requires Good(p, s) && Enabled(p, s, step)
  {
    DiskEndAligned(p, s);
    match step
    case Ingest(e) => s.(mem := s.mem[Next(s) := e], current := Next(s))
    case Write =>
      s.(files := s.files[s.lastSealed + 1 := Range(s.mem, s.lastSealed + 1, s.lastSealed + 1 + p.size)],
         written := true)
    case Promote =>
      s.(mem := map h | h in s.mem && h > s.lastSealed + p.size :: s.mem[h],
         lastSealed := s.lastSealed + p.size, written := false)
    case Rollback(to) => s.(mem := map h | h in s.mem && h <= to :: s.mem[h], current := to)
    case Restart =>
      State(s.files, map[], DiskEnd(p, s) - 1, if DiskEnd(p, s) == 0 then 0 else DiskEnd(p, s) - 1, false)
  }

  lemma WriteKeepsFiles<E>(size: nat, files: map<int, seq<E>>, end: int, file: seq<E>)
    requires size > 0 && FilesUpTo(size, files, end) && 0 <= end && end % size == 0 && |file| == size
    ensures FilesUpTo(size, files[end := file], end + size)
    ensures end !in files
  {
    forall k | 0 <= k && k % size == 0 && end < k + size <= end + size ensures k == end {
      AlignedGap(k, end, size);
    }
  }

  lemma NonEmpty<E>(m: map<int, E>, h: int)
    requires h in m
    ensures |m| > 0
  {
    assert h in m.Keys;
  }

  lemma WriteKeepsGood<E>(p: Params, s: State<E>)
    requires Good(p, s) && Enabled(p, s, Step<E>.Write)
    ensures Good(p, Apply(p, s, Step<E>.Write)) && Next(Apply(p, s, Step<E>.Write)) == Next(s)
  {
    ModStep(s.lastSealed + 1, p.size);
    WriteKeepsFiles(p.size, s.files, s.lastSealed + 1, Range(s.mem, s.lastSealed + 1, s.lastSealed + 1 + p.size));
  }

  lemma RollbackKeepsGood<E>(p: Params, s: State<E>, to: int)
    requires Good(p, s) && Enabled(p, s, Step<E>.Rollback(to))
    ensures Good(p, Apply(p, s, Step<E>.Rollback(to))) && Next(Apply(p, s, Step<E>.Rollback(to))) == to + 1
  {
    if s.lastSealed == -1 {
      NonEmpty(Apply(p, s, Step<E>.Rollback(to)).mem, to);
    }
  }

  lemma StepKeepsGood<E>(p: Params, s: State<E>, step: Step<E>)
    requires Good(p, s) && Enabled(p, s, step)
    ensures Good(p, Apply(p, s, step))
    ensures Next(Apply(p, s, step)) == match step
                                       case Ingest(_) => Next(s) + 1
                                       case Rollback(to) => to + 1
                                       case Restart => DiskEnd(p, s)
                                       case _ => Next(s)
  {
    var t := Apply(p, s, step);
    ModStep(s.lastSealed + 1, p.size);
    match step
    case Ingest(e) =>
      NonEmpty(t.mem, Next(s));
    case Write =>
      WriteKeepsGood(p, s);
    case Promote =>
    case Rollback(to) =>
      RollbackKeepsGood(p, s, to);
    case Restart =>
  }

  // ---------- refinement ----------

  /** The specification the producer refines: a log that grows at the end and is cut. */
  ghost function LogStep<E>(log: seq<E>, durable: nat, step: Step<E>): seq<E>
    requires durable <= |log|
    requires step.Rollback? ==> 0 <= step.to < |log|
  {
    match step
    case Ingest(e) => log + [e]
    case Write => log
    case Promote => log
    case Rollback(to) => log[..to + 1]
    case Restart => log[..durable]
  }

  lemma StepKeepsEntry<E>(p: Params, s: State<E>, step: Step<E>, h: int)
    requires Good(p, s) && Enabled(p, s, step) && Good(p, Apply(p, s, step))
    requires 0 <= h < Next(s) && h < Next(Apply(p, s, step))
    ensures EntryAt(p, Apply(p, s, step), h) == EntryAt(p, s, h)
  {
    var t := Apply(p, s, step);
    if h <= s.lastSealed {
      FileOf(p.size, h, s.lastSealed + 1);
      DiskEndAligned(p, s);
      DiskEndAligned(p, t);
    } else if h !in t.mem {
      DurableIsOnDisk(p, t, h);
      PlaceInFile(p.size, s.lastSealed + 1, h - s.lastSealed - 1);
    }
  }

  lemma StepRefinesLog<E>(p: Params, s: State<E>, step: Step<E>)
    requires Good(p, s) && Enabled(p, s, step)
    ensures Good(p, Apply(p, s, step))
    ensures 0 <= DiskEnd(p, s) <= |Log(p, s)|
    ensures step.Rollback? ==> DiskEnd(p, s) <= step.to < |Log(p, s)|
    ensures Log(p, Apply(p, s, step)) == LogStep(Log(p, s), DiskEnd(p, s), step)
  {
    var t := Apply(p, s, step);
    StepKeepsGood(p, s, step);
    DiskEndAligned(p, s);
    forall h | 0 <= h < Next(s) && h < Next(t) ensures Log(p, t)[h] == Log(p, s)[h] {
      StepKeepsEntry(p, s, step, h);
    }
    assert Log(p, t) == LogStep(Log(p, s), DiskEnd(p, s), step);
  }

  /** One step never takes anything off the disk, and writes only the next file. */
  lemma StepKeepsDurable<E>(p: Params, s: State<E>, step: Step<E>)
    requires Good(p, s) && Enabled(p, s, step)
    ensures Good(p, Apply(p, s, step))
    ensures Durable(p, s) <= Durable(p, Apply(p, s, step))
    ensures forall k :: k in s.files ==> k in Apply(p, s, step).files && Apply(p, s, step).files[k] == s.files[k]
    ensures DiskEnd(p, Apply(p, s, step)) == DiskEnd(p, s) + if step.Write? then p.size else 0
    ensures step.Write? ==> DiskEnd(p, s) !in s.files
  {
    StepRefinesLog(p, s, step);
    DiskEndAligned(p, s);
    if step.Write? {
      WriteKeepsFiles(p.size, s.files, s.lastSealed + 1, Apply(p, s, step).files[s.lastSealed + 1]);
    }
    var t := Apply(p, s, step);
    DiskEndAligned(p, t);
    assert Durable(p, s) == Durable(p, t)[..DiskEnd(p, s)];
  }

  // ---------- runs ----------

  ghost predicate Legal<E>(p: Params, s: State<E>, run: seq<Step<E>>)
    requires Good(p, s)
    decreases |run|
  {
    run == [] ||
    (Enabled(p, s, run[0]) && (StepKeepsGood(p, s, run[0]); Legal(p, Apply(p, s, run[0]), run[1..])))
  }

  ghost function Exec<E>(p: Params, s: State<E>, run: seq<Step<E>>): (t: State<E>)
    requires Good(p, s) && Legal(p, s, run)
    ensures Good(p, t)
    decreases |run|
  {
    if run == [] then s else
      StepKeepsGood(p, s, run[0]);
      Exec(p, Apply(p, s, run[0]), run[1..])
  }

  lemma {:induction false} RunConcat<E>(p: Params, s: State<E>, a: seq<Step<E>>, b: seq<Step<E>>)
    requires Good(p, s) && Legal(p, s, a) && Legal(p, Exec(p, s, a), b)
    ensures Legal(p, s, a + b) && Exec(p, s, a + b) == Exec(p, Exec(p, s, a), b)
    decreases |a|
  {
    if a == [] {
      assert a + b == b;
    } else {
      StepKeepsGood(p, s, a[0]);
      RunConcat(p, Apply(p, s, a[0]), a[1..], b);
      assert (a + b)[1..] == a[1..] + b;
    }
  }

  lemma {:induction false} LegalSplit<E>(p: Params, s: State<E>, a: seq<Step<E>>, b: seq<Step<E>>)
    requires Good(p, s) && Legal(p, s, a + b)
    ensures Legal(p, s, a) && Legal(p, Exec(p, s, a), b)
    ensures Exec(p, s, a + b) == Exec(p, Exec(p, s, a), b)
    decreases |a|
  {
    if a == [] {
      assert a + b == b;
    } else {
      assert (a + b)[1..] == a[1..] + b;
      StepKeepsGood(p, s, a[0]);
      LegalSplit(p, Apply(p, s, a[0]), a[1..], b);
    }
  }

  /** Running one step more. */
  lemma RunSnoc<E>(p: Params, s: State<E>, a: seq<Step<E>>, step: Step<E>)
    requires Good(p, s) && Legal(p, s, a) && Enabled(p, Exec(p, s, a), step)
    ensures Legal(p, s, a + [step]) && Exec(p, s, a + [step]) == Apply(p, Exec(p, s, a), step)
  {
    var m := Exec(p, s, a);
    StepKeepsGood(p, m, step);
    assert Legal(p, Apply(p, m, step), []);
    assert [step][1..] == [];
    assert Legal(p, m, [step]);
    RunConcat(p, s, a, [step]);
  }

  /** The specification log runs from `log` to `out`; `durable` counts what is on disk. */
  ghost predicate LogRun<E>(size: nat, log: seq<E>, durable: nat, run: seq<Step<E>>, out: seq<E>)
    decreases |run|
  {
    if run == [] then out == log
    else
      && durable <= |log|
      && (run[0].Rollback? ==> durable <= run[0].to < |log|)
      && LogRun(size, LogStep(log, durable, run[0]), durable + if run[0].Write? then size else 0, run[1..], out)
  }

  /** Every run refines the append-and-cut log; the cuts stay above the frozen prefix. */
  lemma {:induction false} RunRefinesLog<E>(p: Params, s: State<E>, run: seq<Step<E>>)
    requires Good(p, s) && Legal(p, s, run)
    ensures 0 <= DiskEnd(p, s)
    ensures LogRun(p.size, Log(p, s), DiskEnd(p, s), run, Log(p, Exec(p, s, run)))
    decreases |run|
  {
    DiskEndAligned(p, s);
    if run != [] {
      StepRefinesLog(p, s, run[0]);
      StepKeepsDurable(p, s, run[0]);
      RunRefinesLog(p, Apply(p, s, run[0]), run[1..]);
    }
  }

  /** What is on disk stays: as a prefix of every later log, and file by file. */
  lemma {:induction false} FrozenPrefix<E>(p: Params, s: State<E>, run: seq<Step<E>>)
    requires Good(p, s) && Legal(p, s, run)
    ensures Durable(p, s) <= Durable(p, Exec(p, s, run)) <= Log(p, Exec(p, s, run))
    ensures forall k :: k in s.files ==> k in Exec(p, s, run).files && Exec(p, s, run).files[k] == s.files[k]
    decreases |run|
  {
    if run != [] {
      StepKeepsDurable(p, s, run[0]);
      FrozenPrefix(p, Apply(p, s, run[0]), run[1..]);
    }
  }

  /** The start heights of the files a run writes, in order. */
  ghost function Writes<E>(p: Params, s: State<E>, run: seq<Step<E>>): seq<int>
    requires Good(p, s) && Legal(p, s, run)
    decreases |run|
  {
    if run == [] then [] else
      StepKeepsGood(p, s, run[0]);
      (if run[0].Write? then [s.lastSealed + 1] else []) + Writes(p, Apply(p, s, run[0]), run[1..])
  }

  predicate Consecutive(starts: seq<int>, first: int, size: nat) {
    starts == [] || (starts[0] == first && Consecutive(starts[1..], first + size, size))
  }

  lemma {:induction false} ConsecutiveIncreases(starts: seq<int>, first: int, size: nat)
    requires size > 0 && Consecutive(starts, first, size)
    ensures forall i :: 0 <= i < |starts| ==> first <= starts[i]
    ensures forall i, j :: 0 <= i < j < |starts| ==> starts[i] < starts[j]
    decreases |starts|
  {
    if starts != [] {
      ConsecutiveIncreases(starts[1..], first + size, size);
      assert forall i :: 0 < i < |starts| ==> starts[i] == starts[1..][i - 1];
    }
  }

  lemma {:induction false} WritesAreConsecutive<E>(p: Params, s: State<E>, run: seq<Step<E>>)
    requires Good(p, s) && Legal(p, s, run)
    ensures Consecutive(Writes(p, s, run), DiskEnd(p, s), p.size)
    decreases |run|
  {
    if run != [] {
      StepKeepsDurable(p, s, run[0]);
      var t := Apply(p, s, run[0]);
      WritesAreConsecutive(p, t, run[1..]);
      if run[0].Write? {
        assert Writes(p, s, run)[1..] == Writes(p, t, run[1..]);
      } else {
        assert Writes(p, s, run) == Writes(p, t, run[1..]);
      }
    }
  }

  /** A run writes the next files in order, so no range is written twice, restarts included. */
  lemma NoFileWrittenTwice<E>(p: Params, s: State<E>, run: seq<Step<E>>)
    requires Good(p, s) && Legal(p, s, run)
    ensures Consecutive(Writes(p, s, run), DiskEnd(p, s), p.size)
    ensures forall i, j :: 0 <= i < j < |Writes(p, s, run)| ==> Writes(p, s, run)[i] < Writes(p, s, run)[j]
    ensures forall i :: 0 <= i < |Writes(p, s, run)| ==> Writes(p, s, run)[i] !in s.files
  {
    WritesAreConsecutive(p, s, run);
    ConsecutiveIncreases(Writes(p, s, run), DiskEnd(p, s), p.size);
  }
}
