/**
 * producerBase: the lifecycle every on-disk producer shares. The hooks are function
 * values; whatever a hook or the backend answers depends on a clock that advances with
 * every question, so the best chain may change arbitrarily between any two backend
 * calls. Every method is proved to take legal steps of ProducerLog.
 */
module Producer {
  import opened Basics
  import opened Wire
  import opened ProducerLog
  import FileNames

  /**
   * How a seal ends: nothing on disk that a restart would see, the file a restart looks
   * for without the rest of its batch, or everything.
   */
  datatype Written = Nothing | ResumeOnly | Everything

  /**
   * `ingest` is what fetching a height yields at a given moment, `writeSealedFile` how
   * far the producer's own check and its writes get, `hashOf` the block hash recorded
   * with an entry. `blockHash` is the backend's GetBlockHash.
   */
  datatype Hooks<!E> = Hooks(
    ingest: (nat, int) -> Option<E>,
    writeSealedFile: (nat, int, seq<E>) -> Written,
    hashOf: E -> Hash,
    blockHash: (nat, int) -> Option<Hash>)

  datatype ReorgOutcome = Kept | RolledBack(to: int) | DeepReorg | BackendError

  // ---------- sealing ----------

  /** Nothing on the tail is overdue: fewer than a file plus the safe depth is unsealed. */
  predicate Prompt<E>(p: Params, s: State<E>) {
    s.current - s.lastSealed < p.size + p.depth
  }

  /** `n` files written and promoted, and one more written only. */
  ghost function SealRun<E>(n: nat, torn: bool): seq<Step<E>> {
    if torn then SealRun(n, false) + [Write]
    else if n == 0 then []
    else SealRun(n - 1, false) + [Write, Promote]
  }

  /**
   * In this run, every file is written at the very height that makes it reorg-safe, and
   * nothing is ingested while a file is overdue.
   */
  ghost predicate OnTime<E>(p: Params, s: State<E>, run: seq<Step<E>>)
    requires Good(p, s) && Legal(p, s, run)
    decreases |run|
  {
    run == [] ||
    ((run[0].Write? ==> s.current == s.lastSealed + p.size + p.depth) &&
     (run[0].Ingest? ==> Prompt(p, s)) &&
     (StepKeepsGood(p, s, run[0]); OnTime(p, Apply(p, s, run[0]), run[1..])))
  }

  lemma {:induction false} OnTimeSnoc<E>(p: Params, s: State<E>, run: seq<Step<E>>, step: Step<E>)
    requires Good(p, s) && Legal(p, s, run) && Enabled(p, Exec(p, s, run), step)
    requires OnTime(p, s, run)
    requires step.Write? ==> Exec(p, s, run).current == Exec(p, s, run).lastSealed + p.size + p.depth
    requires step.Ingest? ==> Prompt(p, Exec(p, s, run))
    ensures Legal(p, s, run + [step]) && OnTime(p, s, run + [step])
    decreases |run|
  {
    RunSnoc(p, s, run, step);
    if run == [] {
      assert ([] + [step])[1..] == [];
    } else {
      StepKeepsGood(p, s, run[0]);
      OnTimeSnoc(p, Apply(p, s, run[0]), run[1..], step);
      assert (run + [step])[1..] == run[1..] + [step];
    }
  }

  /** A write and its promotion. */
  ghost function SealedOnce<E>(p: Params, s: State<E>): State<E>
    requires Good(p, s) && Enabled(p, s, Write)
  {
    StepKeepsGood(p, s, Write);
    Apply(p, Apply(p, s, Write), Promote)
  }

  /** A promotion keeps what lies above the file. */
  lemma PromotedMemory<E>(p: Params, s: State<E>, mem: map<int, E>)
    requires Good(p, s) && Enabled(p, s, Write)
    requires mem == map h | h in s.mem && !(s.lastSealed + 1 <= h <= s.lastSealed + p.size) :: s.mem[h]
    ensures mem == SealedOnce(p, s).mem
  {
  }

  /** A legal run, with every file on time, leads from one state to the other. */
  ghost predicate Reached<E>(p: Params, s: State<E>, run: seq<Step<E>>, t: State<E>)
    requires Good(p, s)
  {
    Legal(p, s, run) && OnTime(p, s, run) && t == Exec(p, s, run)
  }

  /** At some moment the backend's answer for this height was this entry. */
  ghost predicate Answered<E>(hooks: Hooks<E>, height: int, entry: E) {
    exists now: nat :: hooks.ingest(now, height) == Some(entry)
  }

  /** It was between two moments. */
  ghost predicate AnsweredIn<E>(hooks: Hooks<E>, from: nat, to: nat, height: int, entry: E) {
    exists now: nat :: from <= now < to && hooks.ingest(now, height) == Some(entry)
  }

  /** At some moment the producer's own check let this file through. */
  ghost predicate Vouched<E>(hooks: Hooks<E>, start: int, file: seq<E>) {
    exists now: nat :: !hooks.writeSealedFile(now, start, file).Nothing?
  }

  ghost predicate AllAnswered<E>(hooks: Hooks<E>, start: int, file: seq<E>) {
    forall i :: 0 <= i < |file| ==> Answered(hooks, start + i, file[i])
  }

  /** Every file was let through, and whatever disk and memory hold, the backend answered. */
  ghost predicate Sourced<E>(hooks: Hooks<E>, files: map<int, seq<E>>, mem: map<int, E>) {
    && (forall k :: k in files ==> Vouched(hooks, k, files[k]) && AllAnswered(hooks, k, files[k]))
    && (forall h :: h in mem ==> Answered(hooks, h, mem[h]))
  }

  lemma SourcedSeal<E>(hooks: Hooks<E>, files: map<int, seq<E>>, mem: map<int, E>, now: nat, start: int, end: int)
    requires Sourced(hooks, files, mem) && start <= end && Covers(mem, start, end)
    requires !hooks.writeSealedFile(now, start, Range(mem, start, end)).Nothing?
    ensures Sourced(hooks, files[start := Range(mem, start, end)], mem)
  {
    var file := Range(mem, start, end);
    forall i | 0 <= i < |file| ensures Answered(hooks, start + i, file[i]) {
      assert file[i] == mem[start + i];
    }
  }

  /** A log grew, and only with what the backend answered between two moments. */
  ghost predicate Grown<E>(hooks: Hooks<E>, base: seq<E>, log: seq<E>, from: nat, to: nat) {
    base <= log && forall h :: |base| <= h < |log| ==> AnsweredIn(hooks, from, to, h, log[h])
  }

  lemma GrownFurther<E>(hooks: Hooks<E>, base: seq<E>, log: seq<E>, added: seq<E>, from: nat, mid: nat, to: nat)
    requires Grown(hooks, base, log, from, mid) && from <= mid <= to
    requires |added| <= 1 && (|added| == 1 ==> AnsweredIn(hooks, mid, to, |log|, added[0]))
    ensures Grown(hooks, base, log + added, from, to)
  {
    forall h | |base| <= h < |log + added| ensures AnsweredIn(hooks, from, to, h, (log + added)[h]) {
      if h < |log| {
        assert AnsweredIn(hooks, from, mid, h, log[h]);
      }
    }
  }

  /** A timely run extended the log, and only with what the backend answered meanwhile. */
  ghost predicate CaughtUp<E>(p: Params, hooks: Hooks<E>, s0: State<E>, run: seq<Step<E>>, s: State<E>, from: nat, to: nat)
    requires Good(p, s0) && Good(p, s)
  {
    && Reached(p, s0, run, s) && s0.lastSealed <= s.lastSealed && from <= to
    && Grown(hooks, Log(p, s0), Log(p, s), from, to)
  }

  lemma CaughtUpFurther<E>(p: Params, hooks: Hooks<E>, s0: State<E>, run: seq<Step<E>>, s: State<E>,
                           rest: seq<Step<E>>, added: seq<E>, t: State<E>, from: nat, mid: nat, to: nat)
    requires Good(p, s0) && Good(p, s) && Good(p, t) && mid <= to && s.lastSealed <= t.lastSealed
    requires CaughtUp(p, hooks, s0, run, s, from, mid) && Reached(p, s, rest, t) && Log(p, t) == Log(p, s) + added
    requires |added| <= 1 && (|added| == 1 ==> AnsweredIn(hooks, mid, to, Next(s), added[0]))
    ensures CaughtUp(p, hooks, s0, run + rest, t, from, to) && Next(t) == Next(s) + |added|
  {
    OnTimeConcat(p, s0, run, rest);
    assert |Log(p, t)| == |Log(p, s)| + |added|;
    GrownFurther(hooks, Log(p, s0), Log(p, s), added, from, mid, to);
  }

  /** What a new process knows over files of `end` entries. */
  ghost function Restarted<E>(files: map<int, seq<E>>, end: nat): State<E> {
    State(files, map[], end - 1, if end == 0 then 0 else end - 1, false)
  }

  /** Killing the process anywhere, even between a write and its promotion, leads there. */
  lemma RestartedAfterAnyCrash<E>(p: Params, s: State<E>)
    requires Good(p, s)
    ensures 0 <= DiskEnd(p, s) && Apply(p, s, Step<E>.Restart) == Restarted(s.files, DiskEnd(p, s))
    ensures FilesUpTo(p.size, s.files, DiskEnd(p, s)) && DiskEnd(p, s) % p.size == 0
  {
    DiskEndAligned(p, s);
  }

  /** Where a seal that got this far leaves the producer. */
  ghost function SealOutcome<E>(p: Params, s: State<E>, written: Written): State<E>
    requires Good(p, s) && Enabled(p, s, Write)
  {
    match written
    case Nothing => s
    case ResumeOnly => Apply(p, s, Write)
    case Everything => SealedOnce(p, s)
  }

  // ---------- comparing with the backend ----------

  /** Our hash and the backend's at a moment, both known, are the same. */
  predicate Agrees<E>(hooks: Hooks<E>, mem: map<int, E>, now: nat, height: int) {
    height in mem && hooks.blockHash(now, height) == Some(hooks.hashOf(mem[height]))
  }

  predicate Disagrees<E>(hooks: Hooks<E>, mem: map<int, E>, now: nat, height: int) {
    height in mem && hooks.blockHash(now, height).Some? && !Agrees(hooks, mem, now, height)
  }

  /** On a walk back from `tip` that starts at `start`, when the height is asked about. */
  function Asked(start: nat, tip: int, height: int): nat
    requires height <= tip
  {
    start + (tip - height)
  }

  /** On that walk, the height is known to differ, or has no entry. */
  predicate PassedOver<E>(hooks: Hooks<E>, mem: map<int, E>, start: nat, tip: int, height: int)
    requires height <= tip
  {
    height in mem ==> Disagrees(hooks, mem, Asked(start, tip, height), height)
  }

  predicate FoundAt<E>(hooks: Hooks<E>, mem: map<int, E>, start: nat, tip: int, height: int)
    requires height <= tip
  {
    Agrees(hooks, mem, Asked(start, tip, height), height)
  }

  /** On that walk, the question about the height fails. */
  predicate StoppedAt<E>(hooks: Hooks<E>, mem: map<int, E>, start: nat, tip: int, height: int)
    requires height <= tip
  {
    height in mem && hooks.blockHash(Asked(start, tip, height), height).None?
  }

  /** Every height of the walk above `height` is in memory and known to differ. */
  ghost predicate WalkedDownTo<E>(hooks: Hooks<E>, mem: map<int, E>, start: nat, tip: int, height: int) {
    forall h :: height < h <= tip ==> h in mem && PassedOver(hooks, mem, start, tip, h)
  }

  /**
   * What handleReorg answers: the tip is asked about at `now`, then one height after the
   * other on the walk back.
   */
  ghost predicate ReorgSpec<E>(hooks: Hooks<E>, mem: map<int, E>, lastSealed: int, tip: int, now: nat, outcome: ReorgOutcome) {
    var walk := now + 1;
    match outcome
    case Kept => tip !in mem || Agrees(hooks, mem, now, tip)
    case RolledBack(to) =>
      && Disagrees(hooks, mem, now, tip) && lastSealed < to <= tip
      && FoundAt(hooks, mem, walk, tip, to) && WalkedDownTo(hooks, mem, walk, tip, to)
    case DeepReorg => Disagrees(hooks, mem, now, tip) && WalkedDownTo(hooks, mem, walk, tip, lastSealed)
    case BackendError =>
      && tip in mem
      && (hooks.blockHash(now, tip).None? ||
          (Disagrees(hooks, mem, now, tip) && exists h :: WalkFailsAt(hooks, mem, lastSealed, walk, tip, h)))
  }

  /** The first height of the walk that agrees, above the sealed ones. */
  ghost predicate FoundAhead<E>(hooks: Hooks<E>, mem: map<int, E>, lastSealed: int, start: nat, tip: int, to: int) {
    lastSealed < to <= tip && FoundAt(hooks, mem, start, tip, to) && WalkedDownTo(hooks, mem, start, tip, to)
  }

  /** The first question of the walk without an answer, with all heights above in memory. */
  ghost predicate WalkFailsAt<E>(hooks: Hooks<E>, mem: map<int, E>, lastSealed: int, start: nat, tip: int, h: int) {
    lastSealed < h <= tip && StoppedAt(hooks, mem, start, tip, h) && WalkedDownTo(hooks, mem, start, tip, h)
  }

  /** Every height of the walk above `height` is known to differ, or not in memory. */
  ghost predicate PassedOverDownTo<E>(hooks: Hooks<E>, mem: map<int, E>, start: nat, tip: int, height: int) {
    forall h :: height < h <= tip ==> PassedOver(hooks, mem, start, tip, h)
  }

  ghost predicate FailsFirstAt<E>(hooks: Hooks<E>, mem: map<int, E>, lastSealed: int, start: nat, tip: int, h: int) {
    lastSealed < h <= tip && StoppedAt(hooks, mem, start, tip, h) && PassedOverDownTo(hooks, mem, start, tip, h)
  }

  /** All unsealed heights up to the tip are in memory. */
  ghost predicate WindowFull<E>(s: State<E>) {
    s.lastSealed < s.current && forall h :: s.lastSealed < h <= s.current ==> h in s.mem
  }

  lemma TipInMemory<E>(p: Params, s: State<E>)
    requires Good(p, s) && s.current in s.mem
    ensures WindowFull(s) && !Fresh(s)
  {
    NonEmpty(s.mem, s.current);
  }

  lemma FinishedWalk<E>(hooks: Hooks<E>, s: State<E>, walk: nat, to: int)
    requires WindowFull(s) && s.lastSealed <= to && PassedOverDownTo(hooks, s.mem, walk, s.current, to)
    ensures WalkedDownTo(hooks, s.mem, walk, s.current, to)
  {
  }

  /** A walk that came to its end without finding anything. */
  lemma EmptyWalk<E>(p: Params, hooks: Hooks<E>, s: State<E>, from: nat, walk: nat, to: nat)
    requires WindowFull(s) && PassedOverDownTo(hooks, s.mem, walk, s.current, s.lastSealed)
    requires from <= walk && walk + (s.current - s.lastSealed) <= to
    ensures Stopped(p, hooks, s, from, to)
  {
    FinishedWalk(hooks, s, walk, s.lastSealed);
    assert TooDeep(hooks, s, from, to);
  }

  lemma FailedWalk<E>(hooks: Hooks<E>, s: State<E>, walk: nat)
    requires WindowFull(s) && exists h :: FailsFirstAt(hooks, s.mem, s.lastSealed, walk, s.current, h)
    ensures exists h :: WalkFailsAt(hooks, s.mem, s.lastSealed, walk, s.current, h)
  {
    var h :| FailsFirstAt(hooks, s.mem, s.lastSealed, walk, s.current, h);
    FinishedWalk(hooks, s, walk, h);
    assert WalkFailsAt(hooks, s.mem, s.lastSealed, walk, s.current, h);
  }

  /** So each outcome occurs exactly when its case holds. */
  lemma ReorgIsDetermined<E>(hooks: Hooks<E>, mem: map<int, E>, lastSealed: int, tip: int, now: nat,
                             a: ReorgOutcome, b: ReorgOutcome)
    requires ReorgSpec(hooks, mem, lastSealed, tip, now, a) && ReorgSpec(hooks, mem, lastSealed, tip, now, b)
    ensures a == b
  {
  }

  /** On the walk that follows a question at `now` about the tip, a height is known to differ. */
  predicate Differs<E>(hooks: Hooks<E>, mem: map<int, E>, now: nat, tip: int, h: int)
    requires h <= tip && h in mem
  {
    var answer := hooks.blockHash(now + 1 + (tip - h), h);
    answer.Some? && answer.value != hooks.hashOf(mem[h])
  }

  ghost predicate AllDiffer<E>(hooks: Hooks<E>, mem: map<int, E>, now: nat, tip: int, above: int)
    requires forall h :: above < h <= tip ==> h in mem
  {
    forall h :: above < h <= tip ==> Differs(hooks, mem, now, tip, h)
  }

  /** The first height of that walk that does not differ gets this answer. */
  ghost predicate EndsWith<E>(hooks: Hooks<E>, mem: map<int, E>, now: nat, tip: int, lastSealed: int, h: int, answer: Option<Hash>)
    requires forall h :: lastSealed < h <= tip ==> h in mem
  {
    lastSealed < h <= tip && AllDiffer(hooks, mem, now, tip, h) && hooks.blockHash(now + 1 + (tip - h), h) == answer
  }

  /** The tip's hash is not the one the backend answers about it. */
  predicate TipDiffers<E>(hooks: Hooks<E>, mem: map<int, E>, now: nat, tip: int)
    requires tip in mem
  {
    hooks.blockHash(now, tip).Some? && hooks.blockHash(now, tip).value != hooks.hashOf(mem[tip])
  }

  /**
   * Each outcome, on the backend's answers: kept exactly if the tip's hash is the answer
   * about it; failed exactly if that answer is missing, or differs and so do all on the
   * walk down to one that is missing; cut exactly at the first equal one; refused exactly
   * if all unsealed ones differ.
   */
  lemma ReorgExactly<E>(hooks: Hooks<E>, mem: map<int, E>, lastSealed: int, tip: int, now: nat, outcome: ReorgOutcome)
    requires ReorgSpec(hooks, mem, lastSealed, tip, now, outcome)
    requires lastSealed < tip && forall h :: lastSealed < h <= tip ==> h in mem
    ensures outcome.Kept? <==> hooks.blockHash(now, tip) == Some(hooks.hashOf(mem[tip]))
    ensures outcome.BackendError? <==>
            || hooks.blockHash(now, tip).None?
            || (TipDiffers(hooks, mem, now, tip) && exists h :: EndsWith(hooks, mem, now, tip, lastSealed, h, None))
    ensures outcome.DeepReorg? <==> TipDiffers(hooks, mem, now, tip) && AllDiffer(hooks, mem, now, tip, lastSealed)
    ensures forall to | lastSealed < to <= tip :: outcome == RolledBack(to) <==>
            TipDiffers(hooks, mem, now, tip) && EndsWith(hooks, mem, now, tip, lastSealed, to, Some(hooks.hashOf(mem[to])))
  {
    EachOutcome(hooks, mem, lastSealed, tip, now, outcome);
    assert ReorgSpec(hooks, mem, lastSealed, tip, now, Kept) <==> outcome.Kept?;
    FailsExactly(hooks, mem, lastSealed, tip, now);
    assert ReorgSpec(hooks, mem, lastSealed, tip, now, BackendError) <==> outcome.BackendError?;
    WalkIsAllDiffer(hooks, mem, now, tip, lastSealed);
    assert ReorgSpec(hooks, mem, lastSealed, tip, now, DeepReorg) <==> outcome.DeepReorg?;
    forall to | lastSealed < to <= tip
      ensures outcome == RolledBack(to) <==>
              TipDiffers(hooks, mem, now, tip) && EndsWith(hooks, mem, now, tip, lastSealed, to, Some(hooks.hashOf(mem[to])))
    {
      WalkIsAllDiffer(hooks, mem, now, tip, to);
      assert ReorgSpec(hooks, mem, lastSealed, tip, now, RolledBack(to)) <==> outcome == RolledBack(to);
    }
  }

  lemma FailsExactly<E>(hooks: Hooks<E>, mem: map<int, E>, lastSealed: int, tip: int, now: nat)
    requires lastSealed < tip && forall h :: lastSealed < h <= tip ==> h in mem
    ensures ReorgSpec(hooks, mem, lastSealed, tip, now, BackendError) <==>
            || hooks.blockHash(now, tip).None?
            || (TipDiffers(hooks, mem, now, tip) && exists h :: EndsWith(hooks, mem, now, tip, lastSealed, h, None))
  {
    var walk := now + 1;
    forall h ensures EndsWith(hooks, mem, now, tip, lastSealed, h, None)
                     <==> WalkFailsAt(hooks, mem, lastSealed, walk, tip, h)
    {
      if lastSealed < h <= tip {
        WalkIsAllDiffer(hooks, mem, now, tip, h);
      }
    }
  }

  /** Meeting the specification and being the outcome is the same. */
  lemma EachOutcome<E>(hooks: Hooks<E>, mem: map<int, E>, lastSealed: int, tip: int, now: nat, outcome: ReorgOutcome)
    requires ReorgSpec(hooks, mem, lastSealed, tip, now, outcome)
    ensures forall o :: ReorgSpec(hooks, mem, lastSealed, tip, now, o) <==> o == outcome
  {
    forall o | ReorgSpec(hooks, mem, lastSealed, tip, now, o) ensures o == outcome {
      ReorgIsDetermined(hooks, mem, lastSealed, tip, now, o, outcome);
    }
  }

  lemma WalkIsAllDiffer<E>(hooks: Hooks<E>, mem: map<int, E>, now: nat, tip: int, above: int)
    requires forall h :: above < h <= tip ==> h in mem
    ensures var walk := now + 1; AllDiffer(hooks, mem, now, tip, above) <==> WalkedDownTo(hooks, mem, walk, tip, above)
  {
    var walk := now + 1;
    if AllDiffer(hooks, mem, now, tip, above) {
      forall h | above < h <= tip ensures h in mem && PassedOver(hooks, mem, walk, tip, h) {
        assert Differs(hooks, mem, now, tip, h);
      }
    }
    if WalkedDownTo(hooks, mem, walk, tip, above) {
      forall h | above < h <= tip ensures Differs(hooks, mem, now, tip, h) {
        assert PassedOver(hooks, mem, walk, tip, h);
      }
    }
  }

  /** The questions that settled the outcome were asked before a moment. */
  predicate AskedBefore<E>(mem: map<int, E>, tip: int, now: nat, outcome: ReorgOutcome, to: nat) {
    && now <= to && (tip in mem ==> now < to)
    && (outcome.RolledBack? ==> now + 1 + (tip - outcome.to) < to)
  }

  // ---------- a poll round ----------

  /** A round that found nothing to do, or one that handled a possible reorg. */
  datatype Poll = Quiet | Handled(outcome: ReorgOutcome)

  /** What handling a reorg leaves. */
  ghost predicate CutTo<E>(p: Params, s: State<E>, outcome: ReorgOutcome, m: State<E>)
    requires Good(p, s) && Good(p, m)
  {
    if outcome.RolledBack? then
      && outcome.to < |Log(p, s)| && -1 <= outcome.to && Log(p, m) == Log(p, s)[..outcome.to + 1]
      && m.current == outcome.to && m.lastSealed == s.lastSealed && m.files == s.files
    else m == s
  }

  /**
   * A poll round from one state to another: quiet only if the height is the same and the
   * tip is not known to differ; otherwise the log is kept, or cut where our chain and the
   * backend's part, and then extended to the backend's height.
   */
  ghost predicate Polled<E>(p: Params, hooks: Hooks<E>, s: State<E>, height: int, from: nat, poll: Poll, ok: bool,
                            t: State<E>, to: nat)
    requires Good(p, s) && Good(p, t)
  {
    match poll
    case Quiet =>
      && ok && t == s && height == s.current && from <= to && (s.current in s.mem ==> from < to)
      && !Disagrees(hooks, s.mem, from, s.current)
    case Handled(outcome) =>
      && (height == s.current ==> Disagrees(hooks, s.mem, from, s.current))
      && var now := if height == s.current then from + 1 else from;
         && ReorgSpec(hooks, s.mem, s.lastSealed, s.current, now, outcome)
         && AskedBefore(s.mem, s.current, now, outcome, to)
         && AfterReorg(p, hooks, s, height, from, outcome, ok, t, to)
  }

  ghost predicate AfterReorg<E>(p: Params, hooks: Hooks<E>, s: State<E>, height: int, from: nat, outcome: ReorgOutcome,
                                ok: bool, t: State<E>, to: nat)
    requires Good(p, s) && Good(p, t)
  {
    var kept := if outcome.RolledBack? then outcome.to else s.current;
    if outcome.DeepReorg? || outcome.BackendError? then !ok && t == s
    else if height <= kept then ok && CutTo(p, s, outcome, t)
    else
      && (ok ==> t.current == height) && s.lastSealed <= t.lastSealed
      && -1 <= kept < |Log(p, s)| && Grown(hooks, Log(p, s)[..kept + 1], Log(p, t), from, to)
  }

  lemma PolledThen<E>(p: Params, hooks: Hooks<E>, s: State<E>, height: int, from: nat, now: nat, outcome: ReorgOutcome,
                      m: State<E>, mid: nat, rest: seq<Step<E>>, ok: bool, t: State<E>, to: nat)
    requires Good(p, s) && Good(p, m) && Good(p, t) && !Fresh(s) && !Fresh(m)
    requires outcome.Kept? || outcome.RolledBack?
    requires height == s.current ==> Disagrees(hooks, s.mem, from, s.current)
    requires now == (if height == s.current then from + 1 else from)
    requires ReorgSpec(hooks, s.mem, s.lastSealed, s.current, now, outcome)
    requires AskedBefore(s.mem, s.current, now, outcome, mid) && CutTo(p, s, outcome, m)
    requires m.current < height && CaughtUp(p, hooks, m, rest, t, mid, to) && (ok ==> t.current == height)
    ensures Polled(p, hooks, s, height, from, Handled(outcome), ok, t, to)
  {
    assert Log(p, s)[..s.current + 1] == Log(p, s);
    forall h | |Log(p, m)| <= h < |Log(p, t)| ensures AnsweredIn(hooks, from, to, h, Log(p, t)[h]) {
      assert AnsweredIn(hooks, mid, to, h, Log(p, t)[h]);
    }
  }

  /** A state, and how many questions were asked before it. */
  datatype Moment<E> = Moment(state: State<E>, clock: nat)

  /** A round leads from one moment to the next. */
  ghost predicate Round<E>(p: Params, hooks: Hooks<E>, a: Moment<E>, height: int, ok: bool, b: Moment<E>) {
    && Good(p, a.state) && Good(p, b.state)
    && exists poll :: Polled(p, hooks, a.state, height, a.clock, poll, ok, b.state, b.clock)
  }

  /** Between any two consecutive moments a round with that tick's height got through. */
  ghost predicate PolledThrough<E>(p: Params, hooks: Hooks<E>, trace: seq<Moment<E>>, ticks: seq<Option<int>>) {
    && |trace| <= |ticks| + 1
    && forall i: nat :: i + 1 < |trace| ==> PolledAt(p, hooks, trace, ticks, i)
  }

  ghost predicate PolledAt<E>(p: Params, hooks: Hooks<E>, trace: seq<Moment<E>>, ticks: seq<Option<int>>, i: nat)
    requires i + 1 < |trace| <= |ticks| + 1
  {
    ticks[i].Some? && Round(p, hooks, trace[i], ticks[i].value, true, trace[i + 1])
  }

  /** The round after the last moment had no height, or failed and left this. */
  ghost predicate Gone<E>(p: Params, hooks: Hooks<E>, trace: seq<Moment<E>>, ticks: seq<Option<int>>, last: Moment<E>)
    requires 0 < |trace| <= |ticks|
  {
    var i := |trace| - 1;
    if ticks[i].None? then last == trace[i] else Round(p, hooks, trace[i], ticks[i].value, false, last)
  }

  /** The catch-up from a state to a height. */
  ghost predicate StartsCaughtUp<E>(p: Params, hooks: Hooks<E>, s0: State<E>, numBlocks: nat, from: nat, first: Moment<E>)
    requires Good(p, s0)
  {
    && Good(p, first.state)
    && Next(first.state) == (if Next(s0) <= numBlocks then numBlocks + 1 else Next(s0))
    && Grown(hooks, Log(p, s0), Log(p, first.state), from, first.clock)
  }

  lemma RoundEnds<E>(p: Params, hooks: Hooks<E>, trace: seq<Moment<E>>, ticks: seq<Option<int>>, i: nat, poll: Poll, b: Moment<E>)
    requires |trace| == i + 1 <= |ticks| && PolledThrough(p, hooks, trace, ticks) && ticks[i].Some?
    requires Good(p, trace[i].state) && Good(p, b.state)
    requires Polled(p, hooks, trace[i].state, ticks[i].value, trace[i].clock, poll, true, b.state, b.clock)
    ensures PolledThrough(p, hooks, trace + [b], ticks)
  {
    forall j: nat | j + 1 < |trace + [b]| ensures PolledAt(p, hooks, trace + [b], ticks, j) {
      if j < i {
        assert PolledAt(p, hooks, trace, ticks, j);
      }
    }
  }

  lemma RoundFails<E>(p: Params, hooks: Hooks<E>, trace: seq<Moment<E>>, ticks: seq<Option<int>>, i: nat, poll: Poll, b: Moment<E>)
    requires |trace| == i + 1 <= |ticks| && ticks[i].Some?
    requires Good(p, trace[i].state) && Good(p, b.state)
    requires Polled(p, hooks, trace[i].state, ticks[i].value, trace[i].clock, poll, false, b.state, b.clock)
    ensures Gone(p, hooks, trace, ticks, b)
  {
  }

  /** The two parts of a round as one run; what stopped the second stopped the round. */
  lemma RoundJoins<E>(p: Params, hooks: Hooks<E>, s: State<E>, run: seq<Step<E>>, m: State<E>, rest: seq<Step<E>>, t: State<E>,
                      from: nat, mid: nat, to: nat, ok: bool)
    requires Good(p, s) && Good(p, m) && Reached(p, s, run, m) && Reached(p, m, rest, t)
    requires from <= mid && (!ok ==> Stopped(p, hooks, t, mid, to))
    ensures Reached(p, s, run + rest, t) && (!ok ==> Stopped(p, hooks, t, from, to))
  {
    OnTimeConcat(p, s, run, rest);
    if !ok {
      StoppedEarlier(p, hooks, t, from, mid, to);
    }
  }

  // ---------- why a process ends ----------

  /** The next height could not be fetched. */
  ghost predicate IngestStopped<E>(hooks: Hooks<E>, s: State<E>, from: nat, to: nat) {
    exists now: nat :: from <= now < to && hooks.ingest(now, Next(s)).None?
  }

  /** A file is due, and its seal was refused or broke off. */
  ghost predicate SealStopped<E>(p: Params, hooks: Hooks<E>, s: State<E>, from: nat, to: nat) {
    && s.lastSealed + p.size <= s.current - p.depth
    && Covers(s.mem, s.lastSealed + 1, s.lastSealed + 1 + p.size)
    && var start, file := s.lastSealed + 1, Range(s.mem, s.lastSealed + 1, s.lastSealed + 1 + p.size);
       exists now: nat :: from <= now < to && SealFails(hooks, now, start, file)
  }

  predicate SealFails<E>(hooks: Hooks<E>, now: nat, start: int, file: seq<E>) {
    !hooks.writeSealedFile(now, start, file).Everything?
  }

  /** The backend did not answer about an unsealed height. */
  ghost predicate QuestionStopped<E>(hooks: Hooks<E>, s: State<E>, from: nat, to: nat) {
    exists now: nat, h :: from <= now < to && s.lastSealed < h <= s.current && h in s.mem && hooks.blockHash(now, h).None?
  }

  lemma QuestionFails<E>(hooks: Hooks<E>, s: State<E>, from: nat, to: nat, now: nat, h: int)
    requires from <= now < to && h in s.mem && hooks.blockHash(now, h).None?
    ensures s.lastSealed < h <= s.current ==> QuestionStopped(hooks, s, from, to)
  {
  }

  /** Every unsealed height was found to differ. */
  ghost predicate TooDeep<E>(hooks: Hooks<E>, s: State<E>, from: nat, to: nat) {
    exists walk: nat :: from <= walk && walk + (s.current - s.lastSealed) <= to && s.lastSealed < s.current
                        && WalkedDownTo(hooks, s.mem, walk, s.current, s.lastSealed)
  }

  /** Between two moments something happened that ends the process in this state. */
  ghost predicate Stopped<E>(p: Params, hooks: Hooks<E>, s: State<E>, from: nat, to: nat) {
    || IngestStopped(hooks, s, from, to) || SealStopped(p, hooks, s, from, to)
    || QuestionStopped(hooks, s, from, to) || TooDeep(hooks, s, from, to)
  }

  lemma SealStoppedEarlier<E>(p: Params, hooks: Hooks<E>, s: State<E>, earlier: nat, from: nat, to: nat)
    requires earlier <= from && SealStopped(p, hooks, s, from, to)
    ensures SealStopped(p, hooks, s, earlier, to)
  {
  }

  lemma StoppedEarlier<E>(p: Params, hooks: Hooks<E>, s: State<E>, earlier: nat, from: nat, to: nat)
    requires earlier <= from && Stopped(p, hooks, s, from, to)
    ensures Stopped(p, hooks, s, earlier, to)
  {
    if IngestStopped(hooks, s, from, to) {
      assert IngestStopped(hooks, s, earlier, to);
    } else if SealStopped(p, hooks, s, from, to) {
      SealStoppedEarlier(p, hooks, s, earlier, from, to);
    } else if QuestionStopped(hooks, s, from, to) {
      assert QuestionStopped(hooks, s, earlier, to);
    } else {
      assert TooDeep(hooks, s, earlier, to);
    }
  }

  class Producer<E> {
    const params: Params
    const hooks: Hooks<E>

    var files: map<int, seq<E>>
    var entries: map<int, E>
    var lastSealedHeight: int
    var currentHeight: int
    var clock: nat

    /** A seal broke off behind its resume file; the process is about to end. */
    var torn: bool

    /** The heights the shared height-to-hash cache was told to forget from. */
    var invalidated: seq<int>

    ghost function Abs(): State<E>
      reads this
    {
      State(files, entries, lastSealedHeight, currentHeight, torn)
    }

    ghost predicate Valid()
      reads this
    {
      Good(params, Abs())
    }

    /** A producer over an empty directory. */
    constructor (params: Params, hooks: Hooks<E>)
      requires ValidParams(params)
      ensures Valid() && !torn && Fresh(Abs()) && files == map[] && this.params == params && this.hooks == hooks
      ensures Prompt(params, Abs()) && Log(params, Abs()) == []
    {
      this.params, this.hooks := params, hooks;
      files, entries := map[], map[];
      lastSealedHeight, currentHeight, clock, torn, invalidated := -1, 0, 0, false, [];
      new;
      forall k | 0 <= k && k % params.size == 0 && k + params.size <= 0 ensures false {
      }
    }

    method CachedHash(height: int) returns (hash: Option<Hash>)
      ensures hash == if height in entries then Some(hooks.hashOf(entries[height])) else None
    {
      hash := if height in entries then Some(hooks.hashOf(entries[height])) else None;
    }

    /** Drops the in-memory entries of the inclusive range. */
    method Prune(start: int, end: int)
      modifies `entries
      ensures entries == map h | h in old(entries) && !(start <= h <= end) :: old(entries)[h]
    {
      var j := start;
      while j <= end
        invariant start <= j
        invariant entries == map h | h in old(entries) && !(start <= h < j && h <= end) :: old(entries)[h]
      {
        entries := map h | h in entries && h != j :: entries[h];
        j := j + 1;
      }
    }

    /** Fetches and stores one height; an error changes nothing but the clock. */
    method Ingest(height: int) returns (ok: bool)
      modifies `entries, `clock
      ensures ok <==> hooks.ingest(old(clock), height).Some?
      ensures entries == if ok then old(entries)[height := hooks.ingest(old(clock), height).value] else old(entries)
      ensures clock == old(clock) + 1
      ensures old(Sourced(hooks, files, entries)) ==> Sourced(hooks, files, entries)
    {
      var reply := hooks.ingest(clock, height);
      clock := clock + 1;
      if reply.None? {
        return false;
      }
      assert Answered(hooks, height, reply.value);
      entries := entries[height := reply.value];
      ok := true;
    }

    /**
     * Writes one file and promotes it. A refused file changes nothing; a seal that breaks
     * off behind the resume file leaves that file without being promoted.
     */
    method SealFile(fileStart: int, fileEnd: int) returns (written: Written)
      requires Valid() && !torn && Enabled(params, Abs(), Write)
      requires fileStart == lastSealedHeight + 1 && fileEnd == lastSealedHeight + params.size
      modifies `files, `entries, `lastSealedHeight, `clock, `torn
      ensures clock == old(clock) + 1
      ensures written == hooks.writeSealedFile(old(clock), fileStart, Range(old(entries), fileStart, fileEnd + 1))
      ensures Abs() == SealOutcome(params, old(Abs()), written)
      ensures old(Sourced(hooks, files, entries)) ==> Sourced(hooks, files, entries)
    {
      ghost var s := Abs();
      StepKeepsGood(params, s, Write);
      var batch := Range(entries, fileStart, fileEnd + 1);
      written := hooks.writeSealedFile(clock, fileStart, batch);
      clock := clock + 1;
      if written.Nothing? {
        return;
      }
      if Sourced(hooks, files, entries) {
        SourcedSeal(hooks, files, entries, clock - 1, fileStart, fileEnd + 1);
      }
      files := files[fileStart := batch];
      if written.ResumeOnly? {
        torn := true;
        return;
      }
      Prune(fileStart, fileEnd);
      lastSealedHeight := fileEnd;
      PromotedMemory(params, s, entries);
    }

    /**
     * Seals every file that has become reorg-safe. The log is untouched; success leaves
     * nothing overdue, failure leaves the file it stopped at, and later ones, unpromoted.
     */
    method SealReadyFiles() returns (ok: bool, ghost n: nat)
      requires Valid() && !torn
      modifies `files, `entries, `lastSealedHeight, `clock, `torn
      ensures Valid() && SealedFrom(params, old(Abs()), Abs(), n)
      ensures old(clock) <= clock && (!ok ==> SealStopped(params, hooks, Abs(), old(clock), clock))
      ensures ok <==> Prompt(params, Abs())
      ensures ok ==> !torn
      ensures Log(params, Abs()) == old(Log(params, Abs()))
      ensures old(Sourced(hooks, files, entries)) ==> Sourced(hooks, files, entries)
      ensures lastSealedHeight == old(lastSealedHeight) + Times(n, params.size)
      ensures n + (if torn then 1 else 0) <= 1 || old(currentHeight) - old(lastSealedHeight) > params.size + params.depth
    {
      n := 0;
      ghost var s0 := Abs();
      while true
        invariant Sealing(s0, n) && old(clock) <= clock
        invariant old(Sourced(hooks, files, entries)) ==> Sourced(hooks, files, entries)
        decreases currentHeight - lastSealedHeight
      {
        ghost var now := clock;
        var more;
        more, ok := SealNext(s0, n);
        if !more {
          if !ok {
            SealStoppedEarlier(params, hooks, Abs(), old(clock), now, clock);
          }
          return ok, n;
        }
        n := n + 1;
      }
    }

    /** The sealing loop has promoted `n` files. */
    ghost predicate Sealing(s0: State<E>, n: nat)
      reads this
    {
      Valid() && !torn && Good(params, s0) && !s0.written && SealedFrom(params, s0, Abs(), n)
    }

    /** One round of the sealing loop: nothing is due, or the next file is sealed, or not. */
    method SealNext(ghost s0: State<E>, ghost n: nat) returns (more: bool, ok: bool)
      requires Sealing(s0, n)
      modifies `files, `entries, `lastSealedHeight, `clock, `torn
      ensures old(clock) <= clock
      ensures more ==> Sealing(s0, n + 1) && old(lastSealedHeight) < lastSealedHeight <= currentHeight
      ensures !more ==> Valid() && AfterSealing(params, s0, Abs(), n) && SealedFrom(params, s0, Abs(), n)
      ensures !more ==> (ok <==> Prompt(params, Abs())) && (ok ==> !torn)
      ensures !more && !ok ==> SealStopped(params, hooks, Abs(), old(clock), clock)
      ensures old(Sourced(hooks, files, entries)) ==> Sourced(hooks, files, entries)
    {
      var safeTip := currentHeight - params.depth;
      var nextEnd := lastSealedHeight + params.size;
      if lastSealedHeight < 0 {
        nextEnd := params.size - 1;
      }
      SealedFromFacts(params, s0, Abs(), n);
      if nextEnd > safeTip {
        return false, true;
      }
      var fileStart := nextEnd - params.size + 1;

      ghost var s := Abs();
      var written := SealFile(fileStart, nextEnd);
      AfterSeal(params, hooks, s0, s, n, written, old(clock));
      more, ok := written.Everything?, written.Everything?;
    }

    /** One height of the catch-up: ingest it, make it the tip, seal what is due. */
    method Advance(height: int) returns (ok: bool, ghost run: seq<Step<E>>, ghost added: seq<E>)
      requires Valid() && !torn && Prompt(params, Abs())
      requires height == Next(Abs())
      modifies `files, `entries, `lastSealedHeight, `currentHeight, `clock, `torn
      ensures Valid() && Reached(params, old(Abs()), run, Abs())
      ensures ok ==> !torn && Prompt(params, Abs()) && |added| == 1 && currentHeight == height
      ensures old(clock) <= clock && (!ok ==> Stopped(params, hooks, Abs(), old(clock), clock))
      ensures Log(params, Abs()) == old(Log(params, Abs())) + added
      ensures |added| <= 1 && (|added| == 1 ==> AnsweredIn(hooks, old(clock), clock, height, added[0]))
      ensures old(lastSealedHeight) <= lastSealedHeight
      ensures old(Sourced(hooks, files, entries)) ==> Sourced(hooks, files, entries)
    {
      ghost var s := Abs();
      var fetched := Ingest(height);
      if !fetched {
        return false, [], [];
      }
      currentHeight := height;
      added := [entries[height]];
      assert AnsweredIn(hooks, old(clock), clock, height, entries[height]);
      IngestStep(params, s, [], s, entries[height]);
      assert Abs() == Apply(params, s, Step<E>.Ingest(entries[height]));
      run := [] + [Step<E>.Ingest(entries[height])];
      ghost var n;
      ok, n := SealReadyFiles();
      AppendSealRun(params, s, run, n, torn);
      run := run + SealRun(n, torn);
    }

    /**
     * Ingests `start..end`, sealing after every height. On success every height holds
     * what the backend answered for it at some moment, and each file was written at
     * the earliest safe height. It fails only where an ingest or a seal did.
     */
    method UpdateCacheAndFiles(start: int, end: int) returns (ok: bool, ghost run: seq<Step<E>>)
      requires Valid() && !torn && Prompt(params, Abs())
      requires start == Next(Abs())
      modifies `files, `entries, `lastSealedHeight, `currentHeight, `clock, `torn
      ensures Valid()
      ensures ok ==> !torn && Prompt(params, Abs())
      ensures ok ==> Next(Abs()) == if start <= end then end + 1 else start
      ensures ok ==> currentHeight == if start <= end then end else old(currentHeight)
      ensures old(clock) <= clock && (!ok ==> Stopped(params, hooks, Abs(), old(clock), clock))
      ensures CaughtUp(params, hooks, old(Abs()), run, Abs(), old(clock), clock)
      ensures old(Sourced(hooks, files, entries)) ==> Sourced(hooks, files, entries)
    {
      run := [];
      ghost var s0 := Abs();
      var i := start;
      while i <= end
        invariant start <= i && (i <= end + 1 || i == start)
        invariant Valid() && !torn && Prompt(params, Abs()) && old(clock) <= clock
        invariant currentHeight == if start < i then i - 1 else old(currentHeight)
        invariant CaughtUp(params, hooks, s0, run, Abs(), old(clock), clock) && Next(Abs()) == i
        invariant old(Sourced(hooks, files, entries)) ==> Sourced(hooks, files, entries)
      {
        ghost var s, rest, added, now := Abs(), [], [], clock;
        ok, rest, added := Advance(i);
        CaughtUpFurther(params, hooks, s0, run, s, rest, added, Abs(), old(clock), now, clock);
        run := run + rest;
        if !ok {
          StoppedEarlier(params, hooks, Abs(), old(clock), now, clock);
          return false, run;
        }
        i := i + 1;
      }
      ok := true;
    }

    // ---------- reorgs ----------

    /** The cheap check of the poll loop; a missing hash or a failed call counts as no reorg. */
    method TipReorged() returns (reorged: bool)
      modifies `clock
      ensures old(clock) <= clock
      ensures reorged <==> currentHeight >= 0 && Disagrees(hooks, entries, old(clock), currentHeight)
      ensures clock == old(clock) + if currentHeight >= 0 && currentHeight in entries then 1 else 0
    {
      if currentHeight < 0 {
        return false;
      }
      var ours := CachedHash(currentHeight);
      if ours.None? {
        return false;
      }
      var theirs := hooks.blockHash(clock, currentHeight);
      clock := clock + 1;
      if theirs.None? {
        return false;
      }
      reorged := ours.value != theirs.value;
    }

    /**
     * Walks back from the tip, one question per height. The result is the highest
     * height above the sealed ones where both sides agree, or the last sealed height
     * if there is none; the walk fails at the first question the backend fails.
     */
    method FindCommonAncestor(tip: int) returns (common: Option<int>)
      requires lastSealedHeight <= tip
      modifies `clock
      ensures common.Some? ==>
                && lastSealedHeight <= common.value <= tip
                && (lastSealedHeight < common.value ==> FoundAt(hooks, entries, old(clock), tip, common.value))
                && PassedOverDownTo(hooks, entries, old(clock), tip, common.value)
      ensures common.None? ==> exists h :: FailsFirstAt(hooks, entries, lastSealedHeight, old(clock), tip, h)
      ensures common.None? && tip == currentHeight ==> QuestionStopped(hooks, Abs(), old(clock), clock)
      ensures clock >= old(clock) + if common.Some? then tip - common.value else 0
      ensures common.Some? && lastSealedHeight < common.value ==> clock > old(clock) + (tip - common.value)
    {
      var hgt := tip;
      while hgt > lastSealedHeight
        invariant lastSealedHeight <= hgt <= tip && clock == old(clock) + (tip - hgt)
        invariant PassedOverDownTo(hooks, entries, old(clock), tip, hgt)
      {
        var ours := CachedHash(hgt);
        var now := clock;
        clock := clock + 1;
        if ours.Some? {
          var theirs := hooks.blockHash(now, hgt);
          if theirs.None? {
            assert FailsFirstAt(hooks, entries, lastSealedHeight, old(clock), tip, hgt);
            QuestionFails(hooks, Abs(), old(clock), clock, now, hgt);
            return None;
          }
          if ours.value == theirs.value {
            return Some(hgt);
          }
        }
        assert PassedOver(hooks, entries, old(clock), tip, hgt);
        hgt := hgt - 1;
      }
      common := Some(lastSealedHeight);
    }

    /** Truncates memory to `toHeight` and makes the shared cache forget what lies above. */
    method Rollback(toHeight: int)
      requires Valid() && Enabled(params, Abs(), Step<E>.Rollback(toHeight))
      modifies `entries, `currentHeight, `invalidated
      ensures Abs() == Apply(params, old(Abs()), Step<E>.Rollback(toHeight))
      ensures entries == map h | h in old(entries) && h <= toHeight :: old(entries)[h]
      ensures currentHeight == toHeight && invalidated == old(invalidated) + [toHeight + 1]
      ensures old(Sourced(hooks, files, entries)) ==> Sourced(hooks, files, entries)
    {
      Prune(toHeight + 1, currentHeight);
      currentHeight := toHeight;
      invalidated := invalidated + [toHeight + 1];
      assert entries == Apply(params, old(Abs()), Step<E>.Rollback(toHeight)).mem;
    }

    /** What happens to a tip that was found to differ. */
    method CutAtAncestor(tip: int) returns (outcome: ReorgOutcome)
      requires Valid() && !torn && !Fresh(Abs()) && WindowFull(Abs()) && tip == currentHeight
      modifies `entries, `currentHeight, `clock, `invalidated
      ensures Valid() && old(clock) <= clock && !outcome.Kept?
      ensures outcome.RolledBack? ==>
                && FoundAhead(hooks, old(entries), lastSealedHeight, old(clock), tip, outcome.to)
                && old(clock) + (tip - outcome.to) < clock
                && Abs() == Apply(params, old(Abs()), Step<E>.Rollback(outcome.to))
      ensures outcome.DeepReorg? ==> WalkedDownTo(hooks, entries, old(clock), tip, lastSealedHeight)
      ensures outcome.BackendError? ==> exists h :: WalkFailsAt(hooks, entries, lastSealedHeight, old(clock), tip, h)
      ensures !outcome.RolledBack? ==> Abs() == old(Abs()) && Stopped(params, hooks, Abs(), old(clock), clock)
      ensures invalidated == old(invalidated) + if outcome.RolledBack? then [outcome.to + 1] else []
      ensures old(Sourced(hooks, files, entries)) ==> Sourced(hooks, files, entries)
    {
      ghost var walk := clock;
      var common := FindCommonAncestor(tip);
      if common.None? {
        FailedWalk(hooks, Abs(), walk);
        return BackendError;
      }
      FinishedWalk(hooks, Abs(), walk, common.value);
      if common.value <= lastSealedHeight {
        EmptyWalk(params, hooks, Abs(), walk, walk, clock);
        return DeepReorg;
      }
      StepKeepsGood(params, Abs(), Step<E>.Rollback(common.value));
      Rollback(common.value);
      outcome := RolledBack(common.value);
    }

    /**
     * Nothing changes unless the tip disagrees; then memory is cut at the highest
     * unsealed height that agrees, and if there is none the reorg is refused untouched.
     */
    method HandleReorg() returns (outcome: ReorgOutcome)
      requires Valid() && !torn
      modifies `entries, `currentHeight, `clock, `invalidated
      ensures Valid()
      ensures ReorgSpec(hooks, old(entries), lastSealedHeight, old(currentHeight), old(clock), outcome)
      ensures outcome.RolledBack? ==>
                && old(Enabled(params, Abs(), Step<E>.Rollback(outcome.to)))
                && Abs() == Apply(params, old(Abs()), Step<E>.Rollback(outcome.to))
      ensures !outcome.RolledBack? ==> Abs() == old(Abs())
      ensures invalidated == old(invalidated) + if outcome.RolledBack? then [outcome.to + 1] else []
      ensures AskedBefore(old(entries), old(currentHeight), old(clock), outcome, clock)
      ensures outcome.DeepReorg? || outcome.BackendError? ==> Stopped(params, hooks, Abs(), old(clock), clock)
      ensures old(Sourced(hooks, files, entries)) ==> Sourced(hooks, files, entries)
    {
      var tip := currentHeight;
      if tip < 0 {
        return Kept;
      }
      var ours := CachedHash(tip);
      if ours.None? {
        return Kept;
      }
      var theirs := hooks.blockHash(clock, tip);
      clock := clock + 1;
      if theirs.None? {
        TipInMemory(params, Abs());
        QuestionFails(hooks, Abs(), old(clock), clock, old(clock), tip);
        return BackendError;
      }
      if ours.value == theirs.value {
        return Kept;
      }
      TipInMemory(params, Abs());
      outcome := CutAtAncestor(tip);
    }

    /** The reorg part of a poll round, as a run. */
    method CutBack() returns (ok: bool, ghost run: seq<Step<E>>, ghost outcome: ReorgOutcome)
      requires Valid() && !torn && Prompt(params, Abs()) && !Fresh(Abs())
      modifies `entries, `currentHeight, `clock, `invalidated
      ensures Valid() && Reached(params, old(Abs()), run, Abs())
      ensures Prompt(params, Abs()) && !Fresh(Abs()) && !torn && lastSealedHeight == old(lastSealedHeight)
      ensures ReorgSpec(hooks, old(entries), lastSealedHeight, old(currentHeight), old(clock), outcome)
      ensures AskedBefore(old(entries), old(currentHeight), old(clock), outcome, clock)
      ensures ok <==> outcome.Kept? || outcome.RolledBack?
      ensures CutTo(params, old(Abs()), outcome, Abs())
      ensures old(clock) <= clock && (!ok ==> Stopped(params, hooks, Abs(), old(clock), clock))
      ensures old(Sourced(hooks, files, entries)) ==> Sourced(hooks, files, entries)
    {
      ghost var s := Abs();
      var answer := HandleReorg();
      outcome, run := answer, [];
      if answer.RolledBack? {
        run := [Step<E>.Rollback(answer.to)];
        StepRefinesLog(params, s, run[0]);
        SingleStep(params, s, run[0]);
        assert run == [run[0]];
      }
      ok := !answer.DeepReorg? && !answer.BackendError?;
    }

    /** The round of a moment at which the height moved, or the tip was found to differ. */
    method Follow(height: int, ghost from: nat) returns (ok: bool, ghost run: seq<Step<E>>, ghost outcome: ReorgOutcome)
      requires Valid() && !torn && Prompt(params, Abs()) && !Fresh(Abs())
      requires height == currentHeight ==> Disagrees(hooks, entries, from, currentHeight)
      requires clock == if height == currentHeight then from + 1 else from
      modifies this
      ensures Valid() && Reached(params, old(Abs()), run, Abs())
      ensures Polled(params, hooks, old(Abs()), height, from, Handled(outcome), ok, Abs(), clock)
      ensures ok ==> !torn && Prompt(params, Abs()) && !Fresh(Abs())
      ensures from <= clock && (!ok ==> Stopped(params, hooks, Abs(), from, clock))
      ensures old(Sourced(hooks, files, entries)) ==> Sourced(hooks, files, entries)
    {
      ghost var s, asked := Abs(), clock;
      ok, run, outcome := CutBack();
      if !ok {
        StoppedEarlier(params, hooks, Abs(), from, asked, clock);
        return;
      }
      if height <= currentHeight {
        return;
      }
      ghost var m, rest, now := Abs(), [], clock;
      ok, rest := UpdateCacheAndFiles(currentHeight + 1, height);
      PolledThen(params, hooks, s, height, from, asked, outcome, m, now, rest, ok, Abs(), clock);
      RoundJoins(params, hooks, s, run, m, rest, Abs(), from, now, clock, ok);
      run := run + rest;
    }

    /** One round of the poll loop; `height` is the backend's block count. */
    method PollOnce(height: int) returns (ok: bool, ghost run: seq<Step<E>>, ghost poll: Poll)
      requires Valid() && !torn && Prompt(params, Abs()) && !Fresh(Abs())
      modifies this
      ensures Valid() && Reached(params, old(Abs()), run, Abs())
      ensures Polled(params, hooks, old(Abs()), height, old(clock), poll, ok, Abs(), clock)
      ensures ok ==> !torn && Prompt(params, Abs()) && !Fresh(Abs())
      ensures old(clock) <= clock && (!ok ==> Stopped(params, hooks, Abs(), old(clock), clock))
      ensures old(Sourced(hooks, files, entries)) ==> Sourced(hooks, files, entries)
    {
      ghost var from := clock;
      if height == currentHeight {
        var reorged := TipReorged();
        if !reorged {
          return true, [], Quiet;
        }
      }
      ghost var outcome;
      ok, run, outcome := Follow(height, from);
      poll := Handled(outcome);
    }

    /**
     * A new process over whatever the last one left on disk, `end` entries: memory is
     * gone and the resume point is read off the file names.
     */
    method Restart(listing: seq<string>, suffix: string, ghost end: nat) returns (ok: bool)
      requires ValidParams(params) && FilesUpTo(params.size, files, end) && end % params.size == 0
      requires FileNames.ListsSealed(listing, suffix, params.size, end)
      modifies `entries, `lastSealedHeight, `currentHeight, `torn
      ensures !torn
      ensures end <= FileNames.HEIGHT_LIMIT ==> ok && Valid() && Prompt(params, Abs())
      ensures end <= FileNames.HEIGHT_LIMIT ==>
                Abs() == Restarted(files, end)
      ensures old(Sourced(hooks, files, entries)) ==> Sourced(hooks, files, entries)
    {
      entries, torn := map[], false;
      currentHeight := 0;
      var lookup := FileNames.ResumePoint(listing, suffix, params.size, end);
      if lookup.Unparseable? {
        return false;
      }
      var lastBlock := if lookup.NoFiles? then 0 else lookup.end;
      if lastBlock > 0 {
        lastSealedHeight := lastBlock;
        currentHeight := lastBlock;
      } else {
        lastSealedHeight := -1;
      }
      if end > 0 {
        EndAtLeastSize(params.size, end);
      }
      ok := true;
    }

    /** One poll round per block count in `ticks`, up to the first that fails or is missing. */
    method PollLoop(ticks: seq<Option<int>>) returns (ok: bool, ghost run: seq<Step<E>>, ghost trace: seq<Moment<E>>)
      requires Valid() && !torn && Prompt(params, Abs()) && !Fresh(Abs())
      modifies this
      ensures Valid() && Reached(params, old(Abs()), run, Abs()) && old(clock) <= clock
      ensures ok ==> !torn && Prompt(params, Abs())
      ensures !ok ==> Stopped(params, hooks, Abs(), old(clock), clock) || None in ticks
      ensures PolledThrough(params, hooks, trace, ticks) && trace != [] && trace[0] == Moment(old(Abs()), old(clock))
      ensures ok ==> |trace| == |ticks| + 1 && trace[|ticks|] == Moment(Abs(), clock)
      ensures !ok ==> |trace| <= |ticks| && Gone(params, hooks, trace, ticks, Moment(Abs(), clock))
      ensures old(Sourced(hooks, files, entries)) ==> Sourced(hooks, files, entries)
    {
      run := [];
      trace := [Moment(Abs(), clock)];
      ghost var s0 := Abs();
      for i := 0 to |ticks|
        invariant Valid() && !torn && Prompt(params, Abs()) && !Fresh(Abs()) && old(clock) <= clock
        invariant Reached(params, s0, run, Abs())
        invariant |trace| == i + 1 && trace[i] == Moment(Abs(), clock) && trace[0] == Moment(s0, old(clock))
        invariant PolledThrough(params, hooks, trace, ticks)
        invariant old(Sourced(hooks, files, entries)) ==> Sourced(hooks, files, entries)
      {
        if ticks[i].None? {
          return false, run, trace;
        }
        ghost var rest, now, poll := [], clock, Quiet;
        ok, rest, poll := PollOnce(ticks[i].value);
        OnTimeConcat(params, s0, run, rest);
        run := run + rest;
        if !ok {
          StoppedEarlier(params, hooks, Abs(), old(clock), now, clock);
          RoundFails(params, hooks, trace, ticks, i, poll, Moment(Abs(), clock));
          return;
        }
        RoundEnds(params, hooks, trace, ticks, i, poll, Moment(Abs(), clock));
        trace := trace + [Moment(Abs(), clock)];
      }
      ok := true;
    }

    /**
     * A whole process: resume, catch up to `numBlocks`, then one poll round per block
     * count in `ticks`. Whatever the backend answers, it takes legal, timely steps from
     * the restarted state, and as long as it has not failed nothing is overdue. It gets
     * through only with every round done, and ends early only for a reason that holds in
     * its last state, or without a block count. `trace` are the states between the rounds.
     */
    method UpdateFiles(listing: seq<string>, suffix: string, numBlocks: nat, ticks: seq<Option<int>>, ghost end: nat)
      returns (ok: bool, ghost run: seq<Step<E>>, ghost trace: seq<Moment<E>>)
      requires ValidParams(params) && FilesUpTo(params.size, files, end) && end % params.size == 0
      requires FileNames.ListsSealed(listing, suffix, params.size, end)
      requires end <= FileNames.HEIGHT_LIMIT
      modifies this
      ensures Valid() && Good(params, Restarted(old(files), end))
      ensures Reached(params, Restarted(old(files), end), run, Abs())
      ensures ok ==> !torn && Prompt(params, Abs())
      ensures !ok ==> Stopped(params, hooks, Abs(), old(clock), clock) || None in ticks
      ensures PolledThrough(params, hooks, trace, ticks)
      ensures trace != [] ==> StartsCaughtUp(params, hooks, Restarted(old(files), end), numBlocks, old(clock), trace[0])
      ensures ok ==> |trace| == |ticks| + 1 && trace[|ticks|] == Moment(Abs(), clock)
      ensures !ok ==> |trace| <= |ticks| && (trace != [] ==> Gone(params, hooks, trace, ticks, Moment(Abs(), clock)))
      ensures old(Sourced(hooks, files, entries)) ==> Sourced(hooks, files, entries)
    {
      var resumed := Restart(listing, suffix, end);
      ghost var s0 := Abs();
      ok, run := UpdateCacheAndFiles(lastSealedHeight + 1, numBlocks);
      if !ok {
        return false, run, [];
      }
      ghost var rest, now := [], clock;
      ok, rest, trace := PollLoop(ticks);
      OnTimeConcat(params, s0, run, rest);
      run := run + rest;
      if !ok && Stopped(params, hooks, Abs(), now, clock) {
        StoppedEarlier(params, hooks, Abs(), old(clock), now, clock);
      }
    }

    /**
     * The process ends or is killed: between two steps, or after a file was written and
     * before it was promoted, whether or not the rest of its batch was written. What is
     * left are the files a restart looks for, of `end` entries.
     */
    method Kill(afterWrite: bool) returns (end: nat)
      requires Valid()
      modifies `files, `clock
      ensures FilesUpTo(params.size, files, end) && end % params.size == 0
      ensures old(Sourced(hooks, files, entries)) ==> Sourced(hooks, files, entries)
      ensures exists s :: s in {old(Abs()), WrittenOrNot(params, old(Abs()))} && files == s.files && end == DiskEnd(params, s)
    {
      ghost var s := Abs();
      var fileStart := lastSealedHeight + 1;
      DiskEndAligned(params, s);
      end := fileStart + if torn then params.size else 0;
      if afterWrite && !torn && lastSealedHeight + params.size <= currentHeight - params.depth {
        StepKeepsGood(params, s, Write);
        StepKeepsDurable(params, s, Write);
        ModStep(fileStart, params.size);
        var batch := Range(entries, fileStart, fileStart + params.size);
        if !hooks.writeSealedFile(clock, fileStart, batch).Nothing? {
          if Sourced(hooks, files, entries) {
            SourcedSeal(hooks, files, entries, clock, fileStart, fileStart + params.size);
          }
          files := files[fileStart := batch];
          end := fileStart + params.size;
        }
        clock := clock + 1;
      }
    }
  }

  /** After the write that is due, if one is. */
  ghost function WrittenOrNot<E>(p: Params, s: State<E>): (t: State<E>)
    requires Good(p, s)
  {
    if Enabled(p, s, Write) then Apply(p, s, Write) else s
  }

  /** One process: the block count it starts with, its polls, and how it is killed. */
  datatype Process = Process(numBlocks: nat, ticks: seq<Option<int>>, killedAfterWrite: bool)

  /**
   * One process after the other over one directory, each killed somewhere: whatever the
   * backend answers, every file there was let through by the producer's own check, and
   * every entry in it is what the backend answered for its height.
   */
  method Lifetimes<E>(params: Params, hooks: Hooks<E>, listings: nat -> seq<string>, suffix: string, processes: seq<Process>)
    returns (p: Producer<E>, end: nat)
    requires ValidParams(params)
    requires forall n: nat :: n % params.size == 0 ==> FileNames.ListsSealed(listings(n), suffix, params.size, n)
    ensures p.params == params && p.hooks == hooks
    ensures FilesUpTo(params.size, p.files, end) && end % params.size == 0
    ensures Sourced(hooks, p.files, p.entries)
  {
    p := new Producer(params, hooks);
    end := 0;
    for i := 0 to |processes|
      invariant fresh(p) && p.params == params && p.hooks == hooks
      invariant FilesUpTo(params.size, p.files, end) && end % params.size == 0
      invariant Sourced(hooks, p.files, p.entries)
    {
      if end > FileNames.HEIGHT_LIMIT {
        return;
      }
      var ok;
      ghost var run, trace;
      ok, run, trace := p.UpdateFiles(listings(end), suffix, processes[i].numBlocks, processes[i].ticks, end);
      end := p.Kill(processes[i].killedAfterWrite);
    }
  }

  /** State `s` is reached from `s0` by sealing `n` files, and perhaps writing one more. */
  ghost predicate SealedFrom<E>(p: Params, s0: State<E>, s: State<E>, n: nat)
    requires Good(p, s0)
  {
    Legal(p, s0, SealRun(n, s.written)) && s == Exec(p, s0, SealRun(n, s.written))
  }

  lemma SealSteps<E>(p: Params, s0: State<E>, s: State<E>, n: nat)
    requires Good(p, s0) && SealedFrom(p, s0, s, n) && Enabled(p, s, Write)
    ensures Good(p, s) && Good(p, SealedOnce(p, s)) && SealedFrom(p, s0, SealedOnce(p, s), n + 1)
    ensures Good(p, Apply(p, s, Write)) && SealedFrom(p, s0, Apply(p, s, Write), n)
  {
    StepKeepsGood(p, s, Write);
    RunSnoc(p, s0, SealRun(n, false), Write);
    var t := Apply(p, s, Write);
    StepKeepsGood(p, t, Promote);
    RunSnoc(p, s0, SealRun(n, false) + [Write], Promote);
    assert SealRun<E>(n + 1, false) == SealRun<E>(n, false) + [Write] + [Promote];
  }

  /** What `n` promoted files leave as it was. */
  lemma {:induction false} PromotedFacts<E>(p: Params, s0: State<E>, n: nat)
    requires Good(p, s0) && !s0.written && Legal(p, s0, SealRun(n, false))
    ensures var s := Exec(p, s0, SealRun(n, false));
            && !s.written && s.current == s0.current && s.lastSealed == s0.lastSealed + Times(n, p.size)
            && Log(p, s) == Log(p, s0)
            && (n > 1 ==> s0.current - s0.lastSealed > p.size + p.depth)
    decreases n
  {
    if n > 0 {
      var run := SealRun<E>(n - 1, false);
      LegalSplit(p, s0, run, [Write, Promote]);
      var m := Exec(p, s0, run);
      PromotedFacts(p, s0, n - 1);
      StepRefinesLog(p, m, Write);
      var t := Apply(p, m, Write);
      assert [Write, Promote][1..] == [Step<E>.Promote];
      StepRefinesLog(p, t, Promote);
      assert [Step<E>.Promote][1..] == [];
      assert Exec(p, s0, SealRun(n, false)) == Apply(p, t, Promote);
    }
  }

  /** What sealing leaves as it was, and how far it got. */
  ghost predicate AfterSealing<E>(p: Params, s0: State<E>, s: State<E>, n: nat)
    requires Good(p, s0) && Good(p, s)
  {
    && s.current == s0.current && s.lastSealed == s0.lastSealed + Times(n, p.size)
    && Log(p, s) == Log(p, s0)
    && (n + (if s.written then 1 else 0) > 1 ==> s0.current - s0.lastSealed > p.size + p.depth)
  }

  lemma SealedFromFacts<E>(p: Params, s0: State<E>, s: State<E>, n: nat)
    requires Good(p, s0) && !s0.written && SealedFrom(p, s0, s, n)
    ensures Good(p, s) && AfterSealing(p, s0, s, n)
  {
    if s.written {
      var run := SealRun<E>(n, false);
      LegalSplit(p, s0, run, [Write]);
      PromotedFacts(p, s0, n);
      var m := Exec(p, s0, run);
      StepRefinesLog(p, m, Write);
      assert [Step<E>.Write][1..] == [];
      assert s == Apply(p, m, Write);
    } else {
      PromotedFacts(p, s0, n);
    }
  }

  /** One more seal, however far it got. */
  lemma AfterSeal<E>(p: Params, hooks: Hooks<E>, s0: State<E>, s: State<E>, n: nat, written: Written, now: nat)
    requires Good(p, s0) && !s0.written && Good(p, s) && SealedFrom(p, s0, s, n) && Enabled(p, s, Write)
    requires written == hooks.writeSealedFile(now, s.lastSealed + 1, Range(s.mem, s.lastSealed + 1, s.lastSealed + 1 + p.size))
    ensures var t := SealOutcome(p, s, written);
            && Good(p, t) && SealedFrom(p, s0, t, if written.Everything? then n + 1 else n)
            && (!written.Everything? ==> AfterSealing(p, s0, t, n) && SealStopped(p, hooks, t, now, now + 1))
  {
    var t := SealOutcome(p, s, written);
    SealSteps(p, s0, s, n);
    if !written.Everything? {
      SealedFromFacts(p, s0, t, n);
      StoppedSeal(p, hooks, s, t, now);
    }
  }

  /** A seal that was refused or broke off leaves a file due. */
  lemma StoppedSeal<E>(p: Params, hooks: Hooks<E>, s: State<E>, t: State<E>, now: nat)
    requires Good(p, s) && Enabled(p, s, Write) && (t == s || t == Apply(p, s, Write))
    requires SealFails(hooks, now, s.lastSealed + 1, Range(s.mem, s.lastSealed + 1, s.lastSealed + 1 + p.size))
    ensures SealStopped(p, hooks, t, now, now + 1)
  {
  }

  lemma SingleStep<E>(p: Params, s: State<E>, step: Step<E>)
    requires Good(p, s) && Enabled(p, s, step) && !step.Write? && !step.Ingest?
    ensures Legal(p, s, [step]) && Exec(p, s, [step]) == Apply(p, s, step) && OnTime(p, s, [step])
  {
    StepKeepsGood(p, s, step);
    assert [step][1..] == [];
  }

  lemma EndAtLeastSize(size: nat, end: nat)
    requires size > 0 && end % size == 0 && end > 0
    ensures end >= size
  {
    if end < size {
      AlignedGap(0, end, size);
    }
  }

  lemma {:induction false} OnTimeConcat<E>(p: Params, s: State<E>, a: seq<Step<E>>, b: seq<Step<E>>)
    requires Good(p, s) && Legal(p, s, a) && OnTime(p, s, a)
    requires Legal(p, Exec(p, s, a), b) && OnTime(p, Exec(p, s, a), b)
    ensures Legal(p, s, a + b) && OnTime(p, s, a + b)
    ensures Exec(p, s, a + b) == Exec(p, Exec(p, s, a), b)
    decreases |a|
  {
    RunConcat(p, s, a, b);
    if a == [] {
      assert a + b == b;
    } else {
      StepKeepsGood(p, s, a[0]);
      OnTimeConcat(p, Apply(p, s, a[0]), a[1..], b);
      assert (a + b)[1..] == a[1..] + b;
    }
  }

  lemma IngestStep<E>(p: Params, s0: State<E>, run: seq<Step<E>>, s: State<E>, entry: E)
    requires Good(p, s0) && Reached(p, s0, run, s) && Prompt(p, s) && !s.written
    ensures var t := Apply(p, s, Step<E>.Ingest(entry));
            && Good(p, t) && Reached(p, s0, run + [Step<E>.Ingest(entry)], t)
            && Next(t) == Next(s) + 1 && Log(p, t) == Log(p, s) + [entry]
  {
    var step := Step<E>.Ingest(entry);
    StepRefinesLog(p, s, step);
    StepKeepsGood(p, s, step);
    OnTimeSnoc(p, s0, run, step);
    RunSnoc(p, s0, run, step);
  }

  /** From a prompt state plus one ingest, at most one file is due, and it is due now. */
  lemma AppendSealRun<E>(p: Params, s0: State<E>, run: seq<Step<E>>, n: nat, torn: bool)
    requires Good(p, s0) && Legal(p, s0, run) && OnTime(p, s0, run)
    requires Legal(p, Exec(p, s0, run), SealRun(n, torn)) && n + (if torn then 1 else 0) <= 1
    requires Exec(p, s0, run).current - Exec(p, s0, run).lastSealed <= p.size + p.depth
    ensures Legal(p, s0, run + SealRun(n, torn)) && OnTime(p, s0, run + SealRun(n, torn))
    ensures Exec(p, s0, run + SealRun(n, torn)) == Exec(p, Exec(p, s0, run), SealRun(n, torn))
  {
    SealOnTime(p, Exec(p, s0, run), n, torn);
    OnTimeConcat(p, s0, run, SealRun(n, torn));
  }

  lemma SealOnTime<E>(p: Params, s: State<E>, n: nat, torn: bool)
    requires Good(p, s) && Legal(p, s, SealRun(n, torn)) && n + (if torn then 1 else 0) <= 1
    requires s.current - s.lastSealed <= p.size + p.depth
    ensures OnTime(p, s, SealRun(n, torn))
  {
    assert SealRun<E>(0, false) == [];
    if torn {
      assert SealRun<E>(n, torn) == [Write];
      assert [Step<E>.Write][1..] == [];
    } else if n == 1 {
      assert SealRun<E>(n, torn) == [Write, Promote];
      assert [Step<E>.Write, Promote][1..] == [Promote];
      assert [Step<E>.Promote][1..] == [];
    }
  }

  // ---------- the remaining window ----------

  /** The recorded hashes from `lo+1` to `hi` are each other's parents. */
  ghost predicate ParentLinked(parent: Hash -> Hash, hashAt: int -> Hash, lo: int, hi: int) {
    forall h :: lo + 1 < h <= hi ==> LinkedAt(parent, hashAt, h)
  }

  predicate LinkedAt(parent: Hash -> Hash, hashAt: int -> Hash, h: int) {
    parent(hashAt(h)) == hashAt(h - 1)
  }

  /** Two parent-linked windows that meet at the top are the same window. */
  lemma {:induction false} AgreementGoesDown(parent: Hash -> Hash, ours: int -> Hash, theirs: int -> Hash,
                                             lo: int, hi: int)
    requires lo < hi && ours(hi) == theirs(hi)
    requires ParentLinked(parent, ours, lo, hi) && ParentLinked(parent, theirs, lo, hi)
    ensures forall h :: lo < h <= hi ==> ours(h) == theirs(h)
    decreases hi - lo
  {
    if lo + 1 < hi {
      assert LinkedAt(parent, ours, hi) && LinkedAt(parent, theirs, hi);
      AgreementGoesDown(parent, ours, theirs, lo, hi - 1);
    }
  }

  /**
   * After a rollback to a height that agrees with the backend, everything still in memory
   * is on the backend's chain of that moment, provided the ingested blocks were each
   * other's parents.
   */
  lemma WindowOnBackendChain<E>(p: Params, hooks: Hooks<E>, s: State<E>, to: int, now: nat,
                                parent: Hash -> Hash, backend: int -> Hash)
    requires Good(p, s) && Enabled(p, s, Step<E>.Rollback(to))
    requires forall h :: s.lastSealed < h <= to ==> AnsweredAt(hooks, backend, now, h)
    requires Agrees(hooks, s.mem, now, to)
    requires ParentLinked(parent, backend, s.lastSealed, to)
    requires ParentLinked(parent, Recorded(hooks, s.mem), s.lastSealed, to)
    ensures forall h :: h in Apply(p, s, Step<E>.Rollback(to)).mem ==> Agrees(hooks, s.mem, now, h)
  {
    var ours := Recorded(hooks, s.mem);
    assert AnsweredAt(hooks, backend, now, to);
    AgreementGoesDown(parent, ours, backend, s.lastSealed, to);
    forall h | h in Apply(p, s, Step<E>.Rollback(to)).mem ensures Agrees(hooks, s.mem, now, h) {
      assert ours(h) == backend(h) && AnsweredAt(hooks, backend, now, h);
    }
  }

  // ---------- a backend that holds still ----------

  predicate AnsweredAt<E>(hooks: Hooks<E>, backend: int -> Hash, now: nat, h: int) {
    hooks.blockHash(now, h) == Some(backend(h))
  }

  /** Every question the reorg handling can ask from `now` on is answered from one chain. */
  ghost predicate HoldsStill<E>(hooks: Hooks<E>, backend: int -> Hash, lastSealed: int, tip: int, now: nat) {
    && AnsweredAt(hooks, backend, now, tip)
    && var walk := now + 1;
       forall h :: lastSealed < h <= tip ==> AnsweredOnWalk(hooks, backend, walk, tip, h)
  }

  predicate AnsweredOnWalk<E>(hooks: Hooks<E>, backend: int -> Hash, walk: nat, tip: int, h: int)
    requires h <= tip
  {
    AnsweredAt(hooks, backend, Asked(walk, tip, h), h)
  }

  /** The recorded hash is the backend's. */
  predicate Same<E>(hooks: Hooks<E>, mem: map<int, E>, backend: int -> Hash, h: int) {
    h in mem && hooks.hashOf(mem[h]) == backend(h)
  }

  /** The highest unsealed height whose recorded hash is the backend's. */
  ghost predicate HighestSame<E>(hooks: Hooks<E>, mem: map<int, E>, backend: int -> Hash, lastSealed: int, tip: int, to: int) {
    lastSealed < to <= tip && Same(hooks, mem, backend, to)
    && forall h :: to < h <= tip ==> !Same(hooks, mem, backend, h)
  }

  /**
   * With the backend holding still, handleReorg keeps everything exactly if the tip is
   * the backend's, cuts to `to` exactly if that is the highest height that is, refuses
   * exactly if none is, and never fails.
   */
  lemma ReorgWithBackendStill<E>(hooks: Hooks<E>, mem: map<int, E>, backend: int -> Hash, lastSealed: int, tip: int,
                                 now: nat, outcome: ReorgOutcome)
    requires lastSealed < tip && (forall h :: lastSealed < h <= tip ==> h in mem)
    requires HoldsStill(hooks, backend, lastSealed, tip, now)
    requires ReorgSpec(hooks, mem, lastSealed, tip, now, outcome)
    ensures outcome.Kept? <==> Same(hooks, mem, backend, tip)
    ensures forall to :: outcome == RolledBack(to) <==> to < tip && HighestSame(hooks, mem, backend, lastSealed, tip, to)
    ensures outcome.DeepReorg? <==> forall h :: lastSealed < h <= tip ==> !Same(hooks, mem, backend, h)
    ensures !outcome.BackendError?
  {
    var walk := now + 1;
    forall h | lastSealed < h <= tip
      ensures PassedOver(hooks, mem, walk, tip, h) <==> !Same(hooks, mem, backend, h)
      ensures FoundAt(hooks, mem, walk, tip, h) <==> Same(hooks, mem, backend, h)
    {
      assert AnsweredOnWalk(hooks, backend, walk, tip, h);
    }
    forall h ensures !WalkFailsAt(hooks, mem, lastSealed, walk, tip, h) {
      if lastSealed < h <= tip {
        assert AnsweredOnWalk(hooks, backend, walk, tip, h);
      }
    }
    forall to | to < tip && HighestSame(hooks, mem, backend, lastSealed, tip, to) ensures outcome == RolledBack(to) {
      DownTo(hooks, mem, backend, lastSealed, tip, now, to);
      assert FoundAt(hooks, mem, walk, tip, to) && !Same(hooks, mem, backend, tip);
      ReorgIsDetermined(hooks, mem, lastSealed, tip, now, outcome, RolledBack(to));
    }
    if forall h :: lastSealed < h <= tip ==> !Same(hooks, mem, backend, h) {
      DownTo(hooks, mem, backend, lastSealed, tip, now, lastSealed);
      assert !Same(hooks, mem, backend, tip);
      ReorgIsDetermined(hooks, mem, lastSealed, tip, now, outcome, DeepReorg);
    }
  }

  /** The walk passes over everything that is not the backend's. */
  lemma DownTo<E>(hooks: Hooks<E>, mem: map<int, E>, backend: int -> Hash, lastSealed: int, tip: int, now: nat, to: int)
    requires lastSealed <= to && (forall h :: lastSealed < h <= tip ==> h in mem)
    requires HoldsStill(hooks, backend, lastSealed, tip, now)
    requires forall h :: to < h <= tip ==> !Same(hooks, mem, backend, h)
    ensures WalkedDownTo(hooks, mem, now + 1, tip, to)
  {
    forall h | to < h <= tip ensures h in mem && PassedOver(hooks, mem, now + 1, tip, h) {
      assert AnsweredOnWalk(hooks, backend, now + 1, tip, h) && !Same(hooks, mem, backend, h);
    }
  }

  // ---------- a poll round against one chain ----------

  /** A fetch at this moment fails or yields an entry of the chain. */
  predicate FetchesFrom<E>(hooks: Hooks<E>, chain: int -> Hash, now: nat, h: int) {
    hooks.ingest(now, h).Some? ==> hooks.hashOf(hooks.ingest(now, h).value) == chain(h)
  }

  /** Between two moments, the backend answers about these heights, and fetches, from one chain. */
  ghost predicate OneChain<E>(hooks: Hooks<E>, chain: int -> Hash, lastSealed: int, tip: int, from: nat, to: nat) {
    && (forall now: nat, h :: from <= now < to && lastSealed < h <= tip ==> AnsweredAt(hooks, chain, now, h))
    && (forall now: nat, h :: from <= now < to ==> FetchesFrom(hooks, chain, now, h))
  }

  function RecordedAt<E>(hooks: Hooks<E>, mem: map<int, E>, h: int): Hash {
    if h in mem then hooks.hashOf(mem[h]) else ZERO_HASH
  }

  /** The hashes recorded with what is in memory. */
  ghost function Recorded<E>(hooks: Hooks<E>, mem: map<int, E>): int -> Hash {
    h => RecordedAt(hooks, mem, h)
  }

  ghost predicate OnChain<E>(hooks: Hooks<E>, mem: map<int, E>, chain: int -> Hash, lastSealed: int, top: int) {
    forall h :: lastSealed < h <= top ==> Same(hooks, mem, chain, h)
  }

  lemma OnChainBelow<E>(p: Params, hooks: Hooks<E>, s: State<E>, parent: Hash -> Hash, chain: int -> Hash, top: int)
    requires Good(p, s) && s.lastSealed < top <= s.current && Same(hooks, s.mem, chain, top)
    requires ParentLinked(parent, Recorded(hooks, s.mem), s.lastSealed, s.current)
    requires ParentLinked(parent, chain, s.lastSealed, s.current)
    ensures OnChain(hooks, s.mem, chain, s.lastSealed, top)
  {
    var ours := Recorded(hooks, s.mem);
    TipInMemoryAt(p, s, top);
    AgreementGoesDown(parent, ours, chain, s.lastSealed, top);
    forall h | s.lastSealed < h <= top ensures Same(hooks, s.mem, chain, h) {
      assert ours(h) == chain(h);
    }
  }

  lemma TipInMemoryAt<E>(p: Params, s: State<E>, height: int)
    requires Good(p, s) && height in s.mem
    ensures !Fresh(s) && s.current in s.mem && forall h :: h in s.mem <==> s.lastSealed < h <= s.current
  {
    NonEmpty(s.mem, height);
  }

  /** What a successful round keeps of memory is on the chain. */
  lemma KeptIsOnChain<E>(p: Params, hooks: Hooks<E>, s: State<E>, height: int, from: nat, poll: Poll, t: State<E>, to: nat,
                         parent: Hash -> Hash, chain: int -> Hash) returns (kept: int)
    requires Good(p, s) && Good(p, t) && Polled(p, hooks, s, height, from, poll, true, t, to)
    requires OneChain(hooks, chain, s.lastSealed, s.current, from, to)
    requires ParentLinked(parent, Recorded(hooks, s.mem), s.lastSealed, s.current)
    requires ParentLinked(parent, chain, s.lastSealed, s.current)
    ensures kept == if poll.Handled? && poll.outcome.RolledBack? then poll.outcome.to else s.current
    ensures s.current in s.mem ==> OnChain(hooks, s.mem, chain, s.lastSealed, kept)
  {
    kept := if poll.Handled? && poll.outcome.RolledBack? then poll.outcome.to else s.current;
    if s.current in s.mem {
      TipInMemoryAt(p, s, s.current);
      var now := if poll.Handled? && height == s.current then from + 1 else from;
      if poll.Handled? && poll.outcome.RolledBack? {
        assert AnsweredAt(hooks, chain, now + 1 + (s.current - kept), kept);
        assert FoundAt(hooks, s.mem, now + 1, s.current, kept);
      } else {
        assert AnsweredAt(hooks, chain, now, s.current);
      }
      OnChainBelow(p, hooks, s, parent, chain, kept);
    }
  }

  /**
   * A round that gets through, while the backend answers and fetches from one chain, leaves
   * exactly that chain in memory, whatever chain the tip was on before: if both chains'
   * blocks name their parents.
   */
  lemma RoundEndsOnTheChain<E>(p: Params, hooks: Hooks<E>, s: State<E>, height: int, from: nat, poll: Poll, t: State<E>, to: nat,
                               parent: Hash -> Hash, chain: int -> Hash)
    requires Good(p, s) && Good(p, t) && Polled(p, hooks, s, height, from, poll, true, t, to)
    requires OneChain(hooks, chain, s.lastSealed, s.current, from, to)
    requires ParentLinked(parent, Recorded(hooks, s.mem), s.lastSealed, s.current)
    requires ParentLinked(parent, chain, s.lastSealed, s.current)
    ensures forall h :: h in t.mem ==> Same(hooks, t.mem, chain, h)
  {
    var kept := KeptIsOnChain(p, hooks, s, height, from, poll, t, to, parent, chain);
    forall h | h in t.mem ensures Same(hooks, t.mem, chain, h) {
      EntryOnChain(p, hooks, s, height, from, poll, t, to, chain, kept, h);
    }
  }

  lemma EntryOnChain<E>(p: Params, hooks: Hooks<E>, s: State<E>, height: int, from: nat, poll: Poll, t: State<E>, to: nat,
                        chain: int -> Hash, kept: int, h: int)
    requires Good(p, s) && Good(p, t) && Polled(p, hooks, s, height, from, poll, true, t, to) && h in t.mem
    requires OneChain(hooks, chain, s.lastSealed, s.current, from, to)
    requires kept == if poll.Handled? && poll.outcome.RolledBack? then poll.outcome.to else s.current
    requires s.current in s.mem ==> OnChain(hooks, s.mem, chain, s.lastSealed, kept)
    ensures Same(hooks, t.mem, chain, h)
  {
    TipInMemoryAt(p, t, h);
    assert Log(p, t)[h] == t.mem[h];
    if h <= kept && h < Next(s) {
      assert Log(p, s)[h] == s.mem[h];
      TipInMemoryAt(p, s, h);
      assert Same(hooks, s.mem, chain, h);
    } else {
      assert AnsweredIn(hooks, from, to, h, Log(p, t)[h]);
      var now: nat :| from <= now < to && hooks.ingest(now, h) == Some(Log(p, t)[h]);
      assert FetchesFrom(hooks, chain, now, h);
    }
  }

  // ---------- bounded memory ----------

  lemma {:induction false} KeysOfRange(m: set<int>, lo: int, hi: int)
    requires lo <= hi && forall h :: h in m <==> lo <= h < hi
    ensures |m| == hi - lo
    decreases hi - lo
  {
    if lo < hi {
      KeysOfRange(m - {lo}, lo + 1, hi);
    } else {
      assert m == {};
    }
  }

  /** While files are written on time, no state of a run holds more than a file and the safe depth. */
  lemma {:induction false} MemoryStaysBounded<E>(p: Params, s: State<E>, run: seq<Step<E>>)
    requires Good(p, s) && Legal(p, s, run) && OnTime(p, s, run)
    requires s.current - s.lastSealed <= p.size + p.depth
    ensures forall i :: 0 <= i <= |run| ==> |StateAt(p, s, run, i).mem| <= p.size + p.depth
    decreases |run|
  {
    assert |s.mem| <= p.size + p.depth by {
      KeysOfRange(s.mem.Keys, s.lastSealed + 1, Next(s));
      assert |s.mem| == |s.mem.Keys|;
    }
    if run != [] {
      var t := Apply(p, s, run[0]);
      StepKeepsGood(p, s, run[0]);
      MemoryStaysBounded(p, t, run[1..]);
      forall i | 0 < i <= |run| ensures |StateAt(p, s, run, i).mem| <= p.size + p.depth {
        assert StateAt(p, s, run, i) == StateAt(p, t, run[1..], i - 1);
      }
    }
  }

  /** The state after the first `i` steps of a run. */
  ghost function StateAt<E>(p: Params, s: State<E>, run: seq<Step<E>>, i: nat): State<E>
    requires Good(p, s) && Legal(p, s, run) && i <= |run|
    decreases |run|
  {
    if i == 0 then s else
      StepKeepsGood(p, s, run[0]);
      StateAt(p, Apply(p, s, run[0]), run[1..], i - 1)
  }
}
