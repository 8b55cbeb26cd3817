/**
 * What a schedule of events does to a producer's log. The producers take their events one
 * by one and are proved to end with this log; what a reorg, a restart or a sealed file
 * means for it is the specification log's step (ProducerLog.LogStep).
 */
module Schedule {
  import opened Basics
  import opened ProducerLog

  /**
   * A fetched block, or one that could not be fetched; a file that is written, if one is
   * due, completely or not, with or without the process being killed behind it; a rollback;
   * a kill.
   */
  datatype Happened<E> = Block(entry: Option<E>) | Seal(complete: bool, killed: bool) | Reorg(to: int) | Kill

  /** The log, how much of it is on disk, and whether a process is running. */
  datatype Replay<E> = Replay(log: seq<E>, durable: nat, alive: bool)

  /** `limit` is the largest end of a directory that a new process can resume from. */
  datatype Rules = Rules(size: nat, depth: nat, limit: nat)

  ghost predicate Sound<E>(r: Replay<E>) {
    r.durable <= |r.log|
  }

  /** The next file is reorg-safe. */
  ghost predicate Due<E>(u: Rules, r: Replay<E>) {
    r.durable + u.size <= |r.log| - u.depth
  }

  /** A new process over what is on disk, if its file names can still be read. */
  ghost function Resumed<E>(u: Rules, log: seq<E>, durable: nat): (t: Replay<E>)
    requires durable <= |log|
    ensures Sound(t)
  {
    Replay(LogStep(log, durable, Step<E>.Restart), durable, durable <= u.limit)
  }

  /** The event ends the process. */
  ghost predicate Dies<E>(u: Rules, r: Replay<E>, e: Happened<E>) {
    match e
    case Block(entry) => entry.None?
    case Seal(complete, killed) => Due(u, r) && (!complete || killed)
    case Reorg(_) => false
    case Kill => true
  }

  ghost function After<E>(u: Rules, r: Replay<E>, e: Happened<E>): (t: Replay<E>)
    requires Sound(r)
    ensures Sound(t)
  {
    match e
    case Block(Some(entry)) => r.(log := LogStep(r.log, r.durable, Step<E>.Ingest(entry)))
    case Block(None) => Resumed(u, r.log, r.durable)
    case Seal(complete, killed) =>
      if !Due(u, r) then r
      else if !complete then Resumed(u, r.log, r.durable)
      else if killed then Resumed(u, r.log, r.durable + u.size)
      else r.(durable := r.durable + u.size)
    case Reorg(to) => if r.durable <= to < |r.log| then r.(log := LogStep(r.log, r.durable, Step<E>.Rollback(to))) else r
    case Kill => Resumed(u, r.log, r.durable)
  }

  /** A block after a rollback replaces the first height that was given up. */
  lemma ReorgReplaces<E>(u: Rules, r: Replay<E>, to: int, entry: E)
    requires Sound(r) && r.durable <= to < |r.log|
    ensures After(u, After(u, r, Reorg(to)), Block(Some(entry))).log == r.log[..to + 1] + [entry]
  {
  }

  /** However the process ends, the next one starts with exactly what is on disk. */
  lemma DeathLeavesTheDisk<E>(u: Rules, r: Replay<E>, e: Happened<E>)
    requires Sound(r) && Dies(u, r, e)
    ensures var t := After(u, r, e);
            && r.durable <= t.durable && t.log == r.log[..t.durable]
            && (t.alive <==> t.durable <= u.limit)
            && (t.durable > r.durable ==> e.Seal? && e.complete && t.durable == r.durable + u.size)
  {
  }
}
