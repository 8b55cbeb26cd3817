/**
 * The block prefetcher: a speculative cache in front of a fetch by hash. A background
 * fetch belongs to the hash its height had when it was scheduled and may have failed;
 * whatever calls came before, the answer is the block of the requested hash or the
 * direct fetch's failure.
 */
module Prefetcher {
  import opened Basics
  import opened Wire

  /** A fetch started in the background, with its outcome. */
  datatype Prefetched<B> = Prefetched(hash: Hash, result: Option<B>)

  /**
   * The outside during one call: the hash the cache names for a height, and which
   * background fetches come back with a block.
   */
  datatype Outside = Outside(named: int -> Option<Hash>, arrives: int -> bool)

  type Pending<B> = map<int, Prefetched<B>>

  /** Every outcome is the block of the hash it was fetched for. */
  predicate TrueBlocks<B(==)>(blockOf: Hash -> B, pending: Pending<B>) {
    forall h :: h in pending ==> pending[h].result.None? || pending[h].result.value == blockOf(pending[h].hash)
  }

  /** The entry a height is scheduled with. */
  function Scheduled<B>(blockOf: Hash -> B, o: Outside, h: int, hash: Hash): Prefetched<B> {
    Prefetched(hash, if o.arrives(h) then Some(blockOf(hash)) else None)
  }

  /** Every height from `from` on, up to `h`, is pending or has a name. */
  predicate Open<B>(pending: Pending<B>, o: Outside, from: int, h: int) {
    forall k :: from <= k <= h ==> Resolved(pending, o, k)
  }

  predicate Resolved<B>(pending: Pending<B>, o: Outside, k: int) {
    k in pending || o.named(k).Some?
  }

  /** What scheduling adds: the window, up to the first height nobody can name. */
  predicate Adds<B>(before: Pending<B>, o: Outside, from: int, to: int, h: int) {
    from <= h <= to && h !in before && Open(before, o, from, h)
  }

  /** The exact effect of scheduling the heights `from..to`. */
  ghost predicate Extended<B>(blockOf: Hash -> B, before: Pending<B>, after: Pending<B>, o: Outside, from: int, to: int) {
    && (forall h :: h in before ==> h in after && after[h] == before[h])
    && (forall h :: h in after && h !in before ==>
          && Adds(before, o, from, to, h) && o.named(h).Some?
          && after[h] == Scheduled(blockOf, o, h, o.named(h).value))
    && (forall h :: Adds(before, o, from, to, h) ==> h in after)
  }

  /** One more fetch for every height that became pending. */
  ghost predicate CountedNew<B>(before: multiset<int>, after: multiset<int>, first: Pending<B>, now: Pending<B>) {
    forall h :: after[h] == before[h] + if h in now && h !in first then 1 else 0
  }

  /** Pending fetches, and the heights a fetch was ever started for. */
  datatype Work<B> = Work(pending: Pending<B>, fetches: multiset<int>)

  function Started<B>(blockOf: Hash -> B, w: Work<B>, o: Outside, h: int, hash: Hash): Work<B> {
    Work(w.pending[h := Scheduled(blockOf, o, h, hash)], w.fetches + multiset{h})
  }

  /** The scheduling loop from height `h` on. */
  function ScheduleFrom<B>(blockOf: Hash -> B, w: Work<B>, o: Outside, h: int, end: int): Work<B>
    decreases end - h
  {
    if h > end then w
    else if h in w.pending then ScheduleFrom(blockOf, w, o, h + 1, end)
    else if o.named(h).None? then w
    else ScheduleFrom(blockOf, Started(blockOf, w, o, h, o.named(h).value), o, h + 1, end)
  }

  /** The window is filled up to the first height nobody can name, and counted. */
  ghost predicate Fills<B>(blockOf: Hash -> B, before: Work<B>, after: Work<B>, o: Outside, from: int, to: int) {
    && Extended(blockOf, before.pending, after.pending, o, from, to)
    && CountedNew(before.fetches, after.fetches, before.pending, after.pending)
  }

  /** A pending or just started first height, then the rest of the window. */
  lemma FillsOn<B>(blockOf: Hash -> B, before: Work<B>, mid: Work<B>, after: Work<B>, o: Outside, h: int, end: int)
    requires Fills(blockOf, mid, after, o, h + 1, end) && h <= end
    requires if h in before.pending then mid == before
             else o.named(h).Some? && mid == Started(blockOf, before, o, h, o.named(h).value)
    ensures Fills(blockOf, before, after, o, h, end)
  {
    assert Resolved(before.pending, o, h);
    assert forall k :: k != h ==> (k in mid.pending <==> k in before.pending);
    forall k | k > h && Adds(mid.pending, o, h + 1, end, k) ensures Adds(before.pending, o, h, end, k) {
      forall j | h <= j <= k ensures Resolved(before.pending, o, j) {
        assert j > h ==> Resolved(mid.pending, o, j);
      }
    }
    forall k | Adds(before.pending, o, h, end, k) ensures k in after.pending {
      if k > h {
        forall j | h + 1 <= j <= k ensures Resolved(mid.pending, o, j) {
          assert Resolved(before.pending, o, j);
        }
        assert Adds(mid.pending, o, h + 1, end, k);
      }
    }
    if h !in before.pending {
      assert Adds(before.pending, o, h, end, h);
    }
  }

  lemma {:induction false} ScheduleFills<B>(blockOf: Hash -> B, w: Work<B>, o: Outside, h: int, end: int)
    ensures Fills(blockOf, w, ScheduleFrom(blockOf, w, o, h, end), o, h, end)
    decreases end - h
  {
    if h <= end {
      if h in w.pending {
        ScheduleFills(blockOf, w, o, h + 1, end);
        FillsOn(blockOf, w, w, ScheduleFrom(blockOf, w, o, h, end), o, h, end);
      } else if o.named(h).None? {
        assert !Resolved(w.pending, o, h);
      } else {
        var mid := Started(blockOf, w, o, h, o.named(h).value);
        ScheduleFills(blockOf, mid, o, h + 1, end);
        FillsOn(blockOf, w, mid, ScheduleFrom(blockOf, w, o, h, end), o, h, end);
      }
    }
  }

  lemma ExtendedIsTrue<B>(blockOf: Hash -> B, before: Pending<B>, now: Pending<B>, o: Outside, from: int, to: int)
    requires TrueBlocks(blockOf, before) && Extended(blockOf, before, now, o, from, to)
    ensures TrueBlocks(blockOf, now)
  {
  }

  lemma ScheduleKeepsTruth<B>(blockOf: Hash -> B, w: Work<B>, o: Outside, h: int, end: int)
    requires TrueBlocks(blockOf, w.pending)
    ensures TrueBlocks(blockOf, ScheduleFrom(blockOf, w, o, h, end).pending)
  {
    ScheduleFills(blockOf, w, o, h, end);
    ExtendedIsTrue(blockOf, w.pending, ScheduleFrom(blockOf, w, o, h, end).pending, o, h, end);
  }

  /** A prefetch that came back, for the hash that is asked for. */
  predicate Hit<B>(pending: Pending<B>, height: int, hash: Hash) {
    height in pending && pending[height].hash == hash && pending[height].result.Some?
  }

  /** A call fills the window, consumes the height's entry, and fetches directly on a miss. */
  function AfterFetch<B>(blockOf: Hash -> B, w: Work<B>, o: Outside, height: int, hash: Hash, depth: nat): Work<B> {
    var s := ScheduleFrom(blockOf, w, o, height + 1, height + depth);
    Work(s.pending - {height}, if Hit(s.pending, height, hash) then s.fetches else s.fetches + multiset{height})
  }

  // ---------- a consecutive run ----------

  /** Everything up to the tip has a name, and no background fetch fails. */
  ghost predicate Steady(o: Outside, tip: int) {
    (forall h :: 0 <= h ==> (o.named(h).Some? <==> h <= tip)) && forall h :: o.arrives(h)
  }

  function Top(height: int, depth: nat, tip: int): int {
    if height + depth < tip then height + depth else tip
  }

  /** `height` is pending with the block of its hash. */
  predicate Ready<B(==)>(blockOf: Hash -> B, pending: Pending<B>, o: Outside, height: int) {
    height in pending && o.named(height).Some?
    && pending[height] == Prefetched(o.named(height).value, Some(blockOf(o.named(height).value)))
  }

  /**
   * After the heights `first..last`: pending is exactly the contiguous window above
   * `last`, and everything from `first` to its end was fetched exactly once.
   */
  ghost predicate Window<B>(blockOf: Hash -> B, w: Work<B>, o: Outside, first: int, last: int, depth: nat, tip: int) {
    && (forall h :: h in w.pending ==> last < h <= Top(last, depth, tip))
    && (forall h :: last < h <= Top(last, depth, tip) ==> Ready(blockOf, w.pending, o, h))
    && (forall h :: w.fetches[h] == if first <= h <= Top(last, depth, tip) then 1 else 0)
  }

  /** The window just before height `next`: nothing at the start of a run. */
  ghost predicate Before<B>(blockOf: Hash -> B, w: Work<B>, o: Outside, first: int, next: int, depth: nat, tip: int) {
    if next == first then w == Work(map[], multiset{}) else Window(blockOf, w, o, first, next - 1, depth, tip)
  }

  lemma ScheduledWindow<B>(blockOf: Hash -> B, w: Work<B>, after: Work<B>, o: Outside, first: int, next: int, depth: nat, tip: int)
    requires 0 <= first <= next <= tip && depth > 0 && Steady(o, tip)
    requires Before(blockOf, w, o, first, next, depth, tip)
    requires Fills(blockOf, w, after, o, next + 1, next + depth)
    ensures forall h :: h in after.pending ==> next <= h <= Top(next, depth, tip)
    ensures forall h :: next < h <= Top(next, depth, tip) ==> Ready(blockOf, after.pending, o, h)
    ensures next in after.pending <==> first < next
    ensures first < next ==> Ready(blockOf, after.pending, o, next)
    ensures forall h :: after.fetches[h] == if first <= h <= Top(next, depth, tip) && (h != next || first < next) then 1 else 0
  {
    forall h | next < h <= Top(next, depth, tip) ensures Ready(blockOf, after.pending, o, h) {
      if h !in w.pending {
        forall k | next + 1 <= k <= h ensures Resolved(w.pending, o, k) {
        }
        assert Adds(w.pending, o, next + 1, next + depth, h);
        assert o.arrives(h) && o.named(h).Some?;
      } else {
        assert Ready(blockOf, w.pending, o, h);
      }
    }
    forall h | h in after.pending ensures next <= h <= Top(next, depth, tip) {
      if h !in w.pending {
        assert Adds(w.pending, o, next + 1, next + depth, h);
      }
    }
    if first < next {
      assert Ready(blockOf, w.pending, o, next);
    }
    forall h
      ensures after.fetches[h] == if first <= h <= Top(next, depth, tip) && (h != next || first < next) then 1 else 0
    {
      if next < h <= Top(next, depth, tip) {
        assert Ready(blockOf, after.pending, o, h);
        assert h in w.pending ==> first < next && h <= Top(next - 1, depth, tip);
      }
      if first < next && next <= h <= Top(next - 1, depth, tip) {
        assert Ready(blockOf, w.pending, o, h);
      }
    }
  }

  lemma WindowStep<B>(blockOf: Hash -> B, w: Work<B>, o: Outside, first: int, next: int, depth: nat, tip: int)
    requires 0 <= first <= next <= tip && depth > 0 && Steady(o, tip)
    requires Before(blockOf, w, o, first, next, depth, tip)
    ensures o.named(next).Some?
    ensures Window(blockOf, AfterFetch(blockOf, w, o, next, o.named(next).value, depth), o, first, next, depth, tip)
  {
    var s := ScheduleFrom(blockOf, w, o, next + 1, next + depth);
    ScheduleFills(blockOf, w, o, next + 1, next + depth);
    ScheduledWindow(blockOf, w, s, o, first, next, depth, tip);
    var after := AfterFetch(blockOf, w, o, next, o.named(next).value, depth);
    forall h | next < h <= Top(next, depth, tip) ensures Ready(blockOf, after.pending, o, h) {
      assert Ready(blockOf, s.pending, o, h);
    }
  }

  /** The heights `first..last` one after the other, from a new prefetcher. */
  function Consecutive<B>(blockOf: Hash -> B, o: Outside, first: int, last: int, depth: nat): Work<B>
    decreases last - first
  {
    if last < first || o.named(last).None? then Work(map[], multiset{})
    else AfterFetch(blockOf, Consecutive(blockOf, o, first, last - 1, depth), o, last, o.named(last).value, depth)
  }

  /** On a steady run the window stays contiguous and every height is fetched exactly once. */
  lemma {:induction false} ConsecutiveRunFetchesOnce<B>(blockOf: Hash -> B, o: Outside, first: int, last: int, depth: nat, tip: int)
    requires 0 <= first <= last <= tip && depth > 0 && Steady(o, tip)
    ensures Window(blockOf, Consecutive(blockOf, o, first, last, depth), o, first, last, depth, tip)
    decreases last - first
  {
    if first < last {
      ConsecutiveRunFetchesOnce(blockOf, o, first, last - 1, depth, tip);
    }
    WindowStep(blockOf, Consecutive(blockOf, o, first, last - 1, depth), o, first, last, depth, tip);
  }

  class BlockPrefetcher<B(==)> {
    const blockOf: Hash -> B
    const depth: nat

    var pending: Pending<B>

    /** The heights a fetch was started for, in the background or directly. */
    ghost var fetches: multiset<int>

    ghost predicate Valid()
      reads `pending
    {
      TrueBlocks(blockOf, pending)
    }

    constructor (blockOf: Hash -> B, depth: nat)
      ensures Valid() && pending == map[] && fetches == multiset{}
      ensures this.blockOf == blockOf && this.depth == depth
    {
      this.blockOf, this.depth := blockOf, depth;
      pending, fetches := map[], multiset{};
    }

    /** One round: passes over a pending height, starts its fetch, or stops at an unnamed one. */
    method ScheduleOne(h: int, o: Outside) returns (more: bool)
      modifies this
      ensures more <==> h in old(pending) || o.named(h).Some?
      ensures Work(pending, fetches) == if h in old(pending) || o.named(h).None? then old(Work(pending, fetches))
                                        else Started(blockOf, old(Work(pending, fetches)), o, h, o.named(h).value)
    {
      if h !in pending {
        var hash := o.named(h);
        if hash.None? {
          return false;
        }
        pending := pending[h := Scheduled(blockOf, o, h, hash.value)];
        fetches := fetches + multiset{h};
      }
      more := true;
    }

    /** Starts the missing fetches of the window, in order, until a height has no hash. */
    method ScheduleAhead(height: int, o: Outside)
      modifies this
      ensures Work(pending, fetches) == ScheduleFrom(blockOf, old(Work(pending, fetches)), o, height + 1, height + depth)
    {
      var h, end := height + 1, height + depth;
      ghost var goal := ScheduleFrom(blockOf, Work(pending, fetches), o, h, end);
      while h <= end
        invariant ScheduleFrom(blockOf, Work(pending, fetches), o, h, end) == goal
        decreases end - h
      {
        var more := ScheduleOne(h, o);
        if !more {
          return;
        }
        h := h + 1;
      }
    }

    /**
     * The block of exactly the requested hash, or nothing if the direct fetch failed too;
     * a stale or failed prefetch is never handed out.
     */
    method FetchBlock(height: int, hash: Hash, o: Outside, directAnswers: bool) returns (block: Option<B>)
      requires Valid()
      modifies this
      ensures Valid()
      ensures block.Some? ==> block.value == blockOf(hash)
      ensures block.None? <==> !directAnswers && !Hit(ScheduleFrom(blockOf, old(Work(pending, fetches)), o,
                                                                   height + 1, height + depth).pending, height, hash)
      ensures Work(pending, fetches) == AfterFetch(blockOf, old(Work(pending, fetches)), o, height, hash, depth)
    {
      ScheduleKeepsTruth(blockOf, Work(pending, fetches), o, height + 1, height + depth);
      ScheduleAhead(height, o);
      if height in pending {
        var entry := pending[height];
        pending := pending - {height};
        if entry.result.Some? && entry.hash == hash {
          return entry.result;
        }
      } else {
        assert pending - {height} == pending;
      }
      fetches := fetches + multiset{height};
      block := if directAnswers then Some(blockOf(hash)) else None;
    }
  }
}
