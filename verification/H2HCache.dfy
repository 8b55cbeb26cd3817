/**
 * The height-to-hash cache that all producers share. A lookup that misses asks the
 * backend and stores the answer in a later step, so any other steps may come between.
 * Invalidation only walks up to the best height; that this removes everything it should
 * is an invariant over all interleavings. That the cache agrees with the backend is not.
 */
module H2HCache {
  import opened Basics
  import opened Wire
  import opened FilterChain

  datatype Cache = Cache(hashes: map<int, Hash>, best: int)

  /** The atomic steps, each under the write lock. */
  datatype Step = Store(height: int, hash: Hash) | Invalidate(from: int)

  predicate Bounded(c: Cache) {
    forall h :: h in c.hashes ==> h <= c.best
  }

  function Apply(c: Cache, step: Step): Cache {
    match step
    case Store(h, hash) => Cache(c.hashes[h := hash], if h > c.best then h else c.best)
    case Invalidate(from) =>
      Cache(map h | h in c.hashes && !(from <= h <= c.best) :: c.hashes[h], from - 1)
  }

  function Run(c: Cache, steps: seq<Step>): Cache {
    if steps == [] then c else Apply(Run(c, steps[..|steps| - 1]), steps[|steps| - 1])
  }

  lemma RunNext(c: Cache, steps: seq<Step>, step: Step)
    ensures Run(c, steps + [step]) == Apply(Run(c, steps), step)
  {
    assert (steps + [step])[..|steps|] == steps;
  }

  /** An invalidation that covers a height. */
  predicate Drops(step: Step, h: int) {
    step.Invalidate? && step.from <= h
  }

  // ---------- every interleaving ----------

  /** However stores and invalidations of all producers interleave, the best height bounds the cache. */
  lemma {:induction false} RunStaysBounded(c: Cache, steps: seq<Step>)
    requires Bounded(c)
    ensures Bounded(Run(c, steps))
  {
    if steps != [] {
      RunStaysBounded(c, steps[..|steps| - 1]);
    }
  }

  /** So an invalidation removes every entry at or above its height, and no other. */
  lemma InvalidationIsComplete(c: Cache, steps: seq<Step>, from: int)
    requires Bounded(c)
    ensures Run(c, steps + [Invalidate(from)]).hashes
            == map h | h in Run(c, steps).hashes && h < from :: Run(c, steps).hashes[h]
  {
    assert (steps + [Invalidate(from)])[..|steps|] == steps;
    RunStaysBounded(c, steps);
  }

  /** The last step that concerns a height decides; `first` is what was there before. */
  function LastWord(steps: seq<Step>, h: int, first: Option<Hash>): Option<Hash> {
    if steps == [] then first
    else
      var last := steps[|steps| - 1];
      if last.Store? && last.height == h then Some(last.hash)
      else if Drops(last, h) then None
      else LastWord(steps[..|steps| - 1], h, first)
  }

  function Entry(c: Cache, h: int): Option<Hash> {
    if h in c.hashes then Some(c.hashes[h]) else None
  }

  /**
   * A cached hash is the one last stored for its height, since the last invalidation that
   * covers it: the bounded walk does what an unbounded one would.
   */
  lemma {:induction false} CacheHoldsTheLastWord(c: Cache, steps: seq<Step>, h: int)
    requires Bounded(c)
    ensures Entry(Run(c, steps), h) == LastWord(steps, h, Entry(c, h))
  {
    if steps != [] {
      CacheHoldsTheLastWord(c, steps[..|steps| - 1], h);
      RunStaysBounded(c, steps[..|steps| - 1]);
    }
  }

  /** Without the bound it would not: an entry above the best height survives its invalidation. */
  lemma UnboundedEntrySurvives(hash: Hash)
    ensures Entry(Apply(Cache(map[7 := hash], 3), Invalidate(5)), 7) == Some(hash)
  {
  }

  /**
   * The cache need not agree with the backend: an answer fetched before a reorg and stored
   * after the invalidation stays, also for the height that was just invalidated.
   */
  lemma StaleAnswerStays(c: Cache, from: int, stale: Hash)
    requires Bounded(c)
    ensures Entry(Run(c, [Invalidate(from), Store(from, stale)]), from) == Some(stale)
  {
    CacheHoldsTheLastWord(c, [Invalidate(from), Store(from, stale)], from);
  }

  // ---------- loading ----------

  /** The complete headers at the front of a file. */
  function HeadersIn(r: Bytes): seq<Header> {
    if |r| < HEADER_SIZE then [] else [r[..HEADER_SIZE]] + HeadersIn(r[HEADER_SIZE..])
  }

  function AllHeaders(files: seq<Bytes>): seq<Header> {
    if files == [] then [] else AllHeaders(files[..|files| - 1]) + HeadersIn(files[|files| - 1])
  }

  predicate WholeHeaders(files: seq<Bytes>) {
    forall f :: f in files ==> |f| % 80 == 0
  }

  function Numbered(H: Hasher, hs: seq<Header>): map<int, Hash> {
    map i | 0 <= i < |hs| :: H(hs[i])
  }

  lemma NumberedNext(H: Hasher, hs: seq<Header>, h: Header)
    ensures Numbered(H, hs + [h]) == Numbered(H, hs)[|hs| := H(h)]
  {
  }

  /** What a load leaves of files of whole headers, header by header. */
  ghost predicate Loaded(H: Hasher, files: seq<Bytes>, hashes: map<int, Hash>, best: int) {
    && (best + 1) * 80 == |Concat(files)|
    && (forall h :: h in hashes <==> 0 <= h <= best)
    && forall k: nat, i: nat :: k < |files| && 80 * i + 80 <= |files[k]| ==> HashStored(H, files, hashes, k, i)
  }

  /** Header `i` of file `k` gives the hash at its place behind the headers of the files before. */
  predicate HashStored(H: Hasher, files: seq<Bytes>, hashes: map<int, Hash>, k: nat, i: nat)
    requires k < |files| && 80 * i + 80 <= |files[k]|
  {
    var height := |Concat(files[..k])| / 80 + i;
    height in hashes && hashes[height] == H(files[k][80 * i..80 * i + 80])
  }

  lemma {:induction false} HeadersInFile(r: Bytes)
    requires |r| % 80 == 0
    ensures |HeadersIn(r)| * 80 == |r|
    ensures forall i: nat :: 80 * i + 80 <= |r| ==> HeadersIn(r)[i] == r[80 * i..80 * i + 80]
  {
    if r != [] {
      var rest := r[80..];
      HeadersInFile(rest);
      forall i: nat | 80 * i + 80 <= |r| ensures HeadersIn(r)[i] == r[80 * i..80 * i + 80] {
        if i > 0 {
          assert HeadersIn(r)[i] == HeadersIn(rest)[i - 1];
          assert 80 * (i - 1) + 80 <= |rest|;
          assert rest[80 * (i - 1)..80 * (i - 1) + 80] == r[80 * i..80 * i + 80];
        }
      }
    }
  }

  lemma {:induction false} HeadersInFiles(files: seq<Bytes>)
    requires WholeHeaders(files)
    ensures |AllHeaders(files)| * 80 == |Concat(files)|
    decreases |files|
  {
    if files != [] {
      var init, last := files[..|files| - 1], files[|files| - 1];
      assert forall f :: f in init ==> f in files;
      HeadersInFiles(init);
      HeadersInFile(last);
    }
  }

  /** The headers of all files: those of the files before, then those of file `k`. */
  lemma {:induction false} HeaderOfFile(files: seq<Bytes>, k: nat, i: nat, n: nat)
    requires k < |files| && |files[k]| % 80 == 0 && 80 * i + 80 <= |files[k]| && n == |AllHeaders(files[..k])|
    ensures n + i < |AllHeaders(files)| && AllHeaders(files)[n + i] == files[k][80 * i..80 * i + 80]
    decreases |files|
  {
    var init := files[..|files| - 1];
    if k == |files| - 1 {
      assert files[..k] == init;
      HeadersInFile(files[k]);
      assert AllHeaders(files)[n + i] == HeadersIn(files[k])[i];
    } else {
      assert init[..k] == files[..k] && init[k] == files[k];
      HeaderOfFile(init, k, i, n);
    }
  }

  lemma LoadStores(H: Hasher, files: seq<Bytes>, k: nat, i: nat)
    requires WholeHeaders(files) && k < |files| && 80 * i + 80 <= |files[k]|
    ensures HashStored(H, files, Numbered(H, AllHeaders(files)), k, i)
  {
    assert forall f :: f in files[..k] ==> f in files;
    HeadersInFiles(files[..k]);
    HeaderOfFile(files, k, i, |AllHeaders(files[..k])|);
  }

  lemma NumberedIsLoaded(H: Hasher, files: seq<Bytes>)
    requires WholeHeaders(files)
    ensures Loaded(H, files, Numbered(H, AllHeaders(files)), |AllHeaders(files)| - 1)
  {
    HeadersInFiles(files);
    forall k: nat, i: nat | k < |files| && 80 * i + 80 <= |files[k]|
      ensures HashStored(H, files, Numbered(H, AllHeaders(files)), k, i)
    {
      LoadStores(H, files, k, i);
    }
  }

  // ---------- the class ----------

  class HeightToHashCache {
    var hashes: map<int, Hash>
    var best: int

    ghost function State(): Cache
      reads this
    {
      Cache(hashes, best)
    }

    ghost predicate Valid()
      reads this
    {
      Bounded(State())
    }

    constructor ()
      ensures Valid() && State() == Cache(map[], 0)
    {
      hashes, best := map[], 0;
    }

    /**
     * A lookup: a hit is answered as it is; a miss asks the backend, and whatever steps
     * `between` the other producers take before the answer is stored, the caller gets
     * that answer and the cache forgets whatever they stored for the height.
     */
    method GetBlockHash(h: int, answer: Option<Hash>, between: seq<Step>) returns (hash: Option<Hash>)
      requires Valid()
      modifies this
      ensures Valid()
      ensures hash == if h in old(hashes) then Some(old(hashes)[h]) else answer
      ensures State() == if h !in old(hashes) && answer.Some? then Run(old(State()), between + [Store(h, answer.value)])
                         else old(State())
      ensures hash.Some? ==> Entry(State(), h) == hash
    {
      if h in hashes {
        return Some(hashes[h]);
      }
      if answer.None? {
        return None;
      }
      ghost var before := State();
      Interfere(between);
      StoreFetched(h, answer.value);
      RunNext(before, between, Store(h, answer.value));
      hash := answer;
    }

    /** The steps of the other producers. */
    method Interfere(steps: seq<Step>)
      requires Valid()
      modifies this
      ensures Valid() && State() == Run(old(State()), steps)
    {
      ghost var before := State();
      assert steps[..0] == [];
      for i := 0 to |steps|
        invariant Valid() && State() == Run(before, steps[..i])
      {
        assert steps[..i + 1] == steps[..i] + [steps[i]];
        RunNext(before, steps[..i], steps[i]);
        match steps[i]
        case Store(h, hash) => StoreFetched(h, hash);
        case Invalidate(from) => Drop(from);
      }
      assert steps[..|steps|] == steps;
    }

    /** The write half of a lookup that missed, with whatever the backend said back then. */
    method StoreFetched(h: int, hash: Hash)
      requires Valid()
      modifies this
      ensures Valid() && State() == Apply(old(State()), Store(h, hash))
    {
      hashes := hashes[h := hash];
      if h > best {
        best := h;
      }
    }

    method Drop(from: int)
      requires Valid()
      modifies this
      ensures Valid() && State() == Apply(old(State()), Invalidate(from))
      ensures forall h :: h in hashes <==> h in old(hashes) && h < from
    {
      var h := from;
      while h <= best
        invariant from <= h && best == old(best)
        invariant hashes == map k | k in old(hashes) && !(from <= k < h && k <= best) :: old(hashes)[k]
      {
        hashes := map k | k in hashes && k != h :: hashes[k];
        h := h + 1;
      }
      best := from - 1;
    }

    /**
     * Numbers the headers of one file from `height` on. What the header decoder says about
     * a file that breaks off inside a header is left open.
     */
    method LoadFile(H: Hasher, before: seq<Header>, data: Bytes) returns (ok: bool)
      requires hashes == Numbered(H, before)
      modifies `hashes
      ensures |data| % HEADER_SIZE == 0 ==> ok
      ensures hashes == Numbered(H, before + HeadersIn(data))
    {
      var r, height := data, |before|;
      ghost var read: seq<Header> := [];
      assert before + [] == before;
      while |r| >= HEADER_SIZE
        invariant hashes == Numbered(H, before + read) && height == |before + read|
        invariant HeadersIn(data) == read + HeadersIn(r)
        invariant |data| == |read| * HEADER_SIZE + |r|
        decreases |r|
      {
        NumberedNext(H, before + read, r[..HEADER_SIZE]);
        assert before + (read + [r[..HEADER_SIZE]]) == before + read + [r[..HEADER_SIZE]];
        assert read + ([r[..HEADER_SIZE]] + HeadersIn(r[HEADER_SIZE..])) == read + [r[..HEADER_SIZE]] + HeadersIn(r[HEADER_SIZE..]);
        hashes := hashes[height := H(r[..HEADER_SIZE])];
        read := read + [r[..HEADER_SIZE]];
        height := height + 1;
        r := r[HEADER_SIZE..];
      }
      assert read + [] == read;
      ok := true;
      if |r| != 0 {
        ok := *;
      }
    }

    /**
     * At startup: the complete headers of the sealed files in order give the hashes of the
     * heights from 0 on. Only a file that breaks off inside a header can stop the load, and
     * the process with it.
     */
    method LoadFromHeaders(H: Hasher, files: seq<Bytes>) returns (ok: bool)
      requires hashes == map[]
      modifies this
      ensures WholeHeaders(files) ==> ok
      ensures ok ==> Valid() && State() == Cache(Numbered(H, AllHeaders(files)), |AllHeaders(files)| - 1)
      ensures WholeHeaders(files) ==> Loaded(H, files, hashes, best)
    {
      assert Numbered(H, []) == map[];
      for i := 0 to |files|
        invariant hashes == Numbered(H, AllHeaders(files[..i]))
      {
        assert files[..i + 1][..i] == files[..i];
        ok := LoadFile(H, AllHeaders(files[..i]), files[i]);
        if !ok {
          return;
        }
      }
      assert files[..|files|] == files;
      best := |AllHeaders(files)| - 1;
      if WholeHeaders(files) {
        NumberedIsLoaded(H, files);
      }
      ok := true;
    }
  }
}
