/**
 * The lifecycle and the seal checks together. Over any sequence of processes, kills and
 * changes of the backend's best chain, every file on disk was let through by its
 * producer's check (Producer.Lifetimes); here is what that makes of the files of the
 * header producer and of the basic filter producer.
 */
module SealedFiles {
  import opened Basics
  import opened Wire
  import opened FilterChain
  import opened Producer
  import CF = CFilters
  import HF = Headers

  // ---------- the header producer ----------

  datatype HeaderEntry = HeaderEntry(header: Header, filterHeader: Hash)

  function HeadersIn(file: seq<HeaderEntry>): (hs: seq<Header>)
    ensures |hs| == |file|
  {
    seq<Header>(|file|, i requires 0 <= i < |file| => file[i].header)
  }

  /** The entry ingest makes of a block. */
  function EntryOf(H: Hasher, b: Blocks, height: int, hash: Hash): HeaderEntry {
    HeaderEntry(b.header(hash), if height < 0 then ZERO_HASH else AuthFilterHeader(H, b, hash, height))
  }

  /** Some block is behind the entry. */
  ghost predicate FromBlock(H: Hasher, b: Blocks, height: int, e: HeaderEntry) {
    exists hash: Hash :: Hashes(H, b, hash) && e == EntryOf(H, b, height, hash)
  }

  /** The backend gives honest headers for the `n` blocks that end in the named one. */
  ghost predicate HonestBelow(H: Hasher, b: Blocks, named: Option<Hash>, n: nat) {
    named.Some? ==> Honest(H, b, Chain(b, named.value, n))
  }

  /** What verifyHeaders asks of a file's entries at a moment. */
  predicate HeaderCheck(H: Hasher, file: seq<HeaderEntry>, named: Option<Hash>) {
    && file != [] && named.Some? && Linked(H, HeadersIn(file)) && H(file[|file| - 1].header) == named.value
  }

  /** It is the check of the header producer's own memory. */
  lemma SameCheck(H: Hasher, headers: map<int, Header>, fileStart: int, fileEnd: int, named: Option<Hash>,
                  file: seq<HeaderEntry>)
    requires fileStart <= fileEnd && Covers(headers, fileStart, fileEnd + 1)
    requires HeadersIn(file) == Range(headers, fileStart, fileEnd + 1)
    ensures HeaderCheck(H, file, named) <==> HF.ChecksOut(H, headers, fileStart, fileEnd, named)
  {
    assert file[|file| - 1].header == HeadersIn(file)[|file| - 1] == headers[fileEnd];
  }

  /**
   * Ingest goes through one block hash, and a file is written only if it checks out
   * against a backend that is honest about the chain of the block it names.
   */
  ghost predicate HeaderHooks(H: Hasher, b: Blocks, hooks: Hooks<HeaderEntry>) {
    && (forall now, height, e :: hooks.ingest(now, height) == Some(e) ==> FromBlock(H, b, height, e))
    && (forall now, start, file :: !hooks.writeSealedFile(now, start, file).Nothing? ==>
          && HeaderCheck(H, file, hooks.blockHash(now, start + |file| - 1))
          && HonestBelow(H, b, hooks.blockHash(now, start + |file| - 1), |file|))
  }

  /**
   * A header file on disk is the chain of one block: the one the backend named for its
   * last height at some moment. At every height it holds that ancestor's header, and its
   * filter-header file, if that was still written, the filter header the backend reports
   * for it; or a hash collision comes out.
   */
  lemma HeaderFileIsOneChain(H: Hasher, b: Blocks, hooks: Hooks<HeaderEntry>, files: map<int, seq<HeaderEntry>>,
                             mem: map<int, HeaderEntry>, start: nat)
    returns (now: nat, end: Hash, c: Option<Pair>)
    requires HeaderHooks(H, b, hooks) && Sourced(hooks, files, mem) && start in files
    ensures files[start] != [] && hooks.blockHash(now, start + |files[start]| - 1) == Some(end)
    ensures c.Some? ==> Collides(H, c.value)
    ensures c.None? ==> forall i: nat :: i < |files[start]| ==>
              files[start][i] == EntryOf(H, b, start + i, Chain(b, end, |files[start]|)[i])
  {
    var file := files[start];
    assert Vouched(hooks, start, file);
    now :| !hooks.writeSealedFile(now, start, file).Nothing?;
    var named := hooks.blockHash(now, start + |file| - 1);
    assert HeaderCheck(H, file, named);
    end := named.value;
    assert HonestBelow(H, b, named, |file|);
    ChainLinked(H, b, end, |file|);
    c := HeaderCollision(H, HeadersIn(file), FilterChain.Headers(b, Chain(b, end, |file|)));
    if c.None? {
      forall i: nat | i < |file| ensures file[i] == EntryOf(H, b, start + i, Chain(b, end, |file|)[i]) {
        assert Chain(b, end, |file|)[i] in Chain(b, end, |file|);
        OneEntry(H, b, hooks, files, mem, start, i, Chain(b, end, |file|)[i]);
      }
    }
  }

  /** The header of an ingested entry determines its block, and so its filter header. */
  lemma OneEntry(H: Hasher, b: Blocks, hooks: Hooks<HeaderEntry>, files: map<int, seq<HeaderEntry>>,
                 mem: map<int, HeaderEntry>, start: nat, i: nat, hash: Hash)
    requires Hashes(H, b, hash) && HeaderHooks(H, b, hooks) && Sourced(hooks, files, mem) && start in files
    requires i < |files[start]| && HeadersIn(files[start])[i] == b.header(hash)
    ensures files[start][i] == EntryOf(H, b, start + i, hash)
  {
    var e := files[start][i];
    assert AllAnswered(hooks, start, files[start]);
    assert Answered(hooks, start + i, e);
    var now: nat :| hooks.ingest(now, start + i) == Some(e);
    assert FromBlock(H, b, start + i, e);
    var other: Hash :| Hashes(H, b, other) && e == EntryOf(H, b, start + i, other);
    assert b.header(hash) == b.header(other);
  }

  // ---------- the basic filter producer ----------

  /** A file is written only if its filters close between what is named and answered then. */
  ghost predicate FilterHooks(H: Hasher, b: Blocks, hooks: Hooks<Blob>, answers: nat -> CF.Answers) {
    forall now: nat, start: int, file: seq<Blob> :: !hooks.writeSealedFile(now, start, file).Nothing? && start >= 0 ==>
      CF.Closes(H, b, answers(now), file, start)
  }

  /**
   * A filter file on disk holds the filters of the ancestors of one block, the one named
   * for its last height when it was sealed; or a hash collision comes out.
   */
  lemma FilterFileIsOneChain(H: Hasher, b: Blocks, hooks: Hooks<Blob>, answers: nat -> CF.Answers,
                             files: map<int, seq<Blob>>, mem: map<int, Blob>, start: nat)
    returns (now: nat, c: Option<Pair>)
    requires FilterHooks(H, b, hooks, answers) && Sourced(hooks, files, mem) && start in files
    ensures files[start] != [] && answers(now).named(start + |files[start]| - 1).Some?
    ensures c.Some? ==> Collides(H, c.value)
    ensures c.None? ==> files[start] == CF.AncestorFilters(b, answers(now), start, |files[start]|)
  {
    var file := files[start];
    assert Vouched(hooks, start, file);
    now :| !hooks.writeSealedFile(now, start, file).Nothing?;
    assert CF.Closes(H, b, answers(now), file, start);
    c := CF.ForeignFilterCollision(H, b, answers(now), file, start);
  }
}
