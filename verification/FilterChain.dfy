/**
 * The commitment chains: filter headers (section "Filter Headers" of BIP 157) and
 * block headers linked by their previous-block hash. The hash is an arbitrary
 * function `H`; nothing is assumed about it. Instead of "the hash is injective", each
 * binding result returns the two inputs that collide whenever the claim fails.
 */
module FilterChain {
  import opened Basics
  import opened Wire

  /** Double SHA-256, left abstract. */
  type Hasher = Bytes -> Hash

  type Pair = (Bytes, Bytes)

  predicate Collides(H: Hasher, c: Pair) {
    c.0 != c.1 && H(c.0) == H(c.1)
  }

  // ---------- filter headers ----------

  /** One link: the hash of the filter's hash followed by the previous header. */
  function FilterHeader(H: Hasher, filter: Bytes, prev: Hash): Hash {
    H(H(filter) + prev)
  }

  /** The header reached by chaining `filters` onto `start`. */
  function Fold(H: Hasher, start: Hash, filters: seq<Bytes>): Hash {
    if filters == [] then start
    else FilterHeader(H, filters[|filters| - 1], Fold(H, start, filters[..|filters| - 1]))
  }

  lemma {:induction false} FoldConcat(H: Hasher, start: Hash, a: seq<Bytes>, b: seq<Bytes>)
    ensures Fold(H, start, a + b) == Fold(H, Fold(H, start, a), b)
    decreases |b|
  {
    if b == [] {
      assert a + b == a;
    } else {
      assert (a + b)[..|a + b| - 1] == a + b[..|b| - 1];
      FoldConcat(H, start, a, b[..|b| - 1]);
    }
  }

  lemma FoldSnoc(H: Hasher, start: Hash, a: seq<Bytes>, f: Bytes)
    ensures Fold(H, start, a + [f]) == FilterHeader(H, f, Fold(H, start, a))
  {
    assert (a + [f])[..|a|] == a;
  }

  /** The first two filter headers: the filter's hash, then the header before. */
  lemma FoldOfTwo(H: Hasher, f: Bytes, g: Bytes)
    ensures Fold(H, ZERO_HASH, [f]) == H(H(f) + seq(32, _ => 0))
    ensures Fold(H, ZERO_HASH, [f, g]) == H(H(g) + H(H(f) + seq(32, _ => 0)))
  {
    assert ZERO_HASH == seq(32, _ => 0);
    assert [f] == [] + [f] && [f, g] == [f] + [g];
    FoldSnoc(H, ZERO_HASH, [], f);
    FoldSnoc(H, ZERO_HASH, [f], g);
  }

  /** The collision hidden in two different links that give one header. */
  function LinkCollision(H: Hasher, f: Bytes, p: Hash, g: Bytes, q: Hash): (c: Option<Pair>)
    requires FilterHeader(H, f, p) == FilterHeader(H, g, q)
    ensures c.None? <==> f == g && p == q
    ensures c.Some? ==> Collides(H, c.value)
  {
    if H(f) + p != H(g) + q then
      Some((H(f) + p, H(g) + q))
    else
      assert H(f) == (H(f) + p)[..32] && p == (H(f) + p)[32..];
      assert H(g) == (H(g) + q)[..32] && q == (H(g) + q)[32..];
      if f != g then Some((f, g)) else None
  }

  /**
   * A filter header binds its whole history: two equally long runs that close on one
   * header have the same start and the same filters, or contain a collision.
   */
  function FoldCollision(H: Hasher, p: Hash, fs: seq<Bytes>, q: Hash, gs: seq<Bytes>): (c: Option<Pair>)
    requires |fs| == |gs| && Fold(H, p, fs) == Fold(H, q, gs)
    ensures c.None? <==> p == q && fs == gs
    ensures c.Some? ==> Collides(H, c.value)
  {
    if fs == [] then
      None
    else
      var n := |fs| - 1;
      assert fs == fs[..n] + [fs[n]] && gs == gs[..n] + [gs[n]];
      var link := LinkCollision(H, fs[n], Fold(H, p, fs[..n]), gs[n], Fold(H, q, gs[..n]));
      if link.Some? then link else FoldCollision(H, p, fs[..n], q, gs[..n])
  }

  // ---------- block headers ----------

  /** A serialized block header; bytes 4 to 35 are the previous block's hash. */
  type Header = h: Bytes | |h| == 80 witness seq(80, _ => 0)

  const HEADER_SIZE := 80

  function PrevBlock(h: Header): Hash {
    h[4..36]
  }

  /** The second of a block header's fields, in the order they are serialized. */
  lemma PrevBlockField(version: Bytes, prev: Hash, merkleRoot: Hash, time: Bytes, bits: Bytes, nonce: Bytes)
    requires |version| == |time| == |bits| == |nonce| == 4
    ensures var h := version + prev + merkleRoot + time + bits + nonce; |h| == 80 && PrevBlock(h) == prev
  {
    var h := version + prev + merkleRoot + time + bits + nonce;
    assert h == version + (prev + (merkleRoot + time + bits + nonce));
    assert h[4..36] == (prev + (merkleRoot + time + bits + nonce))[..32] == prev;
  }

  predicate LinkAt(H: Hasher, hs: seq<Header>, i: nat)
    requires 0 < i < |hs|
  {
    PrevBlock(hs[i]) == H(hs[i - 1])
  }

  predicate Linked(H: Hasher, hs: seq<Header>) {
    forall i: nat :: 0 < i < |hs| ==> LinkAt(H, hs, i)
  }

  lemma LinkedPrefix(H: Hasher, hs: seq<Header>, n: nat)
    requires Linked(H, hs) && n <= |hs|
    ensures Linked(H, hs[..n])
  {
    forall i: nat | 0 < i < n ensures LinkAt(H, hs[..n], i) {
      assert LinkAt(H, hs, i);
    }
  }

  /** Two equally long linked runs with one last hash are equal, or contain a collision. */
  function HeaderCollision(H: Hasher, hs: seq<Header>, gs: seq<Header>): (c: Option<Pair>)
    requires |hs| == |gs| > 0 && Linked(H, hs) && Linked(H, gs)
    requires H(hs[|hs| - 1]) == H(gs[|gs| - 1])
    ensures c.None? <==> hs == gs
    ensures c.Some? ==> Collides(H, c.value)
  {
    var n := |hs| - 1;
    if hs[n] != gs[n] then
      Some((hs[n], gs[n]))
    else if n == 0 then
      assert hs == gs;
      None
    else
      assert hs == hs[..n] + [hs[n]] && gs == gs[..n] + [gs[n]];
      assert LinkAt(H, hs, n) && LinkAt(H, gs, n);
      LinkedPrefix(H, hs, n);
      LinkedPrefix(H, gs, n);
      HeaderCollision(H, hs[..n], gs[..n])
  }

  // ---------- the backend's blocks ----------

  /** What the backend answers about a block hash: its header and its basic filter. */
  datatype Blocks = Blocks(header: Hash -> Header, filter: Hash -> Blob)

  /** The header the backend gives for a hash has that hash. */
  predicate Hashes(H: Hasher, b: Blocks, hash: Hash) {
    H(b.header(hash)) == hash
  }

  /** It does for the blocks of one chain. */
  ghost predicate Honest(H: Hasher, b: Blocks, chain: seq<Hash>) {
    forall hash :: hash in chain ==> Hashes(H, b, hash)
  }

  /** The last `n` blocks of the chain that ends in `tip`, oldest first. */
  function Chain(b: Blocks, tip: Hash, n: nat): (c: seq<Hash>)
    ensures |c| == n
    ensures n > 0 ==> c[n - 1] == tip
    decreases n
  {
    if n == 0 then [] else Chain(b, PrevBlock(b.header(tip)), n - 1) + [tip]
  }

  function Headers(b: Blocks, chain: seq<Hash>): (r: seq<Header>)
    ensures |r| == |chain|
  {
    seq<Header>(|chain|, i requires 0 <= i < |chain| => b.header(chain[i]))
  }

  function Filters(b: Blocks, chain: seq<Hash>): (r: seq<Bytes>)
    ensures |r| == |chain|
  {
    seq(|chain|, i requires 0 <= i < |chain| => b.filter(chain[i]))
  }

  /** The filter header the backend reports for a block at `height`. */
  function AuthFilterHeader(H: Hasher, b: Blocks, hash: Hash, height: nat): Hash {
    Fold(H, ZERO_HASH, Filters(b, Chain(b, hash, height + 1)))
  }

  lemma {:induction false} ChainLinked(H: Hasher, b: Blocks, tip: Hash, n: nat)
    requires Honest(H, b, Chain(b, tip, n))
    ensures Linked(H, Headers(b, Chain(b, tip, n)))
    ensures forall i :: 0 <= i < n ==> H(Headers(b, Chain(b, tip, n))[i]) == Chain(b, tip, n)[i]
    decreases n
  {
    if n > 0 {
      var p := PrevBlock(b.header(tip));
      assert Hashes(H, b, tip) by {
        assert Chain(b, tip, n)[n - 1] in Chain(b, tip, n);
      }
      ChainLinked(H, b, p, n - 1);
      var hs, inner := Headers(b, Chain(b, tip, n)), Headers(b, Chain(b, p, n - 1));
      assert hs[..n - 1] == inner;
      forall i: nat | 0 < i < n ensures LinkAt(H, hs, i) {
        assert hs[i - 1] == inner[i - 1];
        if i < n - 1 {
          assert hs[i] == inner[i];
          assert LinkAt(H, inner, i);
        }
      }
    }
  }

  /** The ancestors of an ancestor are the older part of the chain. */
  lemma {:induction false} ChainPrefix(b: Blocks, tip: Hash, n: nat, k: nat)
    requires k < n
    ensures Chain(b, Chain(b, tip, n)[k], k + 1) == Chain(b, tip, n)[..k + 1]
    decreases n
  {
    if k < n - 1 {
      var p := PrevBlock(b.header(tip));
      ChainPrefix(b, p, n - 1, k);
      assert Chain(b, tip, n)[..n - 1] == Chain(b, p, n - 1);
      assert Chain(b, tip, n)[..k + 1] == Chain(b, p, n - 1)[..k + 1];
    } else {
      assert Chain(b, tip, n)[..k + 1] == Chain(b, tip, n);
    }
  }

  /** Along one chain, the reported filter headers are one fold. */
  lemma AuthFilterHeaderExtends(H: Hasher, b: Blocks, tip: Hash, height: nat, k: nat)
    requires k < height
    ensures var c := Chain(b, tip, height + 1);
            AuthFilterHeader(H, b, tip, height)
            == Fold(H, AuthFilterHeader(H, b, c[k], k), Filters(b, c[k + 1..]))
  {
    var c := Chain(b, tip, height + 1);
    ChainPrefix(b, tip, height + 1, k);
    assert Filters(b, c) == Filters(b, c[..k + 1]) + Filters(b, c[k + 1..]);
    FoldConcat(H, ZERO_HASH, Filters(b, c[..k + 1]), Filters(b, c[k + 1..]));
  }
}
