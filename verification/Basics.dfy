/** Small vocabulary shared by every module of the model. */
module Basics {

  datatype Option<+T> = None | Some(value: T)

  /** The heights `lo..hi-1` of an in-memory map, as a sequence. */
  function Range<T>(m: map<int, T>, lo: int, hi: int): (r: seq<T>)
    requires lo <= hi
    requires forall h :: lo <= h < hi ==> h in m
    ensures |r| == hi - lo
    ensures forall i :: 0 <= i < |r| ==> r[i] == m[lo + i]
  {
    seq(hi - lo, i requires 0 <= i < hi - lo => m[lo + i])
  }

  /** The inclusive range `first..last`, empty when `last < first`, as the Go loops walk it. */
  function Span<T>(m: map<int, T>, first: int, last: int): (r: seq<T>)
    requires Covers(m, first, last + 1)
    ensures |r| == if last < first then 0 else last + 1 - first
    ensures forall i :: 0 <= i < |r| ==> r[i] == m[first + i]
  {
    if last < first then [] else Range(m, first, last + 1)
  }

  /** Every height of `lo..hi-1` is a key of the map. */
  predicate Covers<T>(m: map<int, T>, lo: int, hi: int) {
    forall h :: lo <= h < hi ==> h in m
  }

  lemma MulBound(d: int, e: int)
    requires 0 < e
    ensures d >= 1 ==> d * e >= e
    ensures d <= -1 ==> d * e <= -e
  {
  }

  /** Repeated addition, for proofs that should stay linear. */
  function Times(n: nat, k: nat): nat {
    if n == 0 then 0 else Times(n - 1, k) + k
  }

  lemma {:induction false} TimesIsProduct(n: nat, k: nat)
    ensures Times(n, k) == n * k
  {
    if n > 0 {
      TimesIsProduct(n - 1, k);
    }
  }

  /** Quotient and remainder are determined by their defining equation. */
  lemma DivMod(a: int, e: int, q: int, r: int)
    requires 0 < e && 0 <= r < e && a == q * e + r
    ensures a / e == q && a % e == r
  {
    var d := q - a / e;
    assert d * e == a % e - r;
    MulBound(d, e);
  }

  /** Adding or removing one period does not change a remainder. */
  lemma ModStep(a: int, e: int)
    requires 0 < e
    ensures (a + e) % e == a % e
    ensures (a + e) / e == a / e + 1
  {
    DivMod(a + e, e, a / e + 1, a % e);
  }

  /** Two multiples of `e` less than `e` apart are equal. */
  lemma AlignedGap(a: int, b: int, e: int)
    requires 0 < e && a % e == 0 && b % e == 0
    requires a <= b < a + e
    ensures a == b
  {
    assert (b / e - a / e) * e == b - a;
    MulBound(b / e - a / e, e);
  }

  /** A multiple of a multiple is a multiple. */
  lemma MultipleOfMultiple(a: int, p: int, e: int)
    requires 0 < p && 0 < e && a % p == 0 && p % e == 0
    ensures a % e == 0
  {
    var x, y := a / p, p / e;
    assert a == x * p && p == y * e;
    assert x * (y * e) == (x * y) * e;
    DivMod(a, e, x * y, 0);
  }
}
