// Positions on a ring of `cap` slots, written without `%` so that proofs stay linear.
// Both probe tables (include/my_hashtable.h and source/intern.c) walk such a ring.
module Circular {

  /** The slot after p: what `(pos + 1) % cap` computes for pos < cap. */
  function Next(p: nat, cap: nat): (q: nat)
    requires p < cap
    ensures q == if p + 1 == cap then 0 else p + 1
  {
    (p + 1) % cap
  }

  /** How many steps forward lead from slot `from` to slot `to`. */
  function Gap(from: nat, to: nat, cap: nat): (g: nat)
    requires from < cap && to < cap
    ensures g < cap
    ensures g == 0 <==> from == to
  {
    if from <= to then to - from else to - from + cap
  }

  /** The slot j steps before p. */
  function Back(p: nat, j: nat, cap: nat): (q: nat)
    requires p < cap && j <= cap
    ensures q < cap
    ensures j < cap ==> Gap(q, p, cap) == j
  {
    if j <= p then p - j else p - j + cap
  }

  /** Going back from p to where the walk from h stood after fewer steps. */
  lemma BackToPath(h: nat, p: nat, q: nat, cap: nat)
    requires h < cap && p < cap && q < cap && Gap(h, q, cap) <= Gap(h, p, cap)
    ensures Back(p, Gap(h, p, cap) - Gap(h, q, cap), cap) == q
  {
  }

  /** A sequence of different numbers below n has at most n elements. */
  lemma Pigeonhole(s: seq<int>, n: nat)
    requires forall p :: 0 <= p < |s| ==> 0 <= s[p] < n
    requires forall p, q :: 0 <= p < q < |s| ==> s[p] != s[q]
    ensures |s| <= n
  {
    if s != [] {
      assert 0 <= s[0] < n;
      if p :| 0 <= p < |s| && s[p] == n - 1 {
        Pigeonhole(s[..p] + s[p + 1..], n - 1);
      } else {
        Pigeonhole(s, n - 1);
      }
    }
  }
}
