/**
 * The index-pair enumerators of numbers.py.  Each walks anti-diagonals
 * `a + b == s` of the grid of index pairs, `a` upwards, so every one of them
 * yields its pairs ordered by the sum and, within one sum, by the smaller index.
 */
module Pairs {
  import opened Sequences

  type Pair = (nat, nat)

  /** Lexicographic order on `(a + b, a)`. */
  predicate Before(p: Pair, q: Pair)
  {
    p.0 + p.1 < q.0 + q.1 || (p.0 + p.1 == q.0 + q.1 && p.0 < q.0)
  }

  predicate StrictlyOrdered(ps: seq<Pair>)
  {
    forall i, j :: 0 <= i < j < |ps| ==> Before(ps[i], ps[j])
  }

  /** An unordered pair whose larger index lies in `[lower, upper)`. */
  predicate InSlice(lower: nat, upper: nat, p: Pair)
  {
    p.0 < p.1 && lower <= p.1 < upper
  }

  /** A pair on the anti-diagonal `s`, at or after the start `a0`, larger index at least `lower`. */
  predicate OnDiagonal(s: nat, a0: nat, lower: nat, p: Pair)
  {
    p.0 + p.1 == s && a0 <= p.0 < p.1 && lower <= p.1
  }

  /** An ordered sequence is free of repeats. */
  lemma OrderedNoDuplicates(ps: seq<Pair>)
    requires StrictlyOrdered(ps)
    ensures NoDuplicates(ps)
  {
  }

  /**
   * The inner loop shared by all three enumerators: from `(a0, b0)` step
   * `a` up and `b` down while `b > a and b >= lower`, appending each pair.
   * (`combinations` and `bounded_combinations` test only `b > a`, which is
   * the same test with `lower == 0`.)
   */
  method WalkDiagonal(ps: seq<Pair>, a0: nat, b0: nat, lower: nat) returns (qs: seq<Pair>)
    requires StrictlyOrdered(ps)
    requires forall q: Pair :: q in ps ==> Before(q, (a0, b0))
    ensures StrictlyOrdered(qs)
    ensures forall p: Pair :: p in qs <==> p in ps || OnDiagonal(a0 + b0, a0, lower, p)
  {
    qs := ps;
    var a: nat, b: nat := a0, b0;
    while b > a && b >= lower
      invariant a0 <= a && a + b == a0 + b0
      invariant StrictlyOrdered(qs)
      invariant forall q: Pair :: q in qs ==> Before(q, (a, b))
      invariant forall p: Pair :: p in qs <==> p in ps || (OnDiagonal(a0 + b0, a0, lower, p) && p.0 < a)
      decreases b
    {
      qs := qs + [(a, b)];
      b := b - 1;
      a := a + 1;
    }
  }

  /**
   * `combinations()` runs forever; this is its output after the first `sums`
   * turns of the outer loop: every pair `a < b` with `a + b < sums`, once each,
   * in non-decreasing order of `a + b`.
   */
  method Combinations(sums: nat) returns (ps: seq<Pair>)
    ensures forall p: Pair :: p in ps <==> p.0 < p.1 && p.0 + p.1 < sums
    ensures StrictlyOrdered(ps) && NoDuplicates(ps)
    ensures forall i, j :: 0 <= i < j < |ps| ==> ps[i].0 + ps[i].1 <= ps[j].0 + ps[j].1
  {
    ps := [];
    var i := 0;
    while i < sums
      invariant i <= sums
      invariant StrictlyOrdered(ps)
      invariant forall p: Pair :: p in ps <==> p.0 < p.1 && p.0 + p.1 < i
    {
      ps := WalkDiagonal(ps, 0, i, 0);
      i := i + 1;
    }
    OrderedNoDuplicates(ps);
  }

  /** `bounded_combinations(n)`: every pair `0 <= a < b < n`, once each. */
  method BoundedCombinations(n: nat) returns (ps: seq<Pair>)
    ensures forall p: Pair :: p in ps <==> InSlice(0, n, p)
    ensures StrictlyOrdered(ps) && NoDuplicates(ps)
  {
    ps := [];
    var i := 0;
    while i < n
      invariant i <= n
      invariant StrictlyOrdered(ps)
      invariant forall p: Pair :: p in ps <==> p.0 < p.1 && p.0 + p.1 < i
    {
      ps := WalkDiagonal(ps, 0, i, 0);
      i := i + 1;
    }
    i := 1;
    while i < n
      invariant 1 <= i && (n > 0 ==> i <= n)
      invariant StrictlyOrdered(ps)
      invariant forall p: Pair :: p in ps <==> p.0 < p.1 < n && p.0 + p.1 < i + n - 1
    {
      ps := WalkDiagonal(ps, i, n - 1, 0);
      i := i + 1;
    }
    OrderedNoDuplicates(ps);
  }

  /**
   * `combinations_slice(lower, upper)`: nothing when `lower >= upper`, otherwise
   * every pair `a < b` with `lower <= b < upper`, once each.
   */
  method CombinationsSlice(lower: nat, upper: nat) returns (ps: seq<Pair>)
    ensures lower >= upper ==> ps == []
    ensures forall p: Pair :: p in ps <==> InSlice(lower, upper, p)
    ensures StrictlyOrdered(ps) && NoDuplicates(ps)
  {
    ps := [];
    if lower >= upper {
      return;
    }
    var i := lower;
    while i < upper
      invariant lower <= i <= upper
      invariant StrictlyOrdered(ps)
      invariant forall p: Pair :: p in ps <==> p.0 < p.1 && lower <= p.1 && p.0 + p.1 < i
    {
      ps := WalkDiagonal(ps, 0, i, lower);
      i := i + 1;
    }
    i := 1;
    while i < upper
      invariant 1 <= i <= upper
      invariant StrictlyOrdered(ps)
      invariant forall p: Pair :: p in ps <==> InSlice(lower, upper, p) && p.0 + p.1 < i + upper - 1
    {
      ps := WalkDiagonal(ps, i, upper - 1, lower);
      i := i + 1;
    }
    OrderedNoDuplicates(ps);
  }
}
