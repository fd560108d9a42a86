/** Small facts about sequences shared by the enumerators and the search. */
module Sequences {

  /** No element occurs twice. */
  ghost predicate NoDuplicates<T>(s: seq<T>)
  {
    forall i, j :: 0 <= i < j < |s| ==> s[i] != s[j]
  }

  predicate StrictlyIncreasing(s: seq<int>)
  {
    forall i, j :: 0 <= i < j < |s| ==> s[i] < s[j]
  }

  /** A strictly increasing sequence has as many elements as it has distinct values. */
  lemma {:induction false} IncreasingCardinality(s: seq<int>)
    requires StrictlyIncreasing(s)
    ensures |set y | y in s| == |s|
  {
    if s != [] {
      var tail := s[1..];
      assert StrictlyIncreasing(tail) by {
        forall i, j | 0 <= i < j < |tail| ensures tail[i] < tail[j] {
          assert tail[i] == s[i + 1] && tail[j] == s[j + 1];
        }
      }
      IncreasingCardinality(tail);
      assert s == [s[0]] + tail;
      assert (set y | y in s) == {s[0]} + (set y | y in tail);
      assert s[0] !in (set y | y in tail) by {
        forall k | 0 <= k < |tail| ensures tail[k] != s[0] {
          assert tail[k] == s[k + 1];
        }
      }
    }
  }

  /** Inserts `x` into a strictly increasing sequence, keeping it strictly increasing and free of repeats. */
  function InsertSorted(s: seq<int>, x: int): (r: seq<int>)
    requires StrictlyIncreasing(s)
    ensures StrictlyIncreasing(r)
    ensures forall y :: y in r <==> y in s || y == x
  {
    if s == [] then [x]
    else if x < s[0] then [x] + s
    else if x == s[0] then s
    else
      var tail := InsertSorted(s[1..], x);
      assert forall k :: 0 <= k < |tail| ==> tail[k] in tail;
      assert forall y :: y in s[1..] ==> s[0] < y;
      [s[0]] + tail
  }

  /** `sorted(set(numbers))`: the distinct input values in ascending order. */
  method SortedDistinct(numbers: seq<int>) returns (s: seq<int>)
    ensures StrictlyIncreasing(s)
    ensures forall y :: y in s <==> y in numbers
  {
    s := [];
    for k := 0 to |numbers|
      invariant StrictlyIncreasing(s)
      invariant forall y :: y in s <==> y in numbers[..k]
    {
      assert numbers[..k + 1] == numbers[..k] + [numbers[k]];
      s := InsertSorted(s, numbers[k]);
    }
    assert numbers[..|numbers|] == numbers;
  }
}
