/** `make(a, b)` of numbers.py: every expression built from two operands by one operator. */
module Operators {
  import opened Sequences
  import opened Expressions

  /**
   * `Add` and `Mul` always; one `Sub`, larger minus smaller, when the values
   * differ; a `Div` for each order in which the division is exact.  Both `%`
   * tests raise in the source when an operand's value is zero, hence the
   * requirement of nonzero values.
   */
  function Make(a: Expr, b: Expr): (r: seq<Expr>)
    requires Defined(a) && Defined(b)
    requires Value(a) != 0 && Value(b) != 0
    ensures 2 <= |r| <= 5
    ensures r[0] == MkAdd(a, b) && r[1] == MkMul(a, b)
    ensures forall e :: e in r ==> Defined(e)
  {
    [MkAdd(a, b), MkMul(a, b)] + SubPart(a, b) + DivPart(a, b) + DivPart(b, a)
  }

  /** Lines 234-238: the one subtraction of the larger value minus the smaller, if they differ. */
  function SubPart(a: Expr, b: Expr): (r: seq<Expr>)
    requires Defined(a) && Defined(b)
    ensures |r| <= 1
    ensures |r| == 1 <==> Value(a) != Value(b)
    ensures forall e :: e in r ==>
      e.Sub? && Defined(e) && Value(e.left) > Value(e.right) && Value(e) > 0 &&
      ((e.left == a && e.right == b) || (e.left == b && e.right == a))
  {
    if Value(a) > Value(b) then [Sub(a, b)]
    else if Value(b) > Value(a) then [Sub(b, a)]
    else []
  }

  /** Lines 240-244, one order: `Div(x, y)` when `y` divides `x`. */
  function DivPart(x: Expr, y: Expr): (r: seq<Expr>)
    requires Defined(x) && Defined(y) && Value(y) != 0
    ensures |r| <= 1
    ensures |r| == 1 <==> Value(x) % Value(y) == 0
    ensures forall e :: e in r ==> e == Div(x, y) && Defined(e)
  {
    if Value(x) % Value(y) == 0 then [Div(x, y)] else []
  }

  /** What `make` emits, and nothing else. */
  lemma MakeMembers(a: Expr, b: Expr, e: Expr)
    requires Defined(a) && Defined(b)
    requires Value(a) != 0 && Value(b) != 0
    ensures e in Make(a, b) <==>
      e == MkAdd(a, b) || e == MkMul(a, b)
      || (e == Sub(a, b) && Value(a) > Value(b))
      || (e == Sub(b, a) && Value(b) > Value(a))
      || (e == Div(a, b) && Value(a) % Value(b) == 0)
      || (e == Div(b, a) && Value(b) % Value(a) == 0)
  {
  }

  /** One for a condition that holds, zero otherwise: the length of one optional append. */
  function Ind(c: bool): nat
  {
    if c then 1 else 0
  }

  /**
   * The layout of the list `make` returns: `Add`, `Mul`, the `Sub` when the
   * values differ, then `Div(a, b)` before `Div(b, a)` for the divisions that
   * are exact.  For two different operands no result occurs twice.
   */
  lemma MakeLayout(a: Expr, b: Expr)
    requires Defined(a) && Defined(b)
    requires Value(a) != 0 && Value(b) != 0
    ensures |Make(a, b)| ==
      2 + Ind(Value(a) != Value(b)) + Ind(Value(a) % Value(b) == 0) + Ind(Value(b) % Value(a) == 0)
    ensures Value(a) % Value(b) == 0 ==> Make(a, b)[2 + Ind(Value(a) != Value(b))] == Div(a, b)
    ensures Value(b) % Value(a) == 0 ==> Make(a, b)[|Make(a, b)| - 1] == Div(b, a)
    ensures a != b ==> NoDuplicates(Make(a, b))
  {
    var r := Make(a, b);
    var subs, dab, dba := SubPart(a, b), DivPart(a, b), DivPart(b, a);
    assert r == [MkAdd(a, b), MkMul(a, b)] + subs + dab + dba;
    if a != b {
      forall i, j | 0 <= i < j < |r| ensures r[i] != r[j] {
        if 2 + |subs| <= i {
          assert r[i] == dab[0] && r[j] == dba[0];
        } else if 2 <= i {
          assert r[i] == subs[0] && r[i].Sub?;
          assert r[j] in dab + dba;
        } else if 2 <= j {
          assert r[j] in subs + dab + dba;
        }
      }
    }
  }

  /** Every result is a binary node over the two operands, in one order or the other, and uses the leaves of both. */
  lemma MakeOperands(a: Expr, b: Expr)
    requires Defined(a) && Defined(b)
    requires Value(a) != 0 && Value(b) != 0
    ensures forall e :: e in Make(a, b) ==>
      Defined(e) && !e.Val? && Leaves(e) == Leaves(a) + Leaves(b) &&
      ((e.left == a && e.right == b) || (e.left == b && e.right == a))
  {
    forall e | e in Make(a, b)
      ensures Defined(e) && !e.Val? && Leaves(e) == Leaves(a) + Leaves(b)
      ensures (e.left == a && e.right == b) || (e.left == b && e.right == a)
    {
      MakeMembers(a, b, e);
    }
  }

  /**
   * The third result, and no other, is a `Sub`, and it is there exactly when
   * the values differ: its value is then positive.
   */
  lemma MakeSub(a: Expr, b: Expr)
    requires Defined(a) && Defined(b)
    requires Value(a) != 0 && Value(b) != 0
    ensures forall i :: 0 <= i < |Make(a, b)| ==> (Make(a, b)[i].Sub? <==> i == 2 && Value(a) != Value(b))
    ensures forall e :: e in Make(a, b) && e.Sub? ==> Value(e) > 0 && Value(e.left) > Value(e.right)
  {
    var r := Make(a, b);
    var subs := SubPart(a, b);
    var divs := DivPart(a, b) + DivPart(b, a);
    assert r == [MkAdd(a, b), MkMul(a, b)] + subs + divs;
    forall i | 0 <= i < |r| ensures r[i].Sub? <==> i == 2 && Value(a) != Value(b) {
      if i >= 2 + |subs| {
        assert r[i] == divs[i - 2 - |subs|];
        assert r[i] in divs;
      } else if i >= 2 {
        assert r[i] == subs[0];
      }
    }
  }

  /** A division with no remainder: the dividend is the divisor times the quotient. */
  predicate ExactDivision(e: Expr)
  {
    e.Div? && Defined(e) && Value(e.left) % Value(e.right) == 0 && Value(e.left) == Value(e.right) * Value(e)
  }

  /** Every division `make` emits is exact: the dividend is the divisor times the quotient. */
  lemma MakeDivExact(a: Expr, b: Expr)
    requires Defined(a) && Defined(b)
    requires Value(a) != 0 && Value(b) != 0
    ensures forall e :: e in Make(a, b) && e.Div? ==> ExactDivision(e)
  {
    var r := Make(a, b);
    assert r == [MkAdd(a, b), MkMul(a, b)] + SubPart(a, b) + (DivPart(a, b) + DivPart(b, a));
    DivPartExact(a, b);
    DivPartExact(b, a);
  }

  lemma DivPartExact(x: Expr, y: Expr)
    requires Defined(x) && Defined(y) && Value(y) != 0
    ensures forall e :: e in DivPart(x, y) ==> ExactDivision(e)
  {
    if Value(x) % Value(y) == 0 {
      ExactFloorDiv(Value(x), Value(y));
    }
  }

  lemma ExactFloorDiv(x: int, y: int)
    requires y != 0 && x % y == 0
    ensures x == y * FloorDiv(x, y)
  {
  }

  /** The quotient of two positive numbers, one a multiple of the other, is positive. */
  lemma PositiveQuotient(x: int, y: int)
    requires x > 0 && y > 0 && x % y == 0
    ensures x / y > 0
  {
    var q := x / y;
    assert x == y * q;
    NonPositiveProduct(y, q);
  }

  lemma NonPositiveProduct(y: int, q: int)
    requires y > 0
    ensures q <= 0 ==> y * q <= 0
  {
  }

  /** With positive operands every result is positive, so no later `%` divides by zero. */
  lemma MakePositive(a: Expr, b: Expr)
    requires Defined(a) && Defined(b)
    requires Value(a) > 0 && Value(b) > 0
    ensures forall e :: e in Make(a, b) ==> Value(e) > 0
  {
    PositiveProduct(Value(a), Value(b));
    DivPartPositive(a, b);
    DivPartPositive(b, a);
  }

  lemma DivPartPositive(x: Expr, y: Expr)
    requires Defined(x) && Defined(y)
    requires Value(x) > 0 && Value(y) > 0
    ensures forall e :: e in DivPart(x, y) ==> Value(e) > 0
  {
    if Value(x) % Value(y) == 0 {
      PositiveQuotient(Value(x), Value(y));
    }
  }

  lemma PositiveProduct(x: int, y: int)
    requires x > 0 && y > 0
    ensures x * y > 0
  {
  }

  /** From well-formed operands `make` builds only well-formed trees. */
  lemma MakeWf(a: Expr, b: Expr)
    requires Wf(a) && Wf(b)
    ensures forall e :: e in Make(a, b) ==>
      Wf(e) && !e.Val? && Leaves(e) == Leaves(a) + Leaves(b) &&
      ((e.left == a && e.right == b) || (e.left == b && e.right == a))
  {
    MakePositive(a, b);
    MakeOperands(a, b);
    forall e | e in Make(a, b) ensures Wf(e) {
      MakeMembers(a, b, e);
    }
  }
}
