/**
 * The expression trees of numbers.py: a leaf `Val` wrapping one input number and
 * the four binary nodes `Add`, `Sub`, `Mul` and `Div`.  The source caches each
 * node's value when the node is built; here `Value` computes the same number.
 */
module Expressions {

  datatype Expr =
    | Val(n: int)
    | Add(left: Expr, right: Expr)
    | Sub(left: Expr, right: Expr)
    | Mul(left: Expr, right: Expr)
    | Div(left: Expr, right: Expr)

  /** Python's `//` on integers: the quotient rounded towards negative infinity. */
  function FloorDiv(x: int, y: int): (q: int)
    requires y != 0
    ensures y > 0 ==> y * q <= x < y * q + y
    ensures y < 0 ==> y * q + y < x <= y * q
  {
    if y > 0 || x % y == 0 then x / y else x / y - 1
  }

  /**
   * A tree the source can build at all: its `Div` constructor computes
   * `left.value // right.value` and raises for a zero divisor.
   */
  predicate Defined(e: Expr)
    decreases e, 0
  {
    match e
    case Val(_) => true
    case Add(l, r) => Defined(l) && Defined(r)
    case Sub(l, r) => Defined(l) && Defined(r)
    case Mul(l, r) => Defined(l) && Defined(r)
    case Div(l, r) => Defined(l) && Defined(r) && Value(r) != 0
  }

  /** The `value` attribute every node computes when it is built. */
  function Value(e: Expr): int
    requires Defined(e)
    decreases e, 1
  {
    match e
    case Val(n) => n
    case Add(l, r) => Value(l) + Value(r)
    case Sub(l, r) => Value(l) - Value(r)
    case Mul(l, r) => Value(l) * Value(r)
    case Div(l, r) => FloorDiv(Value(l), Value(r))
  }

  /** The leaf values of a tree, each counted as often as it occurs. */
  function Leaves(e: Expr): multiset<int>
  {
    match e
    case Val(n) => multiset{n}
    case Add(l, r) => Leaves(l) + Leaves(r)
    case Sub(l, r) => Leaves(l) + Leaves(r)
    case Mul(l, r) => Leaves(l) + Leaves(r)
    case Div(l, r) => Leaves(l) + Leaves(r)
  }

  /** The number of leaves of a tree. */
  function LeafCount(e: Expr): nat
  {
    if e.Val? then 1 else LeafCount(e.left) + LeafCount(e.right)
  }

  /** `used` counts one leaf per leaf: the counts add up to the number of leaves. */
  lemma {:induction false} LeavesCount(e: Expr)
    ensures |Leaves(e)| == LeafCount(e)
  {
    if !e.Val? {
      LeavesCount(e.left);
      LeavesCount(e.right);
    }
  }

  /**
   * `used(self, used)`: adds one to the count of each leaf's value in the
   * caller's dictionary, modelled here as a multiset that is passed in and
   * handed back.
   */
  method Used(e: Expr, used: multiset<int>) returns (counts: multiset<int>)
    ensures counts == used + Leaves(e)
    ensures forall v :: counts[v] == used[v] + Leaves(e)[v]
  {
    match e
    case Val(n) =>
      counts := used + multiset{n};
    case Add(l, r) =>
      counts := Used(l, used);
      counts := Used(r, counts);
    case Sub(l, r) =>
      counts := Used(l, used);
      counts := Used(r, counts);
    case Mul(l, r) =>
      counts := Used(l, used);
      counts := Used(r, counts);
    case Div(l, r) =>
      counts := Used(l, used);
      counts := Used(r, counts);
  }

  /** The `Add` constructor: it swaps the operands when the left one has the larger value. */
  function MkAdd(a: Expr, b: Expr): (r: Expr)
    requires Defined(a) && Defined(b)
    ensures r.Add? && Defined(r)
    ensures (r.left == a && r.right == b) || (r.left == b && r.right == a)
    ensures Value(r.left) <= Value(r.right)
    ensures Value(r) == Value(a) + Value(b)
    ensures Leaves(r) == Leaves(a) + Leaves(b)
    ensures Value(a) <= Value(b) ==> r.left == a
  {
    if Value(a) > Value(b) then Add(b, a) else Add(a, b)
  }

  /** The `Mul` constructor: it swaps the operands when the left one has the larger value. */
  function MkMul(a: Expr, b: Expr): (r: Expr)
    requires Defined(a) && Defined(b)
    ensures r.Mul? && Defined(r)
    ensures (r.left == a && r.right == b) || (r.left == b && r.right == a)
    ensures Value(r.left) <= Value(r.right)
    ensures Value(r) == Value(a) * Value(b)
    ensures Leaves(r) == Leaves(a) + Leaves(b)
    ensures Value(a) <= Value(b) ==> r.left == a
  {
    if Value(a) > Value(b) then Mul(b, a) else Mul(a, b)
  }

  /** When the operand values differ, the order they are passed in does not matter. */
  lemma MkCommutes(a: Expr, b: Expr)
    requires Defined(a) && Defined(b)
    requires Value(a) != Value(b)
    ensures MkAdd(a, b) == MkAdd(b, a)
    ensures MkMul(a, b) == MkMul(b, a)
  {
  }

  /** `__eq__` of `BinExpr` and `Val`: same class and equal operands, or two leaves of equal value. */
  function Equal(x: Expr, y: Expr): bool
  {
    match (x, y)
    case (Val(u), Val(v)) => u == v
    case (Add(l, r), Add(l', r')) => Equal(l, l') && Equal(r, r')
    case (Sub(l, r), Sub(l', r')) => Equal(l, l') && Equal(r, r')
    case (Mul(l, r), Mul(l', r')) => Equal(l, l') && Equal(r, r')
    case (Div(l, r), Div(l', r')) => Equal(l, l') && Equal(r, r')
    case _ => false
  }

  /** The source's equality is exactly structural equality of the trees. */
  lemma {:induction false} EqualIsStructural(x: Expr, y: Expr)
    ensures Equal(x, y) <==> x == y
  {
    match (x, y)
    case (Add(l, r), Add(l', r')) => EqualIsStructural(l, l'); EqualIsStructural(r, r');
    case (Sub(l, r), Sub(l', r')) => EqualIsStructural(l, l'); EqualIsStructural(r, r');
    case (Mul(l, r), Mul(l', r')) => EqualIsStructural(l, l'); EqualIsStructural(r, r');
    case (Div(l, r), Div(l', r')) => EqualIsStructural(l, l'); EqualIsStructural(r, r');
    case _ =>
  }

  /**
   * The shape of every tree the search builds: all values positive, `Add` and
   * `Mul` with the smaller value on the left, `Sub` larger minus smaller, and
   * every `Div` exact.
   */
  ghost predicate Wf(e: Expr)
    ensures Wf(e) ==> Defined(e) && Value(e) > 0
  {
    Defined(e) && Value(e) > 0 &&
    match e
    case Val(_) => true
    case Add(l, r) => Wf(l) && Wf(r) && Value(l) <= Value(r)
    case Sub(l, r) => Wf(l) && Wf(r) && Value(l) > Value(r)
    case Mul(l, r) => Wf(l) && Wf(r) && Value(l) <= Value(r)
    case Div(l, r) => Wf(l) && Wf(r) && Value(l) % Value(r) == 0
  }
}
