# numbers.py: a verified model of the expression search

numbers.py searches for arithmetic expressions over a multiset of positive
integers whose value equals a target. Each expression uses each input value at
most as often as it occurs in the input, and combines values with `+`, `-`,
`*` and exact `/`. This project models its core in Dafny and proves what that
core promises:

- `expressions.dfy` (module `Expressions`) holds the expression tree: `Val`
  and the binary nodes `Add`, `Sub`, `Mul` and `Div`.
  - `Value` is the value each node computes when it is built. `Div` uses
    Python's floor division, `FloorDiv`.
  - `MkAdd` and `MkMul` model the `Add` and `Mul` constructors, which put the
    smaller-valued operand on the left.
  - `Leaves` is the multiset of leaf values. The method `Used` models `used`.
  - `Equal` models `__eq__`.
  - `Wf` is the shape of every tree the search builds.
- `operators.dfy` (module `Operators`) holds `make`, modelled as a function
  returning the list it builds.
- `pairs.dfy` (module `Pairs`) holds the three index-pair generators
  `combinations`, `bounded_combinations` and `combinations_slice`. Each is a
  method with the source's nested `while` loops. Each returns the sequence of
  pairs the generator yields and is proved to return exactly the intended pairs.
- `search.dfy` (module `Search`) holds `solutions`, the worklist loop.
  - The pool is `exprs`, `uniq` is a set of expressions, and the input
    multiset `avail` is `multiset(numbers)`.
  - The `combs` list grows while the loop iterates over it.
  - The loop runs for a given number of generators (`waves`), since the
    source's loop never ends.
- `sequences.dfy` (module `Sequences`) holds sequence helpers and
  `sorted(set(numbers))`.

Facts about numbers.py that shape the model:
- Usage is tracked by leaf value, with a count per value; there are no input
  indices or bitmasks.
- Expressions are kept as built: the only normalisation is the operand swap in
  the `Add` and `Mul` constructors. Multiplication and division by 1 are kept.
- There is one equality, the structural `__eq__`, and no numeric
  deduplication: two different trees of equal value are both kept.
- The pool starts with one leaf per distinct input value, and every pair the
  search combines has two different pool indices. So a value given twice,
  such as `5, 5`, is never combined with itself directly: `5 / 5` is never
  built. `Solutions` states this as `DistinctOperands` for every yielded and
  pooled node.
- `make` emits `Sub` only for unequal values, so `4 - 4` never appears.

## Model

| member | source | states |
|---|---|---|
| `Expressions.FloorDiv` | numbers.py:78 | The quotient of `//` is rounded towards negative infinity: `y*q <= x < y*q + y` for a positive divisor, mirrored for a negative one. |
| `Expressions.Used` | numbers.py:25-27 | `used` adds the leaf counts of the tree to the caller's counts: each value's count grows by the number of leaves holding it. |
| `Expressions.LeavesCount` | numbers.py:94-95 | Each leaf adds exactly one to the counts, so the counts of a tree sum to its number of leaves. |
| `Expressions.MkAdd` | numbers.py:40-43 | `Add` keeps the two operands, the smaller value on the left, and does not swap them when the values are equal. Its value is their sum in either order. Its leaves are those of both operands. |
| `Expressions.MkMul` | numbers.py:64-67 | `Mul` keeps the two operands, the smaller value on the left, and does not swap them when the values are equal. Its value is their product. Its leaves are those of both operands. |
| `Expressions.MkCommutes` | numbers.py:41-42 | When the operand values differ, `Add(a, b)` equals `Add(b, a)` and `Mul(a, b)` equals `Mul(b, a)`. |
| `Expressions.EqualIsStructural` | numbers.py:32-36 | `__eq__` of `BinExpr` and `Val` (lines 103-107) holds exactly when the trees are identical. Binary nodes must have the same class and equal operands, leaves equal values, and nodes of different classes are never equal. |
| `Operators.Make` | numbers.py:231-246 | `make` returns two to five expressions: `Add` first, `Mul` second. |
| `Operators.MakeMembers` | numbers.py:231-246 | An expression is returned by `make` exactly when it is `Add` or `Mul` of the pair, the `Sub` of the larger value minus the smaller when they differ, or a `Div` whose division is exact, in either order. |
| `Operators.MakeOperands` | numbers.py:231-246 | Every result is a binary node whose operands are the two inputs in one order or the other. Its leaves are those of both inputs. |
| `Operators.MakeSub` | numbers.py:234-238 | The third result is a `Sub` exactly when the values differ, and no other result is a `Sub`. Its value is positive. |
| `Operators.MakeDivExact` | numbers.py:240-244 | Every `Div` returned has a remainder-free division: the left value is the right value times the node's value. |
| `Operators.MakePositive` | numbers.py:231-246 | With positive operands every result has a positive value, so no later `%` divides by zero. |
| `Operators.MakeWf` | numbers.py:231-246 | From well-formed operands every result is well formed. That means positive values throughout, ordered `Add`/`Mul` operands, `Sub` larger minus smaller, and exact `Div`. |
| `Pairs.WalkDiagonal` | numbers.py:186-191 | The inner loop appends exactly the pairs of one anti-diagonal from its start, while `b > a` and `b >= lower`. The result stays ordered by `(a + b, a)`. |
| `Pairs.Combinations` | numbers.py:166-178 | The first `sums` turns of `combinations()` yield every pair `a < b` with `a + b < sums`, and nothing else. Each pair appears once, in non-decreasing order of `a + b`. |
| `Pairs.BoundedCombinations` | numbers.py:180-202 | `bounded_combinations(n)` yields every pair `0 <= a < b < n` exactly once, and nothing else. |
| `Pairs.CombinationsSlice` | numbers.py:204-229 | `combinations_slice(lower, upper)` yields nothing when `lower >= upper`. Otherwise it yields every pair `a < b` with `lower <= b < upper` exactly once, and nothing else. |
| `Sequences.SortedDistinct` | numbers.py:114 | `sorted(set(numbers))` is strictly increasing and holds exactly the input values. |
| `Search.CheckUsage` | numbers.py:126-130 | The test on line 129 passes exactly when the two operands' leaf counts fit inside the input multiset. Once it passes, `notfull` holds exactly when some input is left unused. |
| `Search.FitsMeansIncluded` | numbers.py:129 | The `all(avail[val] >= used[val] ...)` test is multiset inclusion. |
| `Search.FullMeansEqual` | numbers.py:130 | Given inclusion, the `all(avail[val] == used.get(val, 0) ...)` test is multiset equality. |
| `Search.Accept` | numbers.py:132-138 | A result already in `uniq` changes nothing. A new one joins `uniq`. It is yielded if its value is the target. Otherwise it is appended to the pool if inputs remain, and dropped if not. Nothing but that result is ever appended. The search invariant is preserved. |
| `Search.AcceptAll` | numbers.py:131-138 | Accepting every result of `make` adds exactly those results to `uniq`. Every entry it appends to the pool is one of them. The pool and the yielded sequence only grow, and the search invariant is preserved. |
| `Search.CombinePair` | numbers.py:124-138 | Combining pool entries `a < b` preserves the search invariant and only extends the pool and the yield sequence. If the leaves fit, every result of `make` ends up in `uniq`. Nothing else joins `uniq`, and every appended pool entry is a result of `make` over the two. |
| `Search.Wave` | numbers.py:122-138 | Processing one `combs` generator combines each of its pairs once, appending them to the record of combined pairs. It keeps every pair combined earlier combined. Every pool entry it appends was made by `make` from one of the generator's pairs. |
| `Search.Seed` | numbers.py:112-119 | The pool starts with one leaf per distinct input value, in ascending order, so it has as many entries as there are distinct inputs. The leaf equal to the target, if any, is the one expression yielded. |
| `Search.NextWave` | numbers.py:122-142 | One turn of the outer loop combines every pair of the current generator and then appends `combinations_slice(n, m)` for the entries it added. The pairs below the old pool size are then all combined, and the new generator holds exactly the pairs whose larger index is new. Every entry the turn appended was made from a pair whose larger index lies in the band it combined. |
| `Search.RunWaves` | numbers.py:115-142 | After `waves` turns the pool sizes form a non-decreasing trace from the seed count to the final pool size. The entries each turn appended were made from pairs of the band that turn combined. Every pair below the size before the last turn was combined, exactly once. The pool and the yield sequence only grew, and the search invariant holds. |
| `Search.YieldTracedStep` | numbers.py:132-142 | After a turn, the trace of the yield sequence's length, extended by its new length, still holds. The expressions the turn yielded were made from the band of pairs it combined. |
| `Search.YieldedBelow` | numbers.py:122-135 | Every expression yielded after the seeding was made by `make` from a pair of pool indices below the size before the last turn, that is, from a pair the search combined. |
| `Search.PoolShape` | numbers.py:114-136 | The pool is the ascending seed leaves followed only by binary nodes: line 136 never appends a leaf. |
| `Search.TracedStep` | numbers.py:139-142 | After a turn, the trace extended by the new pool length, `m = len(exprs)`, still holds. The entries just appended lie in the new band and were made from the band the turn combined. |
| `Search.Solutions` | numbers.py:111-142 | Every yielded expression has the target value, is well formed, and uses each value at most as often as the input holds it. Nothing is yielded twice. The leaf `target` is yielded exactly when the target is an input. The pool holds no repeats. It starts with the ascending leaves, one per distinct input, and every entry after them is a binary node. No appended entry is a solution, and none uses the whole multiset. The ghost trace `sizes` splits the appended entries into turns, and each turn's entries were made by `make` from pairs whose larger index lies in the band that turn combined. The ghost trace `hits` splits the yield sequence the same way. The target leaf comes first when the target is an input. After it come the expressions each turn yielded, in turn order, each made by `make` from a pair of the band that turn combined. Every pair of pool indices below the size before the last turn was combined exactly once. For each such pair whose leaves fit, every result of `make` was yielded if it hits the target, and kept in the pool if it leaves inputs unused. |
| `Search.Solution` | numbers.py:248-252 | `solution` returns the head of a yield sequence that carries everything `Solutions` promises. When the target is an input it returns that leaf. Otherwise it returns one of the expressions yielded by the earliest turn that yielded anything, made by `make` from a pair of the band that turn combined. Within the `waves` turns modelled, it returns `None` only when nothing was yielded. |
| `Expressions.Value` | numbers.py:43 | The cached `value` of each node: sum, difference, product and floor quotient of the operands' values, and a leaf's own number (lines 54, 67, 78, 89). |
| `Expressions.Defined` | numbers.py:78 | A tree can be built only when no `Div` node has a divisor of value zero: `//` raises `ZeroDivisionError` otherwise. |
| `Expressions.Equal` | numbers.py:32-36 | `BinExpr.__eq__` compares the class and both operands; `Val.__eq__` (lines 103-107) compares the class and the value. |
| `Operators.SubPart` | numbers.py:234-238 | At most one `Sub`, present exactly when the values differ. It is the larger value minus the smaller, over the two operands, with a positive value. |
| `Operators.DivPart` | numbers.py:240-244 | One `Div(x, y)` exactly when `y`'s value divides `x`'s, and nothing otherwise. |
| `Operators.MakeLayout` | numbers.py:231-246 | The list has length two plus one per appended `Sub` and `Div`. `Div(a, b)` sits right after the optional `Sub` and `Div(b, a)` is last. For two different operands no result occurs twice. |
| `Sequences.IncreasingCardinality` | numbers.py:114 | A strictly increasing sequence has as many elements as distinct values, so the seed pool has one leaf per distinct input. |

## Left out

- `main` (numbers.py:254-274) parses the command line, sorts the input, checks positivity and prints. It is I/O. Only its positivity check on the numbers is kept, as the precondition of `Solutions`.
- Rendering (`__str__`, `str_under`, `precedence`) is display only.
- The string-based `Expr.__hash__` and `__cmp__` (numbers.py:12-16) are never used by the core: both subclasses override `__hash__`, and `__cmp__` serves only ordering and `!=` (neither class defines `__ne__`), neither of which the search applies to expressions. Set membership on line 132 uses the `__hash__` and `__eq__` of `BinExpr` and `Val`, and Dafny's datatype equality replaces them.
- Termination of `solutions`: once the pool stops growing, the source keeps appending empty slices forever. `Solutions` runs a given number `waves` of generators and proves nothing about termination.
- Generator laziness: each generator is modelled as the sequence it yields. The pairs each enumerator yields depend only on its arguments, which are fixed when it is created.
- The set `uniq` starts in the source with the input integers, which never equal an expression. The model starts it empty and holds only expressions.
- `Expressions.Used`: the source updates a dictionary in place. The model passes a multiset in and returns the updated one.
- The cached `value` attribute is computed by the function `Value` rather than stored in each node.
- `Operators.Make`: an operand of value zero makes the source raise `ZeroDivisionError`. This is a precondition (nonzero values) rather than an error result. It cannot happen in the search, whose values are all positive.
- `Pairs.Combinations`: the generator never ends. The model returns the pairs of its first `sums` outer-loop turns.
- `Search.Solutions`: completeness is proved per combined pair. Every result of `make` over every pair that the finished turns combined is settled, and the traces tie each appended entry and each yielded expression to the band of pairs it came from. It is not proved that every solution reachable in any number of steps is yielded, given enough waves. Nor is it proved that the search stops growing.
- `Search.Solution`: the order in which one turn yields its expressions is not pinned. The contract fixes which turn each yielded expression comes from and that earlier turns come first. It does not fix the order within a turn, so `Solution` is proved to return a solution of the earliest productive turn, not which of them the source returns first.
- `Search.Solution`: in the source `solution` never returns `None`. The loop over `combs` never ends, because every turn appends one more generator (numbers.py:141). So the `next()` call on line 250 either returns the first yield or runs forever, and the `StopIteration` branch (lines 251-252) is unreachable. In the model `None` means that nothing was yielded within `waves` turns, where the source would not return at all.
