/**
 * `solutions(target, numbers)` of numbers.py: the worklist search.  The pool
 * (`exprs` in the source) starts with one leaf per distinct input value; each
 * wave combines the pairs of pool indices whose larger index is new since the
 * previous wave, keeps the combinations whose leaves fit inside the input
 * multiset, accepts each one not seen before into `uniq`, yields those whose
 * value is the target and appends the others to the pool unless they use the
 * whole multiset.
 */
module Search {
  import opened Sequences
  import opened Expressions
  import opened Operators
  import opened Pairs

  /** A yielded expression: well formed, of the target value, its leaves inside the input multiset. */
  ghost predicate IsSolution(target: int, avail: multiset<int>, e: Expr)
  {
    Wf(e) && Value(e) == target && Leaves(e) <= avail
  }

  /** A node built by the search never has one expression as both operands. */
  predicate DistinctOperands(e: Expr)
  {
    !e.Val? ==> e.left != e.right
  }

  /**
   * What the search has done with an expression it accepted into `uniq`: if it
   * hits the target it was yielded, and if it does not but leaves some input
   * unused it joined the pool.
   */
  ghost predicate Settled(target: int, avail: multiset<int>, e: Expr, pool: seq<Expr>, found: seq<Expr>)
  {
    Defined(e) &&
    (Value(e) == target ==> e in found) &&
    (Value(e) != target && Leaves(e) != avail ==> e in pool)
  }

  ghost predicate PoolOk(target: int, avail: multiset<int>, pool: seq<Expr>)
  {
    (forall i :: 0 <= i < |pool| ==>
      Wf(pool[i]) && Leaves(pool[i]) <= avail && DistinctOperands(pool[i]) &&
      (!pool[i].Val? ==> Value(pool[i]) != target && Leaves(pool[i]) != avail)) &&
    NoDuplicates(pool)
  }

  ghost predicate FoundOk(target: int, avail: multiset<int>, found: seq<Expr>)
  {
    (forall k :: 0 <= k < |found| ==>
      IsSolution(target, avail, found[k]) && DistinctOperands(found[k]) && (found[k].Val? ==> k == 0)) &&
    NoDuplicates(found)
  }

  /** The state the search keeps between two steps. */
  ghost predicate SearchInv(target: int, avail: multiset<int>, pool: seq<Expr>, uniq: set<Expr>, found: seq<Expr>)
  {
    PoolOk(target, avail, pool) &&
    FoundOk(target, avail, found) &&
    (forall i :: 0 <= i < |pool| && !pool[i].Val? ==> pool[i] in uniq) &&
    (forall k :: 0 <= k < |found| && !found[k].Val? ==> found[k] in uniq) &&
    (forall e :: e in uniq ==> Settled(target, avail, e, pool, found))
  }

  /**
   * The pair `p` of pool indices has been combined: unless their leaves
   * together did not fit, every expression `make` builds from the two was
   * accepted into `uniq`.
   */
  ghost predicate Combined(avail: multiset<int>, pool: seq<Expr>, uniq: set<Expr>, p: Pair)
  {
    p.0 < |pool| && p.1 < |pool| && Wf(pool[p.0]) && Wf(pool[p.1]) &&
    (Leaves(pool[p.0]) + Leaves(pool[p.1]) <= avail ==>
      forall e :: e in Make(pool[p.0], pool[p.1]) ==> e in uniq)
  }

  /** Pool entry `k` is one of the results of `make` over the pool entries of the pair `p`. */
  ghost predicate FromPair(pool: seq<Expr>, k: nat, p: Pair)
  {
    k < |pool| && p.0 < p.1 < |pool| && Wf(pool[p.0]) && Wf(pool[p.1]) &&
    pool[k] in Make(pool[p.0], pool[p.1])
  }

  /** Pool entry `k` was made from one of the pairs of `comb`. */
  ghost predicate GrownIn(pool: seq<Expr>, k: nat, comb: seq<Pair>)
  {
    exists p: Pair :: p in comb && FromPair(pool, k, p)
  }

  /** Pool entry `k` was made from a pair whose larger index lies in `[lo, hi)`. */
  ghost predicate Grown(pool: seq<Expr>, k: nat, lo: nat, hi: nat)
  {
    exists p: Pair :: lo <= p.1 < hi && FromPair(pool, k, p)
  }

  /** Where turn `c` of the outer loop starts taking the larger index of its pairs. */
  function Lo(sizes: seq<nat>, c: nat): nat
    requires c < |sizes|
  {
    if c == 0 then 0 else sizes[c - 1]
  }

  /**
   * `sizes` is the trace of the pool's length, turn by turn: the entries that
   * turn `c` appended, `[sizes[c], sizes[c + 1])`, were all made from pairs
   * whose larger index lies in the band that turn combined, `[Lo(sizes, c), sizes[c])`.
   */
  ghost predicate Traced(pool: seq<Expr>, sizes: seq<nat>)
  {
    forall c, k :: 0 <= c < |sizes| - 1 && sizes[c] <= k < sizes[c + 1] ==> Grown(pool, k, Lo(sizes, c), sizes[c])
  }

  /** Yielded expression `k` is one of the results of `make` over the pool entries of the pair `p`. */
  ghost predicate YieldedFrom(pool: seq<Expr>, found: seq<Expr>, k: nat, p: Pair)
  {
    k < |found| && p.0 < p.1 < |pool| && Wf(pool[p.0]) && Wf(pool[p.1]) &&
    found[k] in Make(pool[p.0], pool[p.1])
  }

  /** Yielded expression `k` was made from one of the pairs of `comb`. */
  ghost predicate YieldedIn(pool: seq<Expr>, found: seq<Expr>, k: nat, comb: seq<Pair>)
  {
    exists p: Pair :: p in comb && YieldedFrom(pool, found, k, p)
  }

  /** Yielded expression `k` was made from a pair whose larger index lies in `[lo, hi)`. */
  ghost predicate YieldedGrown(pool: seq<Expr>, found: seq<Expr>, k: nat, lo: nat, hi: nat)
  {
    exists p: Pair :: lo <= p.1 < hi && YieldedFrom(pool, found, k, p)
  }

  /**
   * `hits` is the trace of the yield sequence's length, turn by turn, beside
   * the trace `sizes` of the pool's: the expressions that turn `c` yielded,
   * `[hits[c], hits[c + 1])`, were all made from pairs whose larger index
   * lies in the band that turn combined, `[Lo(sizes, c), sizes[c])`.
   */
  ghost predicate YieldTraced(pool: seq<Expr>, found: seq<Expr>, sizes: seq<nat>, hits: seq<nat>)
  {
    |hits| == |sizes| &&
    forall c, k :: 0 <= c < |hits| - 1 && hits[c] <= k < hits[c + 1] ==>
      YieldedGrown(pool, found, k, Lo(sizes, c), sizes[c])
  }

  /** Growing the pool and the yield sequence at their ends keeps what each yielded expression was made from. */
  lemma YieldedGrownPersists(pool: seq<Expr>, found: seq<Expr>, pool': seq<Expr>, found': seq<Expr>,
                             k: nat, lo: nat, hi: nat)
    requires pool <= pool' && found <= found' && YieldedGrown(pool, found, k, lo, hi)
    ensures YieldedGrown(pool', found', k, lo, hi)
  {
    var p: Pair :| lo <= p.1 < hi && YieldedFrom(pool, found, k, p);
    assert found'[k] == found[k] && pool'[p.0] == pool[p.0] && pool'[p.1] == pool[p.1];
    assert YieldedFrom(pool', found', k, p);
  }

  /** Growing the pool at its end keeps what each entry was made from. */
  lemma GrownPersists(pool: seq<Expr>, pool': seq<Expr>, k: nat, lo: nat, hi: nat)
    requires pool <= pool' && Grown(pool, k, lo, hi)
    ensures Grown(pool', k, lo, hi)
  {
    var p: Pair :| lo <= p.1 < hi && FromPair(pool, k, p);
    assert pool'[k] == pool[k] && pool'[p.0] == pool[p.0] && pool'[p.1] == pool[p.1];
    assert FromPair(pool', k, p);
  }

  /** Growing the pool at its end and `uniq` keeps every pair combined. */
  lemma CombinedPersists(avail: multiset<int>, pool: seq<Expr>, uniq: set<Expr>, pool': seq<Expr>, uniq': set<Expr>)
    requires pool <= pool' && uniq <= uniq'
    ensures forall p: Pair :: Combined(avail, pool, uniq, p) ==> Combined(avail, pool', uniq', p)
  {
    forall p: Pair | Combined(avail, pool, uniq, p) ensures Combined(avail, pool', uniq', p) {
      assert pool'[p.0] == pool[p.0] && pool'[p.1] == pool[p.1];
    }
  }

  lemma PrefixMembers<T>(s: seq<T>, t: seq<T>)
    requires s <= t
    ensures forall x :: x in s ==> x in t
  {
    forall x | x in s ensures x in t {
      var i :| 0 <= i < |s| && s[i] == x;
      assert t[i] == x;
    }
  }

  /**
   * Lines 132-138 for one result `e` of `make`: if it is not yet in `uniq` it
   * is accepted, yielded when its value is the target, and appended to the
   * pool when it is not and the pair it came from leaves some input unused.
   */
  method Accept(target: int, avail: multiset<int>, notFull: bool, e: Expr,
                pool: seq<Expr>, uniq: set<Expr>, found: seq<Expr>)
    returns (pool': seq<Expr>, uniq': set<Expr>, found': seq<Expr>)
    requires SearchInv(target, avail, pool, uniq, found)
    requires Wf(e) && !e.Val? && DistinctOperands(e) && Leaves(e) <= avail
    requires notFull == (Leaves(e) != avail)
    ensures SearchInv(target, avail, pool', uniq', found')
    ensures pool <= pool' && found <= found'
    ensures uniq' == uniq + {e}
    ensures e in uniq ==> pool' == pool && found' == found
    ensures e !in uniq && Value(e) == target ==> pool' == pool && found' == found + [e]
    ensures e !in uniq && Value(e) != target && notFull ==> pool' == pool + [e] && found' == found
    ensures e !in uniq && Value(e) != target && !notFull ==> pool' == pool && found' == found
    ensures forall k :: |pool| <= k < |pool'| ==> pool'[k] == e
    ensures forall k :: |found| <= k < |found'| ==> found'[k] == e
  {
    pool', uniq', found' := pool, uniq, found;
    if e !in uniq {
      uniq' := uniq + {e};
      var isSolution := Value(e) == target;
      if notFull && !isSolution {
        pool' := pool + [e];
        AcceptIntoPool(target, avail, pool, uniq, found, e);
      }
      if isSolution {
        found' := found + [e];
        AcceptSolution(target, avail, pool, uniq, found, e);
      }
      if !notFull && !isSolution {
        AcceptFull(target, avail, pool, uniq, found, e);
      }
    }
  }

  /** A new expression is neither a leaf nor a binary node already in the pool or yielded. */
  lemma NewIsFresh(target: int, avail: multiset<int>, pool: seq<Expr>, uniq: set<Expr>, found: seq<Expr>, e: Expr)
    requires SearchInv(target, avail, pool, uniq, found)
    requires !e.Val? && e !in uniq
    ensures e !in pool && e !in found
  {
    forall i | 0 <= i < |pool| ensures pool[i] != e {
      if !pool[i].Val? {
        assert pool[i] in uniq;
      }
    }
    forall k | 0 <= k < |found| ensures found[k] != e {
      if !found[k].Val? {
        assert found[k] in uniq;
      }
    }
  }

  lemma AcceptIntoPool(target: int, avail: multiset<int>, pool: seq<Expr>, uniq: set<Expr>, found: seq<Expr>, e: Expr)
    requires SearchInv(target, avail, pool, uniq, found)
    requires Wf(e) && !e.Val? && DistinctOperands(e) && Leaves(e) <= avail && e !in uniq
    requires Value(e) != target && Leaves(e) != avail
    ensures SearchInv(target, avail, pool + [e], uniq + {e}, found)
  {
    NewIsFresh(target, avail, pool, uniq, found, e);
    var pool' := pool + [e];
    assert PoolOk(target, avail, pool') by {
      forall i, j | 0 <= i < j < |pool'| ensures pool'[i] != pool'[j] {
        if j == |pool| {
          assert pool'[i] in pool;
        }
      }
    }
    forall i | 0 <= i < |pool'| && !pool'[i].Val? ensures pool'[i] in uniq + {e} {
      if i < |pool| {
        assert pool'[i] == pool[i];
      }
    }
    forall x | x in uniq + {e} ensures Settled(target, avail, x, pool', found) {
      if x in uniq {
        assert Settled(target, avail, x, pool, found);
      }
    }
  }

  lemma AcceptSolution(target: int, avail: multiset<int>, pool: seq<Expr>, uniq: set<Expr>, found: seq<Expr>, e: Expr)
    requires SearchInv(target, avail, pool, uniq, found)
    requires Wf(e) && !e.Val? && DistinctOperands(e) && Leaves(e) <= avail && e !in uniq
    requires Value(e) == target
    ensures SearchInv(target, avail, pool, uniq + {e}, found + [e])
  {
    NewIsFresh(target, avail, pool, uniq, found, e);
    var found' := found + [e];
    assert FoundOk(target, avail, found') by {
      forall i, j | 0 <= i < j < |found'| ensures found'[i] != found'[j] {
        if j == |found| {
          assert found'[i] in found;
        }
      }
    }
    forall k | 0 <= k < |found'| && !found'[k].Val? ensures found'[k] in uniq + {e} {
      if k < |found| {
        assert found'[k] == found[k];
      }
    }
    forall x | x in uniq + {e} ensures Settled(target, avail, x, pool, found') {
      if x in uniq {
        assert Settled(target, avail, x, pool, found);
      }
    }
  }

  lemma AcceptFull(target: int, avail: multiset<int>, pool: seq<Expr>, uniq: set<Expr>, found: seq<Expr>, e: Expr)
    requires SearchInv(target, avail, pool, uniq, found)
    requires Wf(e) && e !in uniq
    requires Value(e) != target && Leaves(e) == avail
    ensures SearchInv(target, avail, pool, uniq + {e}, found)
  {
  }

  /** Line 131: accept the results of `make` one after the other. */
  method AcceptAll(target: int, avail: multiset<int>, notFull: bool, made: seq<Expr>,
                   pool: seq<Expr>, uniq: set<Expr>, found: seq<Expr>)
    returns (pool': seq<Expr>, uniq': set<Expr>, found': seq<Expr>)
    requires SearchInv(target, avail, pool, uniq, found)
    requires forall e :: e in made ==>
      Wf(e) && !e.Val? && DistinctOperands(e) && Leaves(e) <= avail && notFull == (Leaves(e) != avail)
    ensures SearchInv(target, avail, pool', uniq', found')
    ensures pool <= pool' && found <= found'
    ensures uniq' == uniq + set e | e in made
    ensures forall k :: |pool| <= k < |pool'| ==> pool'[k] in made
    ensures forall k :: |found| <= k < |found'| ==> found'[k] in made
  {
    pool', uniq', found' := pool, uniq, found;
    for t := 0 to |made|
      invariant SearchInv(target, avail, pool', uniq', found')
      invariant pool <= pool' && found <= found'
      invariant uniq' == uniq + set e | e in made[..t]
      invariant forall k :: |pool| <= k < |pool'| ==> pool'[k] in made
      invariant forall k :: |found| <= k < |found'| ==> found'[k] in made
    {
      assert made[t] in made;
      assert made[..t + 1] == made[..t] + [made[t]];
      pool', uniq', found' := Accept(target, avail, notFull, made[t], pool', uniq', found');
    }
    assert made[..|made|] == made;
  }

  /**
   * Lines 124-138: combine the pool entries at `ia` and `ib`.  The counts of
   * their leaf values are gathered with `used`; if they fit inside `avail`,
   * every result of `make` not yet in `uniq` is accepted, yielded when it hits
   * the target, and appended to the pool when it does not and the pair
   * leaves some input unused.
   */
  method CombinePair(target: int, avail: multiset<int>, ia: nat, ib: nat,
                     pool: seq<Expr>, uniq: set<Expr>, found: seq<Expr>)
    returns (pool': seq<Expr>, uniq': set<Expr>, found': seq<Expr>)
    requires SearchInv(target, avail, pool, uniq, found)
    requires ia < ib < |pool|
    ensures SearchInv(target, avail, pool', uniq', found')
    ensures pool <= pool' && found <= found' && uniq <= uniq'
    ensures Combined(avail, pool', uniq', (ia, ib))
    ensures forall e :: e in uniq' - uniq ==> e in Make(pool[ia], pool[ib])
    ensures forall k :: |pool| <= k < |pool'| ==> pool'[k] in Make(pool[ia], pool[ib])
    ensures forall k :: |found| <= k < |found'| ==> found'[k] in Make(pool[ia], pool[ib])
  {
    pool', uniq', found' := pool, uniq, found;
    var a, b := pool[ia], pool[ib];
    var fits, notFull := CheckUsage(a, b, avail);
    if fits {
      var made := Make(a, b);
      MadeAcceptable(target, avail, pool, uniq, found, ia, ib, notFull);
      pool', uniq', found' := AcceptAll(target, avail, notFull, made, pool, uniq, found);
    }
    assert pool'[ia] == a && pool'[ib] == b;
  }

  /** The results of combining two distinct pool entries whose leaves fit may be accepted. */
  lemma MadeAcceptable(target: int, avail: multiset<int>, pool: seq<Expr>, uniq: set<Expr>, found: seq<Expr>,
                       ia: nat, ib: nat, notFull: bool)
    requires SearchInv(target, avail, pool, uniq, found)
    requires ia < ib < |pool|
    requires Leaves(pool[ia]) + Leaves(pool[ib]) <= avail
    requires notFull == (Leaves(pool[ia]) + Leaves(pool[ib]) != avail)
    ensures forall e :: e in Make(pool[ia], pool[ib]) ==>
      Wf(e) && !e.Val? && DistinctOperands(e) && Leaves(e) <= avail && notFull == (Leaves(e) != avail)
  {
    var a, b := pool[ia], pool[ib];
    assert a != b;
    MakeWf(a, b);
  }

  /**
   * Lines 126-130: count the leaf values of both operands with `used`, then
   * test that no count exceeds the input's and whether some input is left
   * unused.  Every counted value occurs in the input, so the lookups
   * `avail[val]` never fail.
   */
  method CheckUsage(a: Expr, b: Expr, avail: multiset<int>) returns (fits: bool, notFull: bool)
    requires Leaves(a) <= avail && Leaves(b) <= avail
    ensures fits <==> Leaves(a) + Leaves(b) <= avail
    ensures fits ==> (notFull <==> Leaves(a) + Leaves(b) != avail)
  {
    var used := Used(a, multiset{});
    used := Used(b, used);
    assert forall v :: v in used ==> v in avail;
    fits := forall v :: v in used ==> avail[v] >= used[v];
    FitsMeansIncluded(used, avail);
    notFull := false;
    if fits {
      notFull := !(forall v :: v in avail ==> avail[v] == used[v]);
      FullMeansEqual(used, avail);
    }
  }

  /** The test of line 129 is multiset inclusion. */
  lemma FitsMeansIncluded(used: multiset<int>, avail: multiset<int>)
    ensures (forall v :: v in used ==> avail[v] >= used[v]) <==> used <= avail
  {
    if forall v :: v in used ==> avail[v] >= used[v] {
      forall v ensures used[v] <= avail[v] {
        if v !in used {
          assert used[v] == 0;
        }
      }
    }
  }

  /** Given inclusion, the test of line 130 is multiset equality. */
  lemma FullMeansEqual(used: multiset<int>, avail: multiset<int>)
    requires used <= avail
    ensures (forall v :: v in avail ==> avail[v] == used[v]) <==> used == avail
  {
    if forall v :: v in avail ==> avail[v] == used[v] {
      forall v ensures used[v] == avail[v] {
        if v !in avail {
          assert avail[v] == 0;
        }
      }
    }
  }

  /** Lines 123-138 for one generator of `combs`: combine each of its pairs in turn. */
  method Wave(target: int, avail: multiset<int>, comb: seq<Pair>,
              pool: seq<Expr>, uniq: set<Expr>, found: seq<Expr>, ghost combined: seq<Pair>)
    returns (pool': seq<Expr>, uniq': set<Expr>, found': seq<Expr>, ghost combined': seq<Pair>)
    requires SearchInv(target, avail, pool, uniq, found)
    requires forall p: Pair :: p in comb ==> p.0 < p.1 < |pool|
    requires forall p: Pair :: p in combined ==> Combined(avail, pool, uniq, p)
    ensures SearchInv(target, avail, pool', uniq', found')
    ensures pool <= pool' && found <= found' && uniq <= uniq'
    ensures combined' == combined + comb
    ensures forall p: Pair :: p in combined' ==> Combined(avail, pool', uniq', p)
    ensures forall k :: |pool| <= k < |pool'| ==> GrownIn(pool', k, comb)
    ensures forall k :: |found| <= k < |found'| ==> YieldedIn(pool', found', k, comb)
  {
    pool', uniq', found', combined' := pool, uniq, found, combined;
    for k := 0 to |comb|
      invariant SearchInv(target, avail, pool', uniq', found')
      invariant pool <= pool' && found <= found' && uniq <= uniq'
      invariant combined' == combined + comb[..k]
      invariant forall p: Pair :: p in combined' ==> Combined(avail, pool', uniq', p)
      invariant forall j :: |pool| <= j < |pool'| ==> GrownIn(pool', j, comb)
      invariant forall j :: |found| <= j < |found'| ==> YieldedIn(pool', found', j, comb)
    {
      var (ia, ib) := comb[k];
      assert comb[k] in comb;
      ghost var pool0, uniq0, found0 := pool', uniq', found';
      pool', uniq', found' := CombinePair(target, avail, ia, ib, pool', uniq', found');
      CombinedPersists(avail, pool0, uniq0, pool', uniq');
      FromPairStep(pool, pool0, pool', comb, comb[k]);
      YieldStep(found, pool0, found0, pool', found', comb, comb[k]);
      assert comb[..k + 1] == comb[..k] + [comb[k]];
      combined' := combined' + [comb[k]];
    }
    assert comb[..|comb|] == comb;
  }

  /**
   * One combined pair `p` of `comb` extends the pool: the old new entries keep
   * their pairs, the entries it appended were made from `p`.
   */
  lemma FromPairStep(pool: seq<Expr>, pool0: seq<Expr>, pool1: seq<Expr>, comb: seq<Pair>, p: Pair)
    requires pool <= pool0 <= pool1 && p in comb
    requires p.0 < p.1 < |pool0| && Wf(pool0[p.0]) && Wf(pool0[p.1])
    requires forall j :: |pool| <= j < |pool0| ==> GrownIn(pool0, j, comb)
    requires forall j :: |pool0| <= j < |pool1| ==> pool1[j] in Make(pool0[p.0], pool0[p.1])
    ensures forall j :: |pool| <= j < |pool1| ==> GrownIn(pool1, j, comb)
  {
    forall j | |pool| <= j < |pool1| ensures GrownIn(pool1, j, comb) {
      if j < |pool0| {
        GrownInPersists(pool0, pool1, j, comb);
      } else {
        NewFromPair(pool0, pool1, j, p);
      }
    }
  }

  /**
   * One combined pair `p` of `comb` extends the yield sequence: the expressions
   * yielded earlier in the wave keep their pairs, the ones it yielded were made from `p`.
   */
  lemma YieldStep(found: seq<Expr>, pool0: seq<Expr>, found0: seq<Expr>, pool1: seq<Expr>, found1: seq<Expr>,
                  comb: seq<Pair>, p: Pair)
    requires found <= found0 <= found1 && pool0 <= pool1 && p in comb
    requires p.0 < p.1 < |pool0| && Wf(pool0[p.0]) && Wf(pool0[p.1])
    requires forall j :: |found| <= j < |found0| ==> YieldedIn(pool0, found0, j, comb)
    requires forall j :: |found0| <= j < |found1| ==> found1[j] in Make(pool0[p.0], pool0[p.1])
    ensures forall j :: |found| <= j < |found1| ==> YieldedIn(pool1, found1, j, comb)
  {
    forall j | |found| <= j < |found1| ensures YieldedIn(pool1, found1, j, comb) {
      if j < |found0| {
        assert YieldedIn(pool0, found0, j, comb);
        var q: Pair :| q in comb && YieldedFrom(pool0, found0, j, q);
        assert found1[j] == found0[j] && pool1[q.0] == pool0[q.0] && pool1[q.1] == pool0[q.1];
        assert YieldedFrom(pool1, found1, j, q);
      } else {
        assert pool1[p.0] == pool0[p.0] && pool1[p.1] == pool0[p.1];
        assert YieldedFrom(pool1, found1, j, p);
      }
    }
  }

  lemma GrownInPersists(pool: seq<Expr>, pool': seq<Expr>, k: nat, comb: seq<Pair>)
    requires pool <= pool' && GrownIn(pool, k, comb)
    ensures GrownIn(pool', k, comb)
  {
    var q: Pair :| q in comb && FromPair(pool, k, q);
    assert pool'[k] == pool[k] && pool'[q.0] == pool[q.0] && pool'[q.1] == pool[q.1];
    assert FromPair(pool', k, q);
  }

  lemma NewFromPair(pool: seq<Expr>, pool': seq<Expr>, k: nat, p: Pair)
    requires pool <= pool' && |pool| <= k < |pool'|
    requires p.0 < p.1 < |pool| && Wf(pool[p.0]) && Wf(pool[p.1])
    requires pool'[k] in Make(pool[p.0], pool[p.1])
    ensures FromPair(pool', k, p)
  {
    assert pool'[p.0] == pool[p.0] && pool'[p.1] == pool[p.1];
  }

  lemma NoDuplicatesAppend<T>(s: seq<T>, t: seq<T>)
    requires NoDuplicates(s) && NoDuplicates(t)
    requires forall x :: x in s ==> x !in t
    ensures NoDuplicates(s + t)
  {
    forall i, j | 0 <= i < j < |s + t| ensures (s + t)[i] != (s + t)[j] {
      if i < |s| && |s| <= j {
        assert (s + t)[i] in s && (s + t)[j] in t;
      }
    }
  }

  /**
   * Lines 112-119: one leaf per distinct input value, in ascending order, and
   * the leaf equal to the target, if there is one, yielded first.
   */
  method Seed(target: int, numbers: seq<int>) returns (pool: seq<Expr>, found: seq<Expr>)
    requires forall k :: 0 <= k < |numbers| ==> numbers[k] > 0
    ensures SearchInv(target, multiset(numbers), pool, {}, found)
    ensures |pool| == |set v | v in numbers|
    ensures forall k :: 0 <= k < |pool| ==> pool[k].Val?
    ensures forall i, j :: 0 <= i < j < |pool| ==> pool[i].n < pool[j].n
    ensures forall v :: v in numbers ==> Val(v) in pool
    ensures found == if target in numbers then [Val(target)] else []
  {
    var values := SortedDistinct(numbers);
    pool := seq(|values|, i requires 0 <= i < |values| => Val(values[i]));
    found := [];
    for k := 0 to |pool|
      invariant found == if target in values[..k] then [Val(target)] else []
    {
      assert values[..k + 1] == values[..k] + [values[k]];
      if Value(pool[k]) == target {
        found := found + [pool[k]];
      }
    }
    assert values[..|pool|] == values;
    SeedInv(target, numbers, values, pool, found);
    IncreasingCardinality(values);
    assert (set v | v in values) == (set v | v in numbers);
  }

  lemma SeedInv(target: int, numbers: seq<int>, values: seq<int>, pool: seq<Expr>, found: seq<Expr>)
    requires forall k :: 0 <= k < |numbers| ==> numbers[k] > 0
    requires StrictlyIncreasing(values) && forall y :: y in values <==> y in numbers
    requires |pool| == |values| && forall i :: 0 <= i < |pool| ==> pool[i] == Val(values[i])
    requires found == if target in values then [Val(target)] else []
    ensures SearchInv(target, multiset(numbers), pool, {}, found)
    ensures forall v :: v in numbers ==> Val(v) in pool
  {
    forall i | 0 <= i < |pool| ensures Wf(pool[i]) && Leaves(pool[i]) <= multiset(numbers) {
      assert values[i] in numbers;
    }
    forall v | v in numbers ensures Val(v) in pool {
      var i :| 0 <= i < |values| && values[i] == v;
      assert pool[i] == Val(v);
    }
  }

  /**
   * The state at the start of a turn of the outer loop: the pairs below
   * `bound` have been combined, the pool has `n` entries, and `comb` is the
   * generator of the pairs whose larger index lies in `[bound, n)`.
   */
  ghost predicate WaveReady(target: int, avail: multiset<int>, pool: seq<Expr>, uniq: set<Expr>, found: seq<Expr>,
                            combined: seq<Pair>, bound: nat, n: nat, comb: seq<Pair>)
  {
    SearchInv(target, avail, pool, uniq, found) &&
    bound <= n == |pool| &&
    (forall p: Pair :: p in comb <==> InSlice(bound, n, p)) && NoDuplicates(comb) &&
    (forall p: Pair :: p in combined <==> InSlice(0, bound, p)) && NoDuplicates(combined) &&
    (forall p: Pair :: p in combined ==> Combined(avail, pool, uniq, p))
  }

  /**
   * Lines 122-142 for one generator: combine its pairs, then append
   * `combinations_slice(n, m)` for the entries the wave added.
   */
  method NextWave(target: int, avail: multiset<int>, pool: seq<Expr>, uniq: set<Expr>, found: seq<Expr>,
                  ghost combined: seq<Pair>, ghost bound: nat, n: nat, comb: seq<Pair>)
    returns (pool': seq<Expr>, uniq': set<Expr>, found': seq<Expr>, ghost combined': seq<Pair>, next: seq<Pair>)
    requires WaveReady(target, avail, pool, uniq, found, combined, bound, n, comb)
    ensures WaveReady(target, avail, pool', uniq', found', combined', n, |pool'|, next)
    ensures pool <= pool' && found <= found'
    ensures forall k :: n <= k < |pool'| ==> Grown(pool', k, bound, n)
    ensures forall k :: |found| <= k < |found'| ==> YieldedGrown(pool', found', k, bound, n)
  {
    NoDuplicatesAppend(combined, comb);
    pool', uniq', found', combined' := Wave(target, avail, comb, pool, uniq, found, combined);
    next := CombinationsSlice(n, |pool'|);
    forall k | n <= k < |pool'| ensures Grown(pool', k, bound, n) {
      assert GrownIn(pool', k, comb);
      var p: Pair :| p in comb && FromPair(pool', k, p);
      assert InSlice(bound, n, p);
    }
    forall k | |found| <= k < |found'| ensures YieldedGrown(pool', found', k, bound, n) {
      assert YieldedIn(pool', found', k, comb);
      var p: Pair :| p in comb && YieldedFrom(pool', found', k, p);
      assert InSlice(bound, n, p);
    }
  }

  /** The trace grows by the pool's new length, the band of the turn just run. */
  lemma TracedStep(pool: seq<Expr>, pool': seq<Expr>, sizes: seq<nat>, bound: nat)
    requires Traced(pool, sizes) && pool <= pool'
    requires |sizes| >= 1 && sizes[|sizes| - 1] == |pool| && bound == Lo(sizes, |sizes| - 1)
    requires forall i, j :: 0 <= i <= j < |sizes| ==> sizes[i] <= sizes[j]
    requires forall k :: |pool| <= k < |pool'| ==> Grown(pool', k, bound, |pool|)
    ensures Traced(pool', sizes + [|pool'|])
  {
    var sizes' := sizes + [|pool'|];
    forall c, k | 0 <= c < |sizes'| - 1 && sizes'[c] <= k < sizes'[c + 1]
      ensures Grown(pool', k, Lo(sizes', c), sizes'[c])
    {
      assert Lo(sizes', c) == Lo(sizes, c) && sizes'[c] == sizes[c];
      if c < |sizes| - 1 {
        assert sizes'[c + 1] == sizes[c + 1];
        GrownPersists(pool, pool', k, Lo(sizes, c), sizes[c]);
      }
    }
  }

  /** The yield trace grows by the yield sequence's new length, the expressions of the turn just run. */
  lemma YieldTracedStep(pool: seq<Expr>, found: seq<Expr>, pool': seq<Expr>, found': seq<Expr>,
                        sizes: seq<nat>, hits: seq<nat>, bound: nat)
    requires YieldTraced(pool, found, sizes, hits) && pool <= pool' && found <= found'
    requires |hits| >= 1 && hits[|hits| - 1] == |found| && sizes[|sizes| - 1] == |pool| && bound == Lo(sizes, |sizes| - 1)
    requires forall k :: |found| <= k < |found'| ==> YieldedGrown(pool', found', k, bound, |pool|)
    ensures YieldTraced(pool', found', sizes + [|pool'|], hits + [|found'|])
  {
    var sizes', hits' := sizes + [|pool'|], hits + [|found'|];
    forall c, k | 0 <= c < |hits'| - 1 && hits'[c] <= k < hits'[c + 1]
      ensures YieldedGrown(pool', found', k, Lo(sizes', c), sizes'[c])
    {
      assert Lo(sizes', c) == Lo(sizes, c) && sizes'[c] == sizes[c] && hits'[c] == hits[c];
      if c < |hits| - 1 {
        assert hits'[c + 1] == hits[c + 1];
        YieldedGrownPersists(pool, found, pool', found', k, Lo(sizes, c), sizes[c]);
      }
    }
  }

  /**
   * The pool after any number of waves: the seed leaves, in ascending order,
   * then only binary nodes.  A leaf past the seeds would fit inside the input,
   * so it would repeat one of them.
   */
  lemma PoolShape(target: int, numbers: seq<int>, seeds: seq<Expr>, pool: seq<Expr>)
    requires PoolOk(target, multiset(numbers), pool)
    requires seeds <= pool
    requires forall k :: 0 <= k < |seeds| ==> seeds[k].Val?
    requires forall i, j :: 0 <= i < j < |seeds| ==> seeds[i].n < seeds[j].n
    requires forall v :: v in numbers ==> Val(v) in seeds
    ensures forall k :: 0 <= k < |pool| ==> (pool[k].Val? <==> k < |seeds|)
    ensures forall i, j :: 0 <= i < j < |seeds| ==> pool[i].Val? && pool[j].Val? && pool[i].n < pool[j].n
  {
    assert pool[..|seeds|] == seeds;
    forall k | |seeds| <= k < |pool| ensures !pool[k].Val? {
      if pool[k].Val? {
        assert pool[k].n in Leaves(pool[k]);
      }
    }
  }

  /** Everything yielded is a solution, once, and a leaf only in first place. */
  ghost predicate YieldedOk(target: int, numbers: seq<int>, found: seq<Expr>)
  {
    (forall k :: 0 <= k < |found| ==>
      IsSolution(target, multiset(numbers), found[k]) && DistinctOperands(found[k])) &&
    NoDuplicates(found) &&
    (Val(target) in found <==> target in numbers) &&
    (forall k :: 0 <= k < |found| && found[k].Val? ==> k == 0)
  }

  /** The pool: well formed, inside the input, and no appended entry is a solution or uses the whole input. */
  ghost predicate PoolHolds(target: int, numbers: seq<int>, pool: seq<Expr>)
  {
    (forall k :: 0 <= k < |pool| ==>
      Wf(pool[k]) && Leaves(pool[k]) <= multiset(numbers) && DistinctOperands(pool[k]) &&
      (!pool[k].Val? ==> Value(pool[k]) != target && Leaves(pool[k]) != multiset(numbers))) &&
    (forall v :: Val(v) in pool <==> v in numbers) &&
    NoDuplicates(pool)
  }

  /**
   * The trace of the pool's length over `waves` turns: the seed leaves, in
   * ascending order, then the entries each turn appended, made from the pairs
   * of the band that turn combined.
   */
  ghost predicate TraceHolds(numbers: seq<int>, waves: nat, pool: seq<Expr>, sizes: seq<nat>)
  {
    |sizes| == waves + 1 &&
    sizes[0] == |set v | v in numbers| &&
    (forall i, j :: 0 <= i <= j < |sizes| ==> sizes[i] <= sizes[j]) &&
    sizes[waves] == |pool| &&
    (forall k :: 0 <= k < |pool| ==> (pool[k].Val? <==> k < sizes[0])) &&
    (forall i, j :: 0 <= i < j < sizes[0] && j < |pool| ==> pool[i].Val? && pool[j].Val? && pool[i].n < pool[j].n) &&
    Traced(pool, sizes)
  }

  /**
   * The trace of the yield sequence's length over `waves` turns: the target
   * leaf first when the target is an input, then the expressions each turn
   * yielded, made from the pairs of the band that turn combined.  So what an
   * earlier turn yielded precedes what a later one did, and everything past
   * the target leaf was made by `make` from a pair below `bound`.
   */
  ghost predicate YieldHolds(target: int, numbers: seq<int>, waves: nat, pool: seq<Expr>, found: seq<Expr>,
                             bound: nat, sizes: seq<nat>, hits: seq<nat>)
  {
    |hits| == waves + 1 &&
    hits[0] == (if target in numbers then 1 else 0) &&
    (forall i, j :: 0 <= i <= j < |hits| ==> hits[i] <= hits[j]) &&
    hits[waves] == |found| &&
    YieldTraced(pool, found, sizes, hits) &&
    (forall k :: hits[0] <= k < |found| ==> YieldedGrown(pool, found, k, 0, bound))
  }

  /** A position past the first entry of a trace and before its last lies in one of its bands. */
  lemma BandOf(hits: seq<nat>, k: nat) returns (c: nat)
    requires |hits| >= 1 && hits[0] <= k < hits[|hits| - 1]
    ensures c < |hits| - 1 && hits[c] <= k < hits[c + 1]
    decreases |hits|
  {
    if k < hits[1] {
      c := 0;
    } else {
      c := BandOf(hits[1..], k);
      c := c + 1;
    }
  }

  /** Every expression a turn yielded was made from a pair below the bound of the last turn. */
  lemma YieldedBelow(pool: seq<Expr>, found: seq<Expr>, waves: nat, sizes: seq<nat>, hits: seq<nat>)
    requires YieldTraced(pool, found, sizes, hits) && |hits| == waves + 1 && hits[waves] == |found|
    requires forall i, j :: 0 <= i <= j < |sizes| ==> sizes[i] <= sizes[j]
    ensures forall k :: hits[0] <= k < |found| ==> YieldedGrown(pool, found, k, 0, Lo(sizes, waves))
  {
    forall k | hits[0] <= k < |found| ensures YieldedGrown(pool, found, k, 0, Lo(sizes, waves)) {
      var c := BandOf(hits, k);
      assert YieldedGrown(pool, found, k, Lo(sizes, c), sizes[c]);
      var p: Pair :| Lo(sizes, c) <= p.1 < sizes[c] && YieldedFrom(pool, found, k, p);
      assert sizes[c] <= sizes[waves - 1];
    }
  }

  /** Every pair below `bound` was combined, once, and each result of `make` over it that fits was yielded or pooled. */
  ghost predicate CombinedBelow(target: int, numbers: seq<int>, pool: seq<Expr>, found: seq<Expr>,
                                combined: seq<Pair>, bound: nat)
  {
    (forall p: Pair :: p in combined <==> InSlice(0, bound, p)) &&
    NoDuplicates(combined) &&
    (forall p: Pair :: p.0 < p.1 < bound ==>
      (p.1 < |pool| && Wf(pool[p.0]) && Wf(pool[p.1]) &&
       (Leaves(pool[p.0]) + Leaves(pool[p.1]) <= multiset(numbers) ==>
         forall e :: e in Make(pool[p.0], pool[p.1]) ==> Settled(target, multiset(numbers), e, pool, found))))
  }

  /**
   * What `solutions(target, numbers)` has done after `waves` turns of its
   * outer loop: `found` is what it yielded, `pool` is `exprs`, `sizes` traces
   * the pool's length, and every pair below the size before the last turn,
   * `bound`, was combined and is recorded in `combined`.
   */
  ghost predicate SearchOutcome(target: int, numbers: seq<int>, waves: nat, found: seq<Expr>, pool: seq<Expr>,
                                combined: seq<Pair>, bound: nat, sizes: seq<nat>, hits: seq<nat>)
  {
    YieldedOk(target, numbers, found) &&
    YieldHolds(target, numbers, waves, pool, found, bound, sizes, hits) &&
    PoolHolds(target, numbers, pool) &&
    TraceHolds(numbers, waves, pool, sizes) &&
    bound == Lo(sizes, waves) &&
    CombinedBelow(target, numbers, pool, found, combined, bound)
  }

  /**
   * `solutions(target, numbers)`, run for `waves` turns of its outer loop (the
   * source's generator never ends: once the pool stops growing it keeps
   * appending empty slices).  When the last turn added nothing, `bound` is the
   * pool's length and every pair of the pool has been combined.
   */
  method Solutions(target: int, numbers: seq<int>, waves: nat)
    returns (found: seq<Expr>, pool: seq<Expr>, ghost combined: seq<Pair>, ghost bound: nat,
             ghost sizes: seq<nat>, ghost hits: seq<nat>)
    requires forall k :: 0 <= k < |numbers| ==> numbers[k] > 0
    ensures SearchOutcome(target, numbers, waves, found, pool, combined, bound, sizes, hits)
  {
    // The count of each input value.
    var avail := multiset(numbers);
    var seeds, found0 := Seed(target, numbers);
    ghost var uniq: set<Expr>;
    pool, uniq, found, combined, bound, sizes, hits := RunWaves(target, avail, waves, seeds, found0);
    PrefixMembers(seeds, pool);
    PrefixMembers(found0, found);
    PoolShape(target, numbers, seeds, pool);
    CombinedSettled(target, avail, pool, uniq, found, combined, bound);
    YieldedBelow(pool, found, waves, sizes, hits);
  }

  /**
   * Lines 115-142 after the seeding: the outer loop over `combs`, run for
   * `waves` generators.  The source's `uniq` starts as the set of input
   * numbers; no number ever equals an expression, so only the expressions
   * added later matter and `uniq` starts empty here.
   */
  method RunWaves(target: int, avail: multiset<int>, waves: nat, seeds: seq<Expr>, found0: seq<Expr>)
    returns (pool: seq<Expr>, uniq: set<Expr>, found: seq<Expr>,
             ghost combined: seq<Pair>, ghost bound: nat, ghost sizes: seq<nat>, ghost hits: seq<nat>)
    requires SearchInv(target, avail, seeds, {}, found0)
    ensures SearchInv(target, avail, pool, uniq, found)
    ensures seeds <= pool && found0 <= found
    ensures |sizes| == waves + 1 && sizes[0] == |seeds| && sizes[waves] == |pool|
    ensures forall i, j :: 0 <= i <= j < |sizes| ==> sizes[i] <= sizes[j]
    ensures bound == Lo(sizes, waves)
    ensures forall p: Pair :: p in combined <==> InSlice(0, bound, p)
    ensures NoDuplicates(combined)
    ensures forall p: Pair :: p in combined ==> Combined(avail, pool, uniq, p)
    ensures Traced(pool, sizes)
    ensures |hits| == waves + 1 && hits[0] == |found0| && hits[waves] == |found|
    ensures forall i, j :: 0 <= i <= j < |hits| ==> hits[i] <= hits[j]
    ensures YieldTraced(pool, found, sizes, hits)
  {
    pool, uniq, found := seeds, {}, found0;
    var n: nat := |pool|;
    var first := BoundedCombinations(n);
    var combs := [first];
    combined := [];
    bound := 0;
    sizes := [n];
    hits := [|found|];
    var c := 0;
    while c < waves
      invariant c <= waves
      invariant |combs| == c + 1
      invariant WaveReady(target, avail, pool, uniq, found, combined, bound, n, combs[c])
      invariant seeds <= pool && found0 <= found
      invariant |sizes| == c + 1 && sizes[0] == |seeds| && sizes[c] == n
      invariant forall i, j :: 0 <= i <= j < |sizes| ==> sizes[i] <= sizes[j]
      invariant bound == Lo(sizes, c)
      invariant Traced(pool, sizes)
      invariant |hits| == c + 1 && hits[0] == |found0| && hits[c] == |found|
      invariant forall i, j :: 0 <= i <= j < |hits| ==> hits[i] <= hits[j]
      invariant YieldTraced(pool, found, sizes, hits)
    {
      var next;
      ghost var pool0, found1 := pool, found;
      pool, uniq, found, combined, next := NextWave(target, avail, pool, uniq, found, combined, bound, n, combs[c]);
      TracedStep(pool0, pool, sizes, bound);
      YieldTracedStep(pool0, found1, pool, found, sizes, hits, bound);
      combs := combs + [next];
      bound := n;
      n := |pool|;
      sizes := sizes + [n];
      hits := hits + [|found|];
      c := c + 1;
    }
  }

  /** Every pair in the record of combined pairs had each result of `make` settled. */
  lemma CombinedSettled(target: int, avail: multiset<int>, pool: seq<Expr>, uniq: set<Expr>, found: seq<Expr>,
                        combined: seq<Pair>, bound: nat)
    requires SearchInv(target, avail, pool, uniq, found)
    requires forall p: Pair :: p in combined <==> InSlice(0, bound, p)
    requires forall p: Pair :: p in combined ==> Combined(avail, pool, uniq, p)
    ensures forall p: Pair :: p.0 < p.1 < bound ==>
      (p.1 < |pool| && Wf(pool[p.0]) && Wf(pool[p.1]) &&
       (Leaves(pool[p.0]) + Leaves(pool[p.1]) <= avail ==>
         forall e :: e in Make(pool[p.0], pool[p.1]) ==> Settled(target, avail, e, pool, found)))
  {
    forall p: Pair | p.0 < p.1 < bound
      ensures p.1 < |pool| && Wf(pool[p.0]) && Wf(pool[p.1]) &&
        (Leaves(pool[p.0]) + Leaves(pool[p.1]) <= avail ==>
          forall e :: e in Make(pool[p.0], pool[p.1]) ==> Settled(target, avail, e, pool, found))
    {
      assert p in combined;
      assert Combined(avail, pool, uniq, p);
    }
  }

  /**
   * `solution(target, numbers)`: the first expression `solutions` yields, or
   * `None` when it yields nothing within `waves` turns (the source, whose loop
   * never ends, would keep searching instead).  The ghost outputs are what the
   * search did, with everything `Solutions` promises of them.
   */
  method Solution(target: int, numbers: seq<int>, waves: nat)
    returns (r: Option, ghost found: seq<Expr>, ghost pool: seq<Expr>, ghost combined: seq<Pair>,
             ghost bound: nat, ghost sizes: seq<nat>, ghost hits: seq<nat>)
    requires forall k :: 0 <= k < |numbers| ==> numbers[k] > 0
    ensures SearchOutcome(target, numbers, waves, found, pool, combined, bound, sizes, hits)
    ensures r == if |found| > 0 then Some(found[0]) else None
    ensures r.Some? ==> IsSolution(target, multiset(numbers), r.value)
    ensures target in numbers ==> r == Some(Val(target))
  {
    var yielded: seq<Expr>, exprs: seq<Expr>;
    yielded, exprs, combined, bound, sizes, hits := Solutions(target, numbers, waves);
    found, pool := yielded, exprs;
    r := if |yielded| > 0 then Some(yielded[0]) else None;
  }

  datatype Option = None | Some(value: Expr)
}
