/**
 * tree.js: a general tree whose nodes hold an integer and an ordered list of
 * children, and the three aggregate queries over it.  Each query is a
 * recursive helper that starts from the node's own contribution and adds the
 * helper's result for every child in a `for ... of` loop.  The helpers are
 * methods with that loop; each is proved equal to a recursive specification
 * function, and the specification functions are related to a reference
 * definition over the pre-order list of values and to reordered trees.
 */
module NaryTrees {
  import opened Options

  /** A TreeNode: a value and its children, in order.  A Tree is an `Option<NTree>` root. */
  datatype NTree = NNode(val: int, children: seq<NTree>)

  // ---------------------------------------------------------------------------
  // Size and the pre-order list of values (the reference view of a tree)
  // ---------------------------------------------------------------------------

  /** Number of nodes. */
  function Size(t: NTree): nat {
    1 + ForestSize(t.children)
  }

  function ForestSize(ts: seq<NTree>): nat {
    if |ts| == 0 then 0 else ForestSize(ts[..|ts| - 1]) + Size(ts[|ts| - 1])
  }

  /** Number of nodes of an optional root (`null` has none). */
  function NodeCount(root: Option<NTree>): nat {
    if root.None? then 0 else Size(root.value)
  }

  /** The values of all nodes, in pre-order. */
  function Values(t: NTree): seq<int> {
    [t.val] + ForestValues(t.children)
  }

  function ForestValues(ts: seq<NTree>): seq<int> {
    if |ts| == 0 then [] else ForestValues(ts[..|ts| - 1]) + Values(ts[|ts| - 1])
  }

  function SeqSum(s: seq<int>): int {
    if |s| == 0 then 0 else s[0] + SeqSum(s[1..])
  }

  /** How many elements of `s` satisfy `p`. */
  function CountWhere(s: seq<int>, p: int -> bool): nat {
    if |s| == 0 then 0 else (if p(s[0]) then 1 else 0) + CountWhere(s[1..], p)
  }

  /** JavaScript's `%`: the remainder takes the sign of the dividend. */
  function JsRemainder(a: int, b: int): int
    requires b > 0
  {
    if a >= 0 then a % b else -((-a) % b)
  }

  /** The test `val % 2 === 0` of tree.js:45 (`-0 === 0` holds, so negative evens pass). */
  predicate IsEven(v: int) {
    JsRemainder(v, 2) == 0
  }

  // ---------------------------------------------------------------------------
  // The three aggregates, as recursive specification functions
  // ---------------------------------------------------------------------------

  function TreeSum(t: NTree): int {
    t.val + ForestSum(t.children)
  }

  function ForestSum(ts: seq<NTree>): int {
    if |ts| == 0 then 0 else ForestSum(ts[..|ts| - 1]) + TreeSum(ts[|ts| - 1])
  }

  function TreeEvens(t: NTree): int {
    (if IsEven(t.val) then 1 else 0) + ForestEvens(t.children)
  }

  function ForestEvens(ts: seq<NTree>): int {
    if |ts| == 0 then 0 else ForestEvens(ts[..|ts| - 1]) + TreeEvens(ts[|ts| - 1])
  }

  function TreeGreater(t: NTree, lowerBound: int): int {
    (if t.val > lowerBound then 1 else 0) + ForestGreater(t.children, lowerBound)
  }

  function ForestGreater(ts: seq<NTree>, lowerBound: int): int {
    if |ts| == 0 then 0
    else ForestGreater(ts[..|ts| - 1], lowerBound) + TreeGreater(ts[|ts| - 1], lowerBound)
  }

  // ---------------------------------------------------------------------------
  // The methods of tree.js
  // ---------------------------------------------------------------------------

  lemma {:induction false} ChildSmaller(ts: seq<NTree>, i: nat)
    requires i < |ts|
    ensures Size(ts[i]) <= ForestSize(ts)
    decreases |ts|
  {
    if i < |ts| - 1 {
      ChildSmaller(ts[..|ts| - 1], i);
    }
  }

  method SumValuesHelper(node: Option<NTree>) returns (sum: int)
    ensures node.None? ==> sum == 0
    ensures node.Some? ==> sum == TreeSum(node.value) == SeqSum(Values(node.value))
    decreases NodeCount(node)
  {
    if node.None? {
      return 0;
    }
    var n := node.value;
    sum := n.val;
    for i := 0 to |n.children|
      invariant sum == n.val + ForestSum(n.children[..i])
    {
      ChildSmaller(n.children, i);
      var s := SumValuesHelper(Some(n.children[i]));
      SumIsSumOfValues(n.children[i]);
      assert n.children[..i + 1][..i] == n.children[..i];
      sum := sum + s;
    }
    assert n.children[..|n.children|] == n.children;
    SumIsSumOfValues(n);
  }

  method SumValues(root: Option<NTree>) returns (sum: int)
    ensures root.None? ==> sum == 0
    ensures root.Some? ==> sum == TreeSum(root.value) == SeqSum(Values(root.value))
  {
    sum := SumValuesHelper(root);
  }

  method CountEvensHelper(node: Option<NTree>) returns (count: int)
    ensures node.None? ==> count == 0
    ensures node.Some? ==> count == TreeEvens(node.value) == CountWhere(Values(node.value), IsEven)
    decreases NodeCount(node)
  {
    if node.None? {
      return 0;
    }
    var n := node.value;
    count := if IsEven(n.val) then 1 else 0;
    for i := 0 to |n.children|
      invariant count == (if IsEven(n.val) then 1 else 0) + ForestEvens(n.children[..i])
    {
      ChildSmaller(n.children, i);
      var c := CountEvensHelper(Some(n.children[i]));
      EvensIsCountOfValues(n.children[i]);
      assert n.children[..i + 1][..i] == n.children[..i];
      count := count + c;
    }
    assert n.children[..|n.children|] == n.children;
    EvensIsCountOfValues(n);
  }

  method CountEvens(root: Option<NTree>) returns (count: int)
    ensures 0 <= count <= NodeCount(root)
    ensures root.Some? ==> count == TreeEvens(root.value) == CountWhere(Values(root.value), IsEven)
  {
    count := CountEvensHelper(root);
    if root.Some? {
      AggregateBounds(root.value, 0);
    }
  }

  method NumGreaterHelper(node: Option<NTree>, lowerBound: int) returns (count: int)
    ensures node.None? ==> count == 0
    ensures node.Some? ==> count == TreeGreater(node.value, lowerBound) == CountWhere(Values(node.value), x => x > lowerBound)
    decreases NodeCount(node)
  {
    if node.None? {
      return 0;
    }
    var n := node.value;
    count := if n.val > lowerBound then 1 else 0;
    for i := 0 to |n.children|
      invariant count == (if n.val > lowerBound then 1 else 0) + ForestGreater(n.children[..i], lowerBound)
    {
      ChildSmaller(n.children, i);
      var c := NumGreaterHelper(Some(n.children[i]), lowerBound);
      GreaterIsCountOfValues(n.children[i], lowerBound);
      assert n.children[..i + 1][..i] == n.children[..i];
      count := count + c;
    }
    assert n.children[..|n.children|] == n.children;
    GreaterIsCountOfValues(n, lowerBound);
  }

  method NumGreater(root: Option<NTree>, lowerBound: int) returns (count: int)
    ensures 0 <= count <= NodeCount(root)
    ensures root.Some? ==> count == TreeGreater(root.value, lowerBound) == CountWhere(Values(root.value), x => x > lowerBound)
  {
    count := NumGreaterHelper(root, lowerBound);
    if root.Some? {
      AggregateBounds(root.value, lowerBound);
    }
  }

  // ---------------------------------------------------------------------------
  // The aggregates agree with the reference definition over Values
  // ---------------------------------------------------------------------------

  lemma {:induction false} SeqSumAppend(a: seq<int>, b: seq<int>)
    ensures SeqSum(a + b) == SeqSum(a) + SeqSum(b)
    decreases |a|
  {
    if |a| > 0 {
      assert (a + b)[1..] == a[1..] + b;
      SeqSumAppend(a[1..], b);
    } else {
      assert a + b == b;
    }
  }

  lemma {:induction false} CountWhereAppend(a: seq<int>, b: seq<int>, p: int -> bool)
    ensures CountWhere(a + b, p) == CountWhere(a, p) + CountWhere(b, p)
    decreases |a|
  {
    if |a| > 0 {
      assert (a + b)[1..] == a[1..] + b;
      CountWhereAppend(a[1..], b, p);
    } else {
      assert a + b == b;
    }
  }

  lemma {:induction false} SizeIsLength(t: NTree)
    ensures |Values(t)| == Size(t)
    decreases t, 1
  {
    ForestSizeIsLength(t.children);
  }

  lemma {:induction false} ForestSizeIsLength(ts: seq<NTree>)
    ensures |ForestValues(ts)| == ForestSize(ts)
    decreases ts, 0
  {
    if |ts| > 0 {
      ForestSizeIsLength(ts[..|ts| - 1]);
      SizeIsLength(ts[|ts| - 1]);
    }
  }

  /** `_sumValuesHelper` is the sum of the node's values. */
  lemma {:induction false} SumIsSumOfValues(t: NTree)
    ensures TreeSum(t) == SeqSum(Values(t))
    decreases t, 1
  {
    ForestSumIsSumOfValues(t.children);
    SeqSumAppend([t.val], ForestValues(t.children));
  }

  lemma {:induction false} ForestSumIsSumOfValues(ts: seq<NTree>)
    ensures ForestSum(ts) == SeqSum(ForestValues(ts))
    decreases ts, 0
  {
    if |ts| > 0 {
      ForestSumIsSumOfValues(ts[..|ts| - 1]);
      SumIsSumOfValues(ts[|ts| - 1]);
      SeqSumAppend(ForestValues(ts[..|ts| - 1]), Values(ts[|ts| - 1]));
    }
  }

  /** `_countEvensHelper` counts the nodes whose value is even. */
  lemma {:induction false} EvensIsCountOfValues(t: NTree)
    ensures TreeEvens(t) == CountWhere(Values(t), IsEven)
    decreases t, 1
  {
    ForestEvensIsCountOfValues(t.children);
    CountWhereAppend([t.val], ForestValues(t.children), IsEven);
  }

  lemma {:induction false} ForestEvensIsCountOfValues(ts: seq<NTree>)
    ensures ForestEvens(ts) == CountWhere(ForestValues(ts), IsEven)
    decreases ts, 0
  {
    if |ts| > 0 {
      ForestEvensIsCountOfValues(ts[..|ts| - 1]);
      EvensIsCountOfValues(ts[|ts| - 1]);
      CountWhereAppend(ForestValues(ts[..|ts| - 1]), Values(ts[|ts| - 1]), IsEven);
    }
  }

  /** `_numGreaterHelper` counts the nodes whose value exceeds the bound strictly. */
  lemma {:induction false} GreaterIsCountOfValues(t: NTree, lowerBound: int)
    ensures TreeGreater(t, lowerBound) == CountWhere(Values(t), x => x > lowerBound)
    decreases t, 1
  {
    ForestGreaterIsCountOfValues(t.children, lowerBound);
    CountWhereAppend([t.val], ForestValues(t.children), x => x > lowerBound);
  }

  lemma {:induction false} ForestGreaterIsCountOfValues(ts: seq<NTree>, lowerBound: int)
    ensures ForestGreater(ts, lowerBound) == CountWhere(ForestValues(ts), x => x > lowerBound)
    decreases ts, 0
  {
    if |ts| > 0 {
      ForestGreaterIsCountOfValues(ts[..|ts| - 1], lowerBound);
      GreaterIsCountOfValues(ts[|ts| - 1], lowerBound);
      CountWhereAppend(ForestValues(ts[..|ts| - 1]), Values(ts[|ts| - 1]), x => x > lowerBound);
    }
  }

  // ---------------------------------------------------------------------------
  // Bounds, evenness and monotonicity
  // ---------------------------------------------------------------------------

  /** The source's truncating `%` and Dafny's Euclidean `%` agree on "divisible by two". */
  lemma EvenAgreesWithEuclid(v: int)
    ensures IsEven(v) <==> v % 2 == 0
  {
    if v < 0 {
      assert (-v) % 2 == 0 <==> v % 2 == 0;
    }
  }

  lemma {:induction false} CountWhereAtMostLength(s: seq<int>, p: int -> bool)
    ensures CountWhere(s, p) <= |s|
    decreases |s|
  {
    if |s| > 0 {
      CountWhereAtMostLength(s[1..], p);
    }
  }

  /** A weaker predicate never counts fewer elements. */
  lemma {:induction false} CountWhereMonotone(s: seq<int>, p: int -> bool, q: int -> bool)
    requires forall x :: p(x) ==> q(x)
    ensures CountWhere(s, p) <= CountWhere(s, q)
    decreases |s|
  {
    if |s| > 0 {
      CountWhereMonotone(s[1..], p, q);
    }
  }

  /** Both counts lie between 0 and the number of nodes. */
  lemma AggregateBounds(t: NTree, lowerBound: int)
    ensures 0 <= TreeEvens(t) <= Size(t)
    ensures 0 <= TreeGreater(t, lowerBound) <= Size(t)
  {
    EvensIsCountOfValues(t);
    GreaterIsCountOfValues(t, lowerBound);
    SizeIsLength(t);
    CountWhereAtMostLength(Values(t), IsEven);
    CountWhereAtMostLength(Values(t), x => x > lowerBound);
  }

  /** `numGreater` is antitone in its bound. */
  lemma NumGreaterAntitone(t: NTree, b1: int, b2: int)
    requires b1 <= b2
    ensures TreeGreater(t, b2) <= TreeGreater(t, b1)
  {
    GreaterIsCountOfValues(t, b1);
    GreaterIsCountOfValues(t, b2);
    CountWhereMonotone(Values(t), x => x > b2, x => x > b1);
  }

  // ---------------------------------------------------------------------------
  // Independence from the order of children
  // ---------------------------------------------------------------------------

  /** The fold shared by the three children loops. */
  function SumBy(ts: seq<NTree>, f: NTree -> int): int {
    if |ts| == 0 then 0 else SumBy(ts[..|ts| - 1], f) + f(ts[|ts| - 1])
  }

  lemma {:induction false} ForestsAreFolds(ts: seq<NTree>, lowerBound: int)
    ensures ForestSum(ts) == SumBy(ts, TreeSum)
    ensures ForestEvens(ts) == SumBy(ts, TreeEvens)
    ensures ForestGreater(ts, lowerBound) == SumBy(ts, t => TreeGreater(t, lowerBound))
    decreases |ts|
  {
    if |ts| > 0 {
      ForestsAreFolds(ts[..|ts| - 1], lowerBound);
    }
  }

  lemma {:induction false} SumByRemove(a: seq<NTree>, x: NTree, b: seq<NTree>, f: NTree -> int)
    ensures SumBy(a + [x] + b, f) == SumBy(a + b, f) + f(x)
    decreases |b|
  {
    if |b| == 0 {
      assert a + [x] + b == a + [x];
      assert a + b == a;
      assert (a + [x])[..|a|] == a;
    } else {
      var b' := b[..|b| - 1];
      assert (a + [x] + b)[..|a + [x] + b| - 1] == a + [x] + b';
      assert (a + b)[..|a + b| - 1] == a + b';
      SumByRemove(a, x, b', f);
    }
  }

  /** Reordering a list of children does not change the fold over it. */
  lemma {:induction false} SumByPermutation(xs: seq<NTree>, ys: seq<NTree>, f: NTree -> int)
    requires multiset(xs) == multiset(ys)
    ensures SumBy(xs, f) == SumBy(ys, f)
    decreases |xs|
  {
    if |xs| == 0 {
      assert |ys| == |multiset(ys)| == 0;
    } else {
      var x := xs[|xs| - 1];
      var init := xs[..|xs| - 1];
      assert xs == init + [x];
      assert multiset(xs) == multiset(init) + multiset{x};
      assert x in ys by {
        assert x in multiset(ys);
      }
      var j :| 0 <= j < |ys| && ys[j] == x;
      var rest := ys[..j] + ys[j + 1..];
      assert ys == ys[..j] + [x] + ys[j + 1..];
      assert multiset(ys) == multiset(rest) + multiset{x};
      calc {
        multiset(init);
        multiset(xs) - multiset{x};
        multiset(ys) - multiset{x};
        multiset(rest);
      }
      SumByRemove(ys[..j], x, ys[j + 1..], f);
      SumByPermutation(init, rest, f);
    }
  }

  lemma {:induction false} SumByPointwise(xs: seq<NTree>, ys: seq<NTree>, f: NTree -> int)
    requires |xs| == |ys|
    requires forall i :: 0 <= i < |xs| ==> f(xs[i]) == f(ys[i])
    ensures SumBy(xs, f) == SumBy(ys, f)
    decreases |xs|
  {
    if |xs| > 0 {
      SumByPointwise(xs[..|xs| - 1], ys[..|ys| - 1], f);
    }
  }

  /**
   * `b` is `a` with the children of any of its nodes reordered: the root
   * values agree, and the children of `b` are a permutation of a list whose
   * members are, position by position, rearrangements of `a`'s children.
   */
  ghost predicate Rearranged(a: NTree, b: NTree)
    decreases a
  {
    && a.val == b.val
    && exists cs: seq<NTree> ::
         && |cs| == |a.children|
         && multiset(cs) == multiset(b.children)
         && forall i :: 0 <= i < |cs| ==> Rearranged(a.children[i], cs[i])
  }

  lemma {:induction false} RearrangedReflexive(t: NTree)
    ensures Rearranged(t, t)
    decreases t
  {
    forall i | 0 <= i < |t.children|
      ensures Rearranged(t.children[i], t.children[i])
    {
      RearrangedReflexive(t.children[i]);
    }
    assert |t.children| == |t.children| && multiset(t.children) == multiset(t.children);
  }

  /** Permuting the children of the root is a rearrangement. */
  lemma ChildrenPermuted(a: NTree, b: NTree)
    requires a.val == b.val && multiset(a.children) == multiset(b.children)
    ensures Rearranged(a, b)
  {
    forall i | 0 <= i < |a.children|
      ensures Rearranged(a.children[i], a.children[i])
    {
      RearrangedReflexive(a.children[i]);
    }
  }

  /** None of the three aggregates depends on the order of children anywhere in the tree. */
  lemma {:induction false} RearrangedPreservesAggregates(a: NTree, b: NTree, lowerBound: int)
    requires Rearranged(a, b)
    ensures TreeSum(a) == TreeSum(b)
    ensures TreeEvens(a) == TreeEvens(b)
    ensures TreeGreater(a, lowerBound) == TreeGreater(b, lowerBound)
    decreases a
  {
    var cs :| && |cs| == |a.children|
              && multiset(cs) == multiset(b.children)
              && forall i :: 0 <= i < |cs| ==> Rearranged(a.children[i], cs[i]);
    forall i | 0 <= i < |cs|
      ensures TreeSum(a.children[i]) == TreeSum(cs[i])
      ensures TreeEvens(a.children[i]) == TreeEvens(cs[i])
      ensures TreeGreater(a.children[i], lowerBound) == TreeGreater(cs[i], lowerBound)
    {
      RearrangedPreservesAggregates(a.children[i], cs[i], lowerBound);
    }
    ChildListsAgree(a.children, cs, b.children, lowerBound);
    SameRootAndForests(a, b, lowerBound);
  }

  lemma SameRootAndForests(a: NTree, b: NTree, lowerBound: int)
    requires a.val == b.val
    requires ForestSum(a.children) == ForestSum(b.children)
    requires ForestEvens(a.children) == ForestEvens(b.children)
    requires ForestGreater(a.children, lowerBound) == ForestGreater(b.children, lowerBound)
    ensures TreeSum(a) == TreeSum(b)
    ensures TreeEvens(a) == TreeEvens(b)
    ensures TreeGreater(a, lowerBound) == TreeGreater(b, lowerBound)
  {
  }

  /** Children lists that agree position by position with a permutation of each other agree in all three folds. */
  lemma ChildListsAgree(xs: seq<NTree>, cs: seq<NTree>, ys: seq<NTree>, lowerBound: int)
    requires |xs| == |cs| && multiset(cs) == multiset(ys)
    requires forall i :: 0 <= i < |xs| ==>
      && TreeSum(xs[i]) == TreeSum(cs[i])
      && TreeEvens(xs[i]) == TreeEvens(cs[i])
      && TreeGreater(xs[i], lowerBound) == TreeGreater(cs[i], lowerBound)
    ensures ForestSum(xs) == ForestSum(ys)
    ensures ForestEvens(xs) == ForestEvens(ys)
    ensures ForestGreater(xs, lowerBound) == ForestGreater(ys, lowerBound)
  {
    var greater := t => TreeGreater(t, lowerBound);
    ForestsAreFolds(xs, lowerBound);
    ForestsAreFolds(cs, lowerBound);
    ForestsAreFolds(ys, lowerBound);
    SumByPointwise(xs, cs, TreeSum);
    SumByPointwise(xs, cs, TreeEvens);
    SumByPointwise(xs, cs, greater);
    SumByPermutation(cs, ys, TreeSum);
    SumByPermutation(cs, ys, TreeEvens);
    SumByPermutation(cs, ys, greater);
  }

  // ---------------------------------------------------------------------------
  // A worked example
  // ---------------------------------------------------------------------------

  /** Root 1 with children 2 and 3: sum 6, one even value, two values above 1. */
  lemma SmallTreeExample()
    ensures var t := NNode(1, [NNode(2, []), NNode(3, [])]);
      TreeSum(t) == 6 && TreeEvens(t) == 1 && TreeGreater(t, 1) == 2
  {
    var t := NNode(1, [NNode(2, []), NNode(3, [])]);
    assert t.children[..1] == [NNode(2, [])];
    assert t.children[..1][..0] == [];
  }
}
