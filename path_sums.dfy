/**
 * binary-tree.js `maxSum`: the largest sum along a path that goes down one
 * side of a node, through it, and down the other side.  The inner `helper`
 * returns the best one-sided downward sum of its node and updates the closure
 * variable `result`; here `result` is passed in and handed back.  The starting
 * value `Number.MIN_SAFE_INTEGER` means "no path seen yet" and is `None`.
 */
module PathSums {
  import opened Options
  import opened BinaryTrees

  /** `Math.max(0, x)`: a negative continuation is not taken. */
  function Clamp(x: int): int {
    Max(0, x)
  }

  /** `Math.max(result, x)` where `None` stands below every integer. */
  function MaxOpt(a: Option<int>, b: Option<int>): Option<int> {
    if a.None? then b
    else if b.None? then a
    else Some(Max(a.value, b.value))
  }

  /** The value `helper(node)` returns. */
  function Down(t: BTree): int {
    if t == Nil then 0 else Max(Clamp(Down(t.left)), Clamp(Down(t.right))) + t.val
  }

  /** The candidate `left + right + node.val` that `helper` offers to `result` at a node. */
  function Through(t: BTree): int
    requires t.Node?
  {
    Clamp(Down(t.left)) + Clamp(Down(t.right)) + t.val
  }

  /** The largest candidate over the subtree, in the order `helper` offers them. */
  function Best(t: BTree): Option<int> {
    if t == Nil then None else MaxOpt(MaxOpt(Best(t.left), Best(t.right)), Some(Through(t)))
  }

  // ---------------------------------------------------------------------------
  // The recursive helper and the query
  // ---------------------------------------------------------------------------

  method MaxSumHelper(node: BTree, result: Option<int>) returns (down: int, newResult: Option<int>)
    ensures down == Down(node)
    ensures node.Node? ==> down >= node.val
    ensures newResult == MaxOpt(result, Best(node))
    decreases node
  {
    if node == Nil {
      return 0, result;
    }
    var l, afterLeft := MaxSumHelper(node.left, result);
    var left := Max(0, l);
    var r, afterRight := MaxSumHelper(node.right, afterLeft);
    var right := Max(0, r);
    newResult := MaxOpt(afterRight, Some(left + right + node.val));
    down := Max(left, right) + node.val;
  }

  method MaxSum(root: BTree) returns (result: Option<int>)
    ensures result == Best(root)
    ensures result.None? <==> root == Nil
  {
    var _, r := MaxSumHelper(root, None);
    result := r;
  }

  // ---------------------------------------------------------------------------
  // What the result means
  // ---------------------------------------------------------------------------

  /** An empty tree has no candidate; otherwise the result bounds every node's candidate, and so every value. */
  lemma {:induction false} BestBoundsCandidates(t: BTree)
    ensures Best(t).None? <==> t == Nil
    ensures t != Nil ==> forall n :: n in NodesOf(t) ==> n.val <= Through(n) <= Best(t).value
    decreases t
  {
    if t != Nil {
      BestBoundsCandidates(t.left);
      BestBoundsCandidates(t.right);
    }
  }

  /** On a non-empty tree the result is the candidate of some node. */
  lemma {:induction false} BestIsSomeCandidate(t: BTree)
    requires t != Nil
    ensures Best(t).Some? && exists n :: n in NodesOf(t) && Through(n) == Best(t).value
    decreases t
  {
    if Best(t).value != Through(t) {
      if Best(t.left).Some? && Best(t).value == Best(t.left).value {
        BestIsSomeCandidate(t.left);
        var n :| n in NodesOf(t.left) && Through(n) == Best(t.left).value;
        assert n in NodesOf(t);
      } else {
        assert t.right != Nil;
        BestIsSomeCandidate(t.right);
        var n :| n in NodesOf(t.right) && Through(n) == Best(t.right).value;
        assert n in NodesOf(t);
      }
    }
  }

  /**
   * The sums a downward path can collect below a parent: 0 (the path stops)
   * or the sum of a downward path starting at `t`.
   */
  ghost function Ext(t: BTree): set<int>
    decreases t, 1
  {
    {0} + DownSums(t)
  }

  /** The sums of all downward paths that start at `t`. */
  ghost function DownSums(t: BTree): set<int>
    decreases t, 0
  {
    if t == Nil then {} else set a | a in Ext(t.left) + Ext(t.right) :: t.val + a
  }

  /** The sums of all paths that bend at `t`: down the left side, through `t`, down the right side. */
  ghost function BentSums(t: BTree): set<int>
    requires t.Node?
  {
    set a, b | a in Ext(t.left) && b in Ext(t.right) :: a + b + t.val
  }

  /** The sums of all paths in the tree. */
  ghost function PathSumsOf(t: BTree): set<int> {
    if t == Nil then {} else BentSums(t) + PathSumsOf(t.left) + PathSumsOf(t.right)
  }

  lemma {:induction false} ExtMax(t: BTree)
    ensures Clamp(Down(t)) in Ext(t)
    ensures forall x :: x in Ext(t) ==> x <= Clamp(Down(t))
    decreases t, 1
  {
    if t != Nil {
      DownIsBestDownwardPath(t);
    }
  }

  /** `helper` returns the largest sum of a downward path starting at its node. */
  lemma {:induction false} DownIsBestDownwardPath(t: BTree)
    requires t.Node?
    ensures Down(t) in DownSums(t)
    ensures forall x :: x in DownSums(t) ==> x <= Down(t)
    decreases t, 0
  {
    ExtMax(t.left);
    ExtMax(t.right);
    var a := Max(Clamp(Down(t.left)), Clamp(Down(t.right)));
    assert a in Ext(t.left) + Ext(t.right);
    assert t.val + a in DownSums(t);
  }

  /** The candidate at a node is the largest sum of a path bending there. */
  lemma ThroughIsBestBentPath(t: BTree)
    requires t.Node?
    ensures Through(t) in BentSums(t)
    ensures forall x :: x in BentSums(t) ==> x <= Through(t)
  {
    ExtMax(t.left);
    ExtMax(t.right);
    var a, b := Clamp(Down(t.left)), Clamp(Down(t.right));
    assert a + b + t.val in BentSums(t);
  }

  /** `maxSum` is the largest sum over all paths of the tree (`None` when it has none). */
  lemma {:induction false} MaxSumIsBestPath(t: BTree)
    ensures Best(t).None? <==> PathSumsOf(t) == {}
    ensures Best(t).Some? ==> Best(t).value in PathSumsOf(t)
    ensures forall x :: x in PathSumsOf(t) ==> Best(t).Some? && x <= Best(t).value
    decreases t
  {
    if t != Nil {
      MaxSumIsBestPath(t.left);
      MaxSumIsBestPath(t.right);
      ThroughIsBestBentPath(t);
    }
  }

  /** The tree -1(2, 3): the best path bends at the root, 2 + (-1) + 3. */
  lemma BentPathExample()
    ensures Best(Node(0, -1, Node(1, 2, Nil, Nil), Node(2, 3, Nil, Nil))) == Some(4)
  {
  }
}
