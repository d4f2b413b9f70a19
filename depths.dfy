/**
 * binary-tree.js `minDepth` and `maxDepth`.  Depths count nodes, not edges: an
 * empty tree has depth 0 and a lone root depth 1.  `minDepth` is the
 * breadth-first loop over a queue of (node, depth) entries, proved to return
 * the depth of the shallowest leaf; `maxDepth` is the recursive function.
 */
module Depths {
  import opened BinaryTrees

  /** `maxDepth(root)`: 0 for an absent node, otherwise one more than the deeper child. */
  function MaxDepth(t: BTree): (d: nat)
    ensures d == 0 <==> t == Nil
    ensures d <= Size(t)
  {
    if t == Nil then 0 else 1 + Max(MaxDepth(t.left), MaxDepth(t.right))
  }

  /**
   * The depth at which the breadth-first search meets its first leaf.  A node
   * with one child is not a leaf, so the search continues below that child.
   */
  function MinDepth(t: BTree): nat {
    if t == Nil then 0
    else if t.left == Nil && t.right == Nil then 1
    else if t.left == Nil then 1 + MinDepth(t.right)
    else if t.right == Nil then 1 + MinDepth(t.left)
    else 1 + Min(MinDepth(t.left), MinDepth(t.right))
  }

  /** The depth of every leaf, the root being at depth 1. */
  ghost function LeafDepths(t: BTree): set<nat> {
    if t == Nil then {}
    else if IsLeaf(t) then {1}
    else set d | d in LeafDepths(t.left) + LeafDepths(t.right) :: d + 1
  }

  /** `minDepth` is the depth of a shallowest leaf. */
  lemma {:induction false} MinDepthIsShallowestLeaf(t: BTree)
    requires t != Nil
    ensures MinDepth(t) in LeafDepths(t)
    ensures forall d :: d in LeafDepths(t) ==> MinDepth(t) <= d
    decreases t
  {
    if !IsLeaf(t) {
      if t.left != Nil {
        MinDepthIsShallowestLeaf(t.left);
      }
      if t.right != Nil {
        MinDepthIsShallowestLeaf(t.right);
      }
      var c := if t.left == Nil then t.right
               else if t.right == Nil then t.left
               else if MinDepth(t.left) <= MinDepth(t.right) then t.left else t.right;
      assert MinDepth(t) == 1 + MinDepth(c);
      assert MinDepth(c) + 1 in LeafDepths(t);
    }
  }

  /** `maxDepth` is the depth of a deepest leaf. */
  lemma {:induction false} MaxDepthIsDeepestLeaf(t: BTree)
    requires t != Nil
    ensures MaxDepth(t) in LeafDepths(t)
    ensures forall d :: d in LeafDepths(t) ==> d <= MaxDepth(t)
    decreases t
  {
    if !IsLeaf(t) {
      if t.left != Nil {
        MaxDepthIsDeepestLeaf(t.left);
      }
      if t.right != Nil {
        MaxDepthIsDeepestLeaf(t.right);
      }
      var c := if t.left == Nil then t.right
               else if t.right == Nil then t.left
               else if MaxDepth(t.left) >= MaxDepth(t.right) then t.left else t.right;
      assert MaxDepth(t) == 1 + MaxDepth(c);
      assert MaxDepth(c) + 1 in LeafDepths(t);
    }
  }

  /** Both depths are 0 exactly on the empty tree, both are 1 on a lone root, and the minimum never exceeds the maximum. */
  lemma DepthsAgree(t: BTree)
    ensures MinDepth(t) == 0 <==> t == Nil
    ensures MaxDepth(t) == 0 <==> t == Nil
    ensures IsLeaf(t) ==> MinDepth(t) == 1 && MaxDepth(t) == 1
    ensures 1 <= MinDepth(t) <= MaxDepth(t) || t == Nil
  {
    if t != Nil {
      MinDepthIsShallowestLeaf(t);
      MaxDepthIsDeepestLeaf(t);
    }
  }

  // ---------------------------------------------------------------------------
  // The breadth-first loop
  // ---------------------------------------------------------------------------

  /** A queue entry `{ node, depth }`. */
  datatype Entry = Entry(node: BTree, depth: nat)

  /** The shallowest leaf depth reachable through an entry. */
  function Reach(e: Entry): int {
    e.depth - 1 + MinDepth(e.node)
  }

  function QueueSize(q: seq<Entry>): nat {
    if q == [] then 0 else Size(q[0].node) + QueueSize(q[1..])
  }

  lemma {:induction false} QueueSizeAppend(a: seq<Entry>, b: seq<Entry>)
    ensures QueueSize(a + b) == QueueSize(a) + QueueSize(b)
    decreases |a|
  {
    if a == [] {
      assert a + b == b;
    } else {
      assert (a + b)[1..] == a[1..] + b;
      QueueSizeAppend(a[1..], b);
    }
  }

  /** The entries a dequeued entry pushes: its present children, one level deeper. */
  function Children(e: Entry): seq<Entry>
    requires e.node.Node?
  {
    (if e.node.left != Nil then [Entry(e.node.left, e.depth + 1)] else []) +
    (if e.node.right != Nil then [Entry(e.node.right, e.depth + 1)] else [])
  }

  /**
   * What the breadth-first queue keeps: entries are nodes, depths are
   * non-decreasing and span at most one level, no entry leads to a leaf
   * shallower than `m`, and some entry leads to a leaf at depth `m`.
   */
  ghost predicate QueueInv(q: seq<Entry>, m: int) {
    QueueShape(q) && ReachesMin(q, m)
  }

  ghost predicate QueueShape(q: seq<Entry>) {
    && (forall i :: 0 <= i < |q| ==> q[i].node.Node? && q[i].depth >= 1)
    && (forall i, j :: 0 <= i <= j < |q| ==> q[i].depth <= q[j].depth)
    && (forall i :: 0 <= i < |q| ==> q[i].depth <= q[0].depth + 1)
  }

  ghost predicate ReachesMin(q: seq<Entry>, m: int) {
    && (forall i :: 0 <= i < |q| ==> Reach(q[i]) >= m)
    && (exists i :: 0 <= i < |q| && Reach(q[i]) == m)
  }

  /** The first leaf dequeued lies at the minimum depth. */
  lemma LeafAtFrontIsShallowest(q: seq<Entry>, m: int)
    requires QueueInv(q, m) && IsLeaf(q[0].node)
    ensures q[0].depth == m
  {
    var w :| 0 <= w < |q| && Reach(q[w]) == m;
    assert q[w].depth <= m;
  }

  /** The children of an inner node: one level deeper, no shallower leaf, and one of them keeps the shallowest leaf. */
  lemma ChildrenOfInnerNode(e: Entry)
    requires e.node.Node? && !IsLeaf(e.node) && e.depth >= 1
    ensures QueueSize(Children(e)) == Size(e.node) - 1
    ensures forall k :: 0 <= k < |Children(e)| ==>
      Children(e)[k].depth == e.depth + 1 && Children(e)[k].node.Node? && Reach(Children(e)[k]) >= Reach(e)
    ensures exists k :: 0 <= k < |Children(e)| && Reach(Children(e)[k]) == Reach(e)
  {
    var node := e.node;
    var kids := Children(e);
    if node.left != Nil && node.right != Nil {
      assert kids == [kids[0]] + [kids[1]];
      QueueSizeAppend([kids[0]], [kids[1]]);
      if MinDepth(node.left) <= MinDepth(node.right) {
        assert Reach(kids[0]) == Reach(e);
      } else {
        assert Reach(kids[1]) == Reach(e);
      }
    } else {
      assert Reach(kids[0]) == Reach(e);
    }
  }

  /** Dequeuing an inner node and enqueuing its children keeps the invariant and shrinks the queue. */
  lemma DequeueInnerNode(q: seq<Entry>, m: int)
    requires QueueInv(q, m) && !IsLeaf(q[0].node)
    ensures QueueInv(q[1..] + Children(q[0]), m)
    ensures QueueSize(q[1..] + Children(q[0])) < QueueSize(q)
  {
    QueueSizeAppend(q[1..], Children(q[0]));
    ChildrenOfInnerNode(q[0]);
    DequeueKeepsShape(q);
    DequeueKeepsReach(q, m);
  }

  lemma DequeueKeepsShape(q: seq<Entry>)
    requires |q| > 0 && QueueShape(q) && !IsLeaf(q[0].node)
    ensures QueueShape(q[1..] + Children(q[0]))
  {
    var kids := Children(q[0]);
    var next := q[1..] + kids;
    ChildrenOfInnerNode(q[0]);
    assert forall i :: 0 <= i < |next| ==> next[i] == if i < |q| - 1 then q[i + 1] else kids[i - (|q| - 1)];
  }

  lemma DequeueKeepsReach(q: seq<Entry>, m: int)
    requires QueueInv(q, m) && !IsLeaf(q[0].node)
    ensures ReachesMin(q[1..] + Children(q[0]), m)
  {
    var kids := Children(q[0]);
    var next := q[1..] + kids;
    ChildrenOfInnerNode(q[0]);
    assert forall i :: 0 <= i < |next| ==> next[i] == if i < |q| - 1 then q[i + 1] else kids[i - (|q| - 1)];
    var w :| 0 <= w < |q| && Reach(q[w]) == m;
    if w == 0 {
      var k :| 0 <= k < |kids| && Reach(kids[k]) == Reach(q[0]);
      assert Reach(next[|q| - 1 + k]) == m;
    } else {
      assert next[w - 1] == q[w];
    }
  }

  method MinDepthSearch(root: BTree) returns (depth: nat)
    ensures depth == MinDepth(root)
  {
    if root == Nil {
      return 0;
    }
    ghost var m := MinDepth(root);
    var queue := [Entry(root, 1)];
    assert Reach(queue[0]) == m;
    while |queue| > 0
      invariant QueueInv(queue, m)
      decreases QueueSize(queue)
    {
      ghost var before := queue;
      var e := queue[0];
      queue := queue[1..];
      var node := e.node;
      if node.left == Nil && node.right == Nil {
        LeafAtFrontIsShallowest(before, m);
        return e.depth;
      }
      if node.left != Nil {
        queue := queue + [Entry(node.left, e.depth + 1)];
      }
      if node.right != Nil {
        queue := queue + [Entry(node.right, e.depth + 1)];
      }
      DequeueInnerNode(before, m);
      assert queue == before[1..] + Children(e);
    }
    assert false;
  }
}
