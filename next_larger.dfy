/**
 * binary-tree.js `nextLarger`: an in-order walk with an explicit stack that
 * returns the first value it meets above the bound.  The loop is proved to
 * return the first such value of the in-order sequence; on a binary search
 * tree that is the least value above the bound.
 */
module InOrderSearch {
  import opened Options
  import opened BinaryTrees

  /** The values in the order an in-order walk visits them. */
  function InOrder(t: BTree): seq<int> {
    if t == Nil then [] else InOrder(t.left) + [t.val] + InOrder(t.right)
  }

  /** The first element of `s` strictly above `lowerBound`, if any. */
  function FirstAbove(s: seq<int>, lowerBound: int): Option<int> {
    if s == [] then None
    else if s[0] > lowerBound then Some(s[0])
    else FirstAbove(s[1..], lowerBound)
  }

  /**
   * What is still to be visited: the subtree under `node`, then, from the top
   * of the stack down, each stacked node followed by its right subtree.
   */
  function Pending(node: BTree, stack: seq<BTree>): seq<int>
    requires forall i :: 0 <= i < |stack| ==> stack[i].Node?
  {
    InOrder(node) + StackOrder(stack)
  }

  function StackOrder(stack: seq<BTree>): seq<int>
    requires forall i :: 0 <= i < |stack| ==> stack[i].Node?
  {
    if stack == [] then []
    else
      var top := stack[|stack| - 1];
      [top.val] + InOrder(top.right) + StackOrder(stack[..|stack| - 1])
  }

  /** Pushing a node and going left leaves the same values still to visit. */
  lemma PushStep(node: BTree, stack: seq<BTree>)
    requires node.Node? && forall i :: 0 <= i < |stack| ==> stack[i].Node?
    ensures forall i :: 0 <= i < |stack + [node]| ==> (stack + [node])[i].Node?
    ensures Pending(node.left, stack + [node]) == Pending(node, stack)
  {
    assert (stack + [node])[..|stack|] == stack;
  }

  /** Popping the top node yields its value first, then its right subtree, then the rest. */
  lemma PopStep(stack: seq<BTree>)
    requires |stack| > 0 && forall i :: 0 <= i < |stack| ==> stack[i].Node?
    ensures var top, rest := stack[|stack| - 1], stack[..|stack| - 1];
      Pending(Nil, stack) == [top.val] + Pending(top.right, rest)
  {
  }

  lemma FirstAboveCons(v: int, s: seq<int>, lowerBound: int)
    ensures FirstAbove([v] + s, lowerBound) == if v > lowerBound then Some(v) else FirstAbove(s, lowerBound)
  {
    assert ([v] + s)[1..] == s;
  }

  method NextLarger(root: BTree, lowerBound: int) returns (r: Option<int>)
    ensures r == FirstAbove(InOrder(root), lowerBound)
  {
    var stack: seq<BTree> := [];
    var node := root;
    assert Pending(node, stack) == InOrder(root) + [] == InOrder(root);
    while |stack| > 0 || node != Nil
      invariant forall i :: 0 <= i < |stack| ==> stack[i].Node?
      invariant FirstAbove(Pending(node, stack), lowerBound) == FirstAbove(InOrder(root), lowerBound)
      decreases |Pending(node, stack)|
    {
      ghost var pending := Pending(node, stack);
      while node != Nil
        invariant forall i :: 0 <= i < |stack| ==> stack[i].Node?
        invariant |stack| > 0 || node != Nil
        invariant Pending(node, stack) == pending
        decreases node
      {
        PushStep(node, stack);
        stack := stack + [node];
        node := node.left;
      }
      PopStep(stack);
      node := stack[|stack| - 1];
      stack := stack[..|stack| - 1];
      FirstAboveCons(node.val, Pending(node.right, stack), lowerBound);
      if node.val > lowerBound {
        return Some(node.val);
      }
      node := node.right;
    }
    return None;
  }

  // ---------------------------------------------------------------------------
  // What the result means
  // ---------------------------------------------------------------------------

  lemma {:induction false} FirstAboveSpec(s: seq<int>, lowerBound: int)
    ensures FirstAbove(s, lowerBound).None? <==> forall i :: 0 <= i < |s| ==> s[i] <= lowerBound
    ensures FirstAbove(s, lowerBound).Some? ==>
      exists k :: 0 <= k < |s| && s[k] == FirstAbove(s, lowerBound).value && s[k] > lowerBound &&
        forall i :: 0 <= i < k ==> s[i] <= lowerBound
    decreases |s|
  {
    if s != [] && s[0] <= lowerBound {
      FirstAboveSpec(s[1..], lowerBound);
      if FirstAbove(s, lowerBound).Some? {
        var k :| 0 <= k < |s[1..]| && s[1..][k] == FirstAbove(s, lowerBound).value && s[1..][k] > lowerBound &&
          forall i :: 0 <= i < k ==> s[1..][i] <= lowerBound;
        assert s[k + 1] == s[1..][k];
        assert forall i :: 1 <= i < k + 1 ==> s[i] == s[1..][i - 1];
      }
    }
  }

  lemma {:induction false} InOrderHasValues(t: BTree)
    ensures forall x :: x in InOrder(t) <==> x in Values(t)
    decreases t
  {
    if t != Nil {
      InOrderHasValues(t.left);
      InOrderHasValues(t.right);
    }
  }

  /** `nextLarger` gives a value of the tree above the bound, and `null` exactly when no value is above it. */
  lemma NextLargerSpec(t: BTree, lowerBound: int)
    ensures FirstAbove(InOrder(t), lowerBound).None? <==> forall x :: x in Values(t) ==> x <= lowerBound
    ensures FirstAbove(InOrder(t), lowerBound).Some? ==>
      FirstAbove(InOrder(t), lowerBound).value in Values(t) && FirstAbove(InOrder(t), lowerBound).value > lowerBound
  {
    var s := InOrder(t);
    var r := FirstAbove(s, lowerBound);
    InOrderHasValues(t);
    FirstAboveSpec(s, lowerBound);
    if r.None? {
      forall x | x in Values(t) ensures x <= lowerBound {
        assert x in s;
        var i :| 0 <= i < |s| && s[i] == x;
      }
    } else {
      var k :| 0 <= k < |s| && s[k] == r.value && s[k] > lowerBound &&
        forall i :: 0 <= i < k ==> s[i] <= lowerBound;
      assert s[k] in s;
      assert r.value in Values(t);
    }
  }

  /** Left subtree below the node, right subtree above, at every node. */
  predicate IsSearchTree(t: BTree) {
    t == Nil ||
    (&& (forall x :: x in Values(t.left) ==> x < t.val)
     && (forall x :: x in Values(t.right) ==> t.val < x)
     && IsSearchTree(t.left)
     && IsSearchTree(t.right))
  }

  predicate Ascending(s: seq<int>) {
    forall i, j :: 0 <= i < j < |s| ==> s[i] < s[j]
  }

  lemma {:induction false} SearchTreeInOrderAscending(t: BTree)
    requires IsSearchTree(t)
    ensures Ascending(InOrder(t))
    decreases t
  {
    if t != Nil {
      SearchTreeInOrderAscending(t.left);
      SearchTreeInOrderAscending(t.right);
      InOrderHasValues(t.left);
      InOrderHasValues(t.right);
      AscendingAround(InOrder(t.left), t.val, InOrder(t.right));
    }
  }

  /** An ascending run, a larger value, and an ascending run of still larger values form an ascending run. */
  lemma AscendingAround(l: seq<int>, v: int, r: seq<int>)
    requires Ascending(l) && Ascending(r)
    requires forall x :: x in l ==> x < v
    requires forall x :: x in r ==> v < x
    ensures Ascending(l + [v] + r)
  {
    var s := l + [v] + r;
    assert forall i :: 0 <= i < |l| ==> s[i] == l[i] && l[i] in l;
    assert s[|l|] == v;
    assert forall i :: |l| < i < |s| ==> s[i] == r[i - |l| - 1] && r[i - |l| - 1] in r;
  }

  /** In an ascending sequence the first element above the bound is the least such element. */
  lemma {:induction false} FirstAboveOfAscending(s: seq<int>, lowerBound: int)
    requires Ascending(s) && FirstAbove(s, lowerBound).Some?
    ensures forall i :: 0 <= i < |s| && s[i] > lowerBound ==> FirstAbove(s, lowerBound).value <= s[i]
    decreases |s|
  {
    if s[0] <= lowerBound {
      FirstAboveOfAscending(s[1..], lowerBound);
      assert forall i :: 0 < i < |s| ==> s[i] == s[1..][i - 1];
    }
  }

  /** On a binary search tree `nextLarger` returns the least value above the bound. */
  lemma NextLargerOnSearchTree(t: BTree, lowerBound: int)
    requires IsSearchTree(t)
    requires FirstAbove(InOrder(t), lowerBound).Some?
    ensures forall x :: x in Values(t) && x > lowerBound ==> FirstAbove(InOrder(t), lowerBound).value <= x
  {
    var s := InOrder(t);
    SearchTreeInOrderAscending(t);
    InOrderHasValues(t);
    FirstAboveOfAscending(s, lowerBound);
    forall x | x in Values(t) && x > lowerBound
      ensures FirstAbove(s, lowerBound).value <= x
    {
      assert x in s;
      var j :| 0 <= j < |s| && s[j] == x;
    }
  }

  /** The search tree 5(3(1, 4), 8): the next value above 4 is 5, and none is above 8. */
  lemma SearchTreeExample()
    ensures var t := Node(0, 5, Node(1, 3, Node(3, 1, Nil, Nil), Node(4, 4, Nil, Nil)), Node(2, 8, Nil, Nil));
      IsSearchTree(t) && FirstAbove(InOrder(t), 4) == Some(5) && FirstAbove(InOrder(t), 8) == None
  {
    var t := Node(0, 5, Node(1, 3, Node(3, 1, Nil, Nil), Node(4, 4, Nil, Nil)), Node(2, 8, Nil, Nil));
    ExampleIsSearchTree();
    ExampleInOrder();
    ExampleFirstAbove();
  }

  lemma ExampleIsSearchTree()
    ensures IsSearchTree(Node(0, 5, Node(1, 3, Node(3, 1, Nil, Nil), Node(4, 4, Nil, Nil)), Node(2, 8, Nil, Nil)))
  {
    var l := Node(1, 3, Node(3, 1, Nil, Nil), Node(4, 4, Nil, Nil));
    assert Values(l) == {3, 1, 4};
    assert IsSearchTree(l);
  }

  lemma ExampleInOrder()
    ensures InOrder(Node(0, 5, Node(1, 3, Node(3, 1, Nil, Nil), Node(4, 4, Nil, Nil)), Node(2, 8, Nil, Nil))) == [1, 3, 4, 5, 8]
  {
    assert InOrder(Node(1, 3, Node(3, 1, Nil, Nil), Node(4, 4, Nil, Nil))) == [1, 3, 4];
  }

  lemma ExampleFirstAbove()
    ensures FirstAbove([1, 3, 4, 5, 8], 4) == Some(5) && FirstAbove([1, 3, 4, 5, 8], 8) == None
  {
    FirstAboveCons(1, [3, 4, 5, 8], 4);
    FirstAboveCons(3, [4, 5, 8], 4);
    FirstAboveCons(4, [5, 8], 4);
    FirstAboveCons(5, [8], 4);
    FirstAboveCons(1, [3, 4, 5, 8], 8);
    FirstAboveCons(3, [4, 5, 8], 8);
    FirstAboveCons(4, [5, 8], 8);
    FirstAboveCons(5, [8], 8);
    FirstAboveCons(8, [], 8);
    assert [1, 3, 4, 5, 8] == [1] + [3, 4, 5, 8] && [3, 4, 5, 8] == [3] + [4, 5, 8];
    assert [4, 5, 8] == [4] + [5, 8] && [5, 8] == [5] + [8] && [8] == [8] + [];
  }

  /**
   * Off a search tree the first value above the bound need not be the least:
   * in 5(8, 1) the walk meets 8 before 1.
   */
  lemma NotSearchTreeExample()
    ensures var t := Node(0, 5, Node(1, 8, Nil, Nil), Node(2, 1, Nil, Nil));
      !IsSearchTree(t) && FirstAbove(InOrder(t), 0) == Some(8) && 1 in Values(t)
  {
    var t := Node(0, 5, Node(1, 8, Nil, Nil), Node(2, 1, Nil, Nil));
    assert InOrder(t) == [8, 5, 1];
    assert 8 in Values(t.left) && 1 in Values(t.right);
    assert FirstAbove([8, 5, 1], 0) == Some(8);
  }
}
