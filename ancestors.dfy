/**
 * binary-tree.js `lowestCommonAncestor`: a recursive search that stops at the
 * first node that is either target and otherwise combines what the two
 * subtrees report.  Targets are node identities, as in `Cousins`.
 */
module Ancestors {
  import opened Options
  import opened BinaryTrees

  /** What `helper(node)` returns: the node itself, a node from one side, or `null`. */
  function Lca(t: BTree, a: nat, b: nat): (r: Option<BTree>)
    ensures r.Some? ==> r.value.Node? && Ids(r.value) <= Ids(t)
    ensures r.Some? ==> a in Ids(r.value) || b in Ids(r.value)
  {
    if t == Nil then None
    else if t.id == a || t.id == b then Some(t)
    else
      var leftSearch := Lca(t.left, a, b);
      var rightSearch := Lca(t.right, a, b);
      if leftSearch.Some? && rightSearch.Some? then Some(t)
      else if leftSearch.Some? then leftSearch
      else if rightSearch.Some? then rightSearch
      else None
  }

  /** The search finds nothing exactly when neither target occurs, and what it finds is a node of the tree. */
  lemma {:induction false} LcaNoneIffAbsent(t: BTree, a: nat, b: nat)
    ensures Lca(t, a, b).None? <==> a !in Ids(t) && b !in Ids(t)
    ensures Lca(t, a, b).Some? ==> Lca(t, a, b).value in NodesOf(t)
    decreases t
  {
    if t != Nil {
      LcaNoneIffAbsent(t.left, a, b);
      LcaNoneIffAbsent(t.right, a, b);
    }
  }

  /** With exactly one target present, the search returns that target's node, whichever of the two it is. */
  lemma {:induction false} LcaOnePresent(t: BTree, a: nat, b: nat)
    requires UniqueIds(t) && (a in Ids(t) <==> b !in Ids(t))
    ensures Lca(t, a, b).Some? && Lca(t, a, b).value.Node?
    ensures Lca(t, a, b).value.id == (if a in Ids(t) then a else b)
    ensures Lca(t, a, b).value in NodesOf(t)
    decreases t
  {
    LcaNoneIffAbsent(t, a, b);
    var x := if a in Ids(t) then a else b;
    if t.id != a && t.id != b {
      if x in Ids(t.left) {
        LcaOnePresent(t.left, a, b);
        LcaNoneIffAbsent(t.right, a, b);
      } else {
        LcaOnePresent(t.right, a, b);
        LcaNoneIffAbsent(t.left, a, b);
      }
    }
  }

  /** The two targets play the same part: `node === node1 || node === node2`. */
  lemma {:induction false} LcaSymmetric(t: BTree, a: nat, b: nat)
    ensures Lca(t, a, b) == Lca(t, b, a)
    decreases t
  {
    if t != Nil {
      LcaSymmetric(t.left, a, b);
      LcaSymmetric(t.right, a, b);
    }
  }

  /**
   * With both targets present, the search returns a node of the tree whose
   * subtree holds both, and neither child of that node holds both.
   */
  lemma {:induction false} LcaBothPresent(t: BTree, a: nat, b: nat)
    requires UniqueIds(t) && a in Ids(t) && b in Ids(t)
    ensures Lca(t, a, b).Some?
    ensures var n := Lca(t, a, b).value;
      && n in NodesOf(t)
      && a in Ids(n) && b in Ids(n)
      && !(a in Ids(n.left) && b in Ids(n.left))
      && !(a in Ids(n.right) && b in Ids(n.right))
    decreases t
  {
    if t.id != a && t.id != b {
      var inLeft := a in Ids(t.left) && b in Ids(t.left);
      var inRight := a in Ids(t.right) && b in Ids(t.right);
      if inLeft {
        LcaBothPresent(t.left, a, b);
        LcaNoneIffAbsent(t.right, a, b);
      } else if inRight {
        LcaBothPresent(t.right, a, b);
        LcaNoneIffAbsent(t.left, a, b);
      } else {
        LcaNoneIffAbsent(t.left, a, b);
        LcaNoneIffAbsent(t.right, a, b);
      }
    }
  }

  /** When one target's node holds the other target, that node is the answer. */
  lemma {:induction false} LcaAncestor(t: BTree, n: BTree, a: nat, b: nat)
    requires UniqueIds(t) && n in NodesOf(t)
    requires (n.id == a && b in Ids(n)) || (n.id == b && a in Ids(n))
    ensures Lca(t, a, b) == Some(n)
    decreases t
  {
    if n != t {
      NodesOfAreNodes(t, n);
      if n in NodesOf(t.left) {
        NodesOfAreNodes(t.left, n);
        LcaAncestor(t.left, n, a, b);
        LcaNoneIffAbsent(t.right, a, b);
      } else {
        NodesOfAreNodes(t.right, n);
        LcaAncestor(t.right, n, a, b);
        LcaNoneIffAbsent(t.left, a, b);
      }
    }
  }

  /** In 1(2(4), 3(5)) the nodes 4 and 5 meet at the root, and 2 is the answer for 2 and 4. */
  lemma LcaExample()
    ensures var t := Node(1, 1, Node(2, 2, Node(4, 4, Nil, Nil), Nil), Node(3, 3, Node(5, 5, Nil, Nil), Nil));
      Lca(t, 4, 5) == Some(t) && Lca(t, 2, 4) == Some(t.left) && Lca(t, 6, 7) == None
  {
  }
}
