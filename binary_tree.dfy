/**
 * binary-tree.js: the data model.  A BinaryTreeNode is a `Node`; an absent
 * child (`null`) and an empty BinaryTree (`root === null`) are `Nil`.  The
 * source compares nodes by reference (`===`); here every node carries an `id`,
 * and two positions hold the same node exactly when their ids agree, which is
 * sound for trees in which ids are pairwise distinct (`UniqueIds`).
 */
module BinaryTrees {

  datatype BTree = Nil | Node(id: nat, val: int, left: BTree, right: BTree)

  /** `Math.max` and `Math.min` on two integers. */
  function Max(a: int, b: int): int {
    if a >= b then a else b
  }

  function Min(a: int, b: int): int {
    if a <= b then a else b
  }

  predicate IsLeaf(t: BTree) {
    t.Node? && t.left == Nil && t.right == Nil
  }

  function Size(t: BTree): nat {
    if t == Nil then 0 else 1 + Size(t.left) + Size(t.right)
  }

  /** The identities of all nodes. */
  function Ids(t: BTree): set<nat> {
    if t == Nil then {} else {t.id} + Ids(t.left) + Ids(t.right)
  }

  /**
   * No node reference occurs twice.  The lemmas that compare nodes by identity
   * cover such trees only; the JavaScript constructor does not enforce it
   * (`new BinaryTreeNode(v, n, n)` shares one node between two places).
   */
  predicate UniqueIds(t: BTree) {
    t == Nil ||
    (&& t.id !in Ids(t.left)
     && t.id !in Ids(t.right)
     && Ids(t.left) !! Ids(t.right)
     && UniqueIds(t.left)
     && UniqueIds(t.right))
  }

  /** The values of all nodes. */
  function Values(t: BTree): set<int> {
    if t == Nil then {} else {t.val} + Values(t.left) + Values(t.right)
  }

  /** Every node of the tree, as the subtree it roots. */
  ghost function NodesOf(t: BTree): (ns: set<BTree>)
    ensures forall n :: n in ns ==> n.Node?
  {
    if t == Nil then {} else {t} + NodesOf(t.left) + NodesOf(t.right)
  }

  /** The subtree reached by following `p` from the root (`true` = right, `false` = left). */
  function NodeAt(t: BTree, p: seq<bool>): BTree
    decreases |p|
  {
    if p == [] then t
    else if t == Nil then Nil
    else NodeAt(if p[0] then t.right else t.left, p[1..])
  }

  /** The node with identity `x` sits at path `p`. */
  ghost predicate At(t: BTree, p: seq<bool>, x: nat) {
    NodeAt(t, p).Node? && NodeAt(t, p).id == x
  }

  lemma {:induction false} NodesOfAreNodes(t: BTree, n: BTree)
    requires n in NodesOf(t)
    ensures n.Node? && n.id in Ids(t) && Ids(n) <= Ids(t)
    decreases t
  {
    if n != t {
      if n in NodesOf(t.left) {
        NodesOfAreNodes(t.left, n);
      } else {
        NodesOfAreNodes(t.right, n);
      }
    }
  }

  lemma {:induction false} AtInIds(t: BTree, p: seq<bool>, x: nat)
    requires At(t, p, x)
    ensures x in Ids(t)
    decreases |p|
  {
    if p != [] {
      AtInIds(if p[0] then t.right else t.left, p[1..], x);
    }
  }

  /** Every identity in the tree has a path. */
  lemma {:induction false} PathTo(t: BTree, x: nat) returns (p: seq<bool>)
    requires x in Ids(t)
    ensures At(t, p, x)
    decreases t
  {
    if t.id == x {
      p := [];
    } else if x in Ids(t.left) {
      var q := PathTo(t.left, x);
      p := [false] + q;
      assert p[1..] == q;
    } else {
      var q := PathTo(t.right, x);
      p := [true] + q;
      assert p[1..] == q;
    }
  }

  /** With distinct identities, a node has exactly one path. */
  lemma {:induction false} PathUnique(t: BTree, p: seq<bool>, q: seq<bool>, x: nat)
    requires UniqueIds(t) && At(t, p, x) && At(t, q, x)
    ensures p == q
    decreases |p|
  {
    if p == [] && q != [] {
      AtInIds(if q[0] then t.right else t.left, q[1..], x);
    } else if p != [] && q == [] {
      AtInIds(if p[0] then t.right else t.left, p[1..], x);
    } else if p != [] && q != [] {
      var cp := if p[0] then t.right else t.left;
      var cq := if q[0] then t.right else t.left;
      AtInIds(cp, p[1..], x);
      AtInIds(cq, q[1..], x);
      assert p[0] == q[0];
      PathUnique(cp, p[1..], q[1..], x);
      assert p == [p[0]] + p[1..] && q == [q[0]] + q[1..];
    }
  }

  /** Every proper prefix of the path to a node leads to a node too. */
  lemma {:induction false} PrefixIsNode(t: BTree, p: seq<bool>, k: nat)
    requires NodeAt(t, p).Node? && k <= |p|
    ensures NodeAt(t, p[..k]).Node?
    decreases |p|
  {
    if k > 0 {
      assert p[..k][0] == p[0] && p[..k][1..] == p[1..][..k - 1];
      PrefixIsNode(if p[0] then t.right else t.left, p[1..], k - 1);
    }
  }
}
