/**
 * binary-tree.js `areCousins`: a depth-first walk records, for each of the two
 * target nodes, its parent and depth (the root at depth 0 with parent `null`);
 * the targets are cousins when both were found at equal depths under different
 * parents.  The closure variables `info1` and `info2` are passed into the walk
 * and handed back.  A target is a node identity; a target that is not in the
 * tree (the source's `null` among them) is an identity no node has.
 */
module Cousins {
  import opened Options
  import opened BinaryTrees

  /** `{ parent, depth }`: the parent's identity (`None` for `null`) and the depth. */
  datatype Info = Info(parent: Option<nat>, depth: nat)

  /** A later record replaces an earlier one. */
  function Override(earlier: Option<Info>, later: Option<Info>): Option<Info> {
    if later.Some? then later else earlier
  }

  /**
   * The record the walk leaves for target `x` when started at `t` with the
   * given parent and depth: the last node with identity `x` in pre-order.
   */
  function Locate(t: BTree, x: nat, parent: Option<nat>, depth: nat): Option<Info> {
    if t == Nil then None
    else
      var here := if t.id == x then Some(Info(parent, depth)) else None;
      Override(Override(here, Locate(t.left, x, Some(t.id), depth + 1)), Locate(t.right, x, Some(t.id), depth + 1))
  }

  /** What `areCousins` returns: both records present, equal depths, different parents. */
  function CousinsByRecords(t: BTree, node1: nat, node2: nat): bool {
    var info1 := Locate(t, node1, None, 0);
    var info2 := if node1 == node2 then None else Locate(t, node2, None, 0);
    && info1.Some?
    && info2.Some?
    && info1.value.depth == info2.value.depth
    && info1.value.parent != info2.value.parent
  }

  // ---------------------------------------------------------------------------
  // The walk and the query
  // ---------------------------------------------------------------------------

  method Dfs(node: BTree, parent: Option<nat>, depth: nat, node1: nat, node2: nat,
             info1: Option<Info>, info2: Option<Info>)
    returns (newInfo1: Option<Info>, newInfo2: Option<Info>)
    ensures newInfo1 == Override(info1, Locate(node, node1, parent, depth))
    ensures newInfo2 == if node1 == node2 then info2 else Override(info2, Locate(node, node2, parent, depth))
    decreases node
  {
    newInfo1, newInfo2 := info1, info2;
    if node == Nil {
      return;
    }
    if node.id == node1 {
      newInfo1 := Some(Info(parent, depth));
    } else if node.id == node2 {
      newInfo2 := Some(Info(parent, depth));
    }
    newInfo1, newInfo2 := Dfs(node.left, Some(node.id), depth + 1, node1, node2, newInfo1, newInfo2);
    newInfo1, newInfo2 := Dfs(node.right, Some(node.id), depth + 1, node1, node2, newInfo1, newInfo2);
  }

  method AreCousins(root: BTree, node1: nat, node2: nat) returns (cousins: bool)
    ensures cousins == CousinsByRecords(root, node1, node2)
  {
    var info1, info2 := Dfs(root, None, 0, node1, node2, None, None);
    cousins := info1.Some? && info2.Some? && info1.value.depth == info2.value.depth &&
      info1.value.parent != info2.value.parent;
  }

  // ---------------------------------------------------------------------------
  // What the records mean
  // ---------------------------------------------------------------------------

  /** The parent identity recorded for the node at path `p` (`parent` for the start node). */
  function ParentAt(t: BTree, p: seq<bool>, parent: Option<nat>): Option<nat>
    requires p != [] ==> NodeAt(t, p[..|p| - 1]).Node?
  {
    if p == [] then parent else Some(NodeAt(t, p[..|p| - 1]).id)
  }

  lemma {:induction false} LocateAbsent(t: BTree, x: nat, parent: Option<nat>, depth: nat)
    requires x !in Ids(t)
    ensures Locate(t, x, parent, depth) == None
    decreases t
  {
    if t != Nil {
      LocateAbsent(t.left, x, Some(t.id), depth + 1);
      LocateAbsent(t.right, x, Some(t.id), depth + 1);
    }
  }

  /** With distinct identities the walk records each target's true depth and parent. */
  lemma {:induction false} LocateAt(t: BTree, p: seq<bool>, x: nat, parent: Option<nat>, depth: nat)
    requires UniqueIds(t) && At(t, p, x)
    ensures p != [] ==> NodeAt(t, p[..|p| - 1]).Node?
    ensures Locate(t, x, parent, depth) == Some(Info(ParentAt(t, p, parent), depth + |p|))
    decreases |p|
  {
    if p == [] {
      LocateAbsent(t.left, x, Some(t.id), depth + 1);
      LocateAbsent(t.right, x, Some(t.id), depth + 1);
    } else {
      PrefixIsNode(t, p, |p| - 1);
      var c, other := if p[0] then t.right else t.left, if p[0] then t.left else t.right;
      var q := p[1..];
      AtInIds(c, q, x);
      LocateAbsent(other, x, Some(t.id), depth + 1);
      LocateAt(c, q, x, Some(t.id), depth + 1);
      if q != [] {
        assert p[..|p| - 1] == [p[0]] + q[..|q| - 1];
        assert p[..|p| - 1][1..] == q[..|q| - 1];
      }
    }
  }

  /**
   * With distinct identities, `areCousins` holds exactly when the two targets
   * sit at paths of equal, non-zero length whose parent paths differ.
   */
  lemma CousinsIffPaths(t: BTree, a: nat, b: nat)
    requires UniqueIds(t)
    ensures CousinsByRecords(t, a, b) <==>
      exists p, q :: && At(t, p, a) && At(t, q, b)
                     && |p| == |q| > 0 && p[..|p| - 1] != q[..|q| - 1]
  {
    if CousinsByRecords(t, a, b) {
      assert a != b;
      if a !in Ids(t) {
        LocateAbsent(t, a, None, 0);
      }
      if b !in Ids(t) {
        LocateAbsent(t, b, None, 0);
      }
      var p := PathTo(t, a);
      var q := PathTo(t, b);
      LocateAt(t, p, a, None, 0);
      LocateAt(t, q, b, None, 0);
      assert |p| == |q| > 0;
      assert p[..|p| - 1] != q[..|q| - 1];
    }
    if exists p, q :: && At(t, p, a) && At(t, q, b)
                      && |p| == |q| > 0 && p[..|p| - 1] != q[..|q| - 1] {
      var p, q :| && At(t, p, a) && At(t, q, b)
                  && |p| == |q| > 0 && p[..|p| - 1] != q[..|q| - 1];
      if a == b {
        PathUnique(t, p, q, a);
      }
      LocateAt(t, p, a, None, 0);
      LocateAt(t, q, b, None, 0);
      var pp, qq := p[..|p| - 1], q[..|q| - 1];
      if NodeAt(t, pp).id == NodeAt(t, qq).id {
        PathUnique(t, pp, qq, NodeAt(t, pp).id);
      }
    }
  }

  /** Two children of one node are not cousins. */
  lemma SiblingsAreNotCousins(t: BTree, p: seq<bool>, a: nat, b: nat)
    requires UniqueIds(t) && At(t, p + [false], a) && At(t, p + [true], b)
    ensures !CousinsByRecords(t, a, b)
  {
    CousinsIffPaths(t, a, b);
    forall p', q' | At(t, p', a) && At(t, q', b) && |p'| == |q'| > 0
      ensures p'[..|p'| - 1] == q'[..|q'| - 1]
    {
      PathUnique(t, p', p + [false], a);
      PathUnique(t, q', p + [true], b);
      assert (p + [false])[..|p|] == p == (p + [true])[..|p|];
    }
  }

  /** Only the root is recorded at depth 0. */
  lemma OnlyRootAtDepthZero(t: BTree, x: nat)
    requires UniqueIds(t) && t.Node? && x != t.id
    ensures Locate(t, x, None, 0).None? || Locate(t, x, None, 0).value.depth > 0
  {
    if x in Ids(t) {
      var p := PathTo(t, x);
      LocateAt(t, p, x, None, 0);
    } else {
      LocateAbsent(t, x, None, 0);
    }
  }

  /** A node is never its own cousin, and the root is nobody's cousin. */
  lemma NoSelfOrRootCousins(t: BTree, a: nat, b: nat)
    requires UniqueIds(t)
    ensures !CousinsByRecords(t, a, a)
    ensures t.Node? ==> !CousinsByRecords(t, t.id, b) && !CousinsByRecords(t, a, t.id)
  {
    if t.Node? {
      LocateAt(t, [], t.id, None, 0);
      if b != t.id {
        OnlyRootAtDepthZero(t, b);
      }
      if a != t.id {
        OnlyRootAtDepthZero(t, a);
      }
    }
  }

  /** In 1(2(4), 3(5)) the grandchildren 4 and 5 are cousins; 2 and 3 are not, and neither is 4 with itself. */
  lemma CousinsExample()
    ensures var t := Node(1, 1, Node(2, 2, Node(4, 4, Nil, Nil), Nil), Node(3, 3, Node(5, 5, Nil, Nil), Nil));
      CousinsByRecords(t, 4, 5) && !CousinsByRecords(t, 2, 3) && !CousinsByRecords(t, 4, 4)
  {
  }
}
