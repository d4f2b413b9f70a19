/**
 * binary-tree.js `serialize` and `deserialize`.  Serialization writes the tree
 * in pre-order, each node as its value followed by `,` and each absent child
 * as `X,`.  Deserialization splits the text on `,` and consumes the pieces
 * front to back with `shift()`.  Each node it builds is a new object; here it
 * gets as identity the number of pieces left when its piece was shifted,
 * which no other node of the same decoding shares.
 */
module Codec {
  import opened Options
  import opened BinaryTrees
  import opened Text

  /** `serialize(tree)`: every node and every absent child writes a non-empty field and a `,`. */
  function Serialize(t: BTree): (s: string)
    ensures |s| >= 4 * Size(t) + 2 && s[|s| - 1] == ','
  {
    if t == Nil then "X," else IntToString(t.val) + "," + Serialize(t.left) + Serialize(t.right)
  }

  /** The pieces `serialize` writes, one per node or absent child. */
  function Encode(t: BTree): seq<string> {
    if t == Nil then ["X"] else [IntToString(t.val)] + Encode(t.left) + Encode(t.right)
  }

  /** Equal up to node identity: same shape and same values. */
  predicate SameShape(a: BTree, b: BTree) {
    if a == Nil || b == Nil then a == b
    else a.val == b.val && SameShape(a.left, b.left) && SameShape(a.right, b.right)
  }

  predicate IsSuffix(rest: seq<string>, toks: seq<string>) {
    |rest| <= |toks| && rest == toks[|toks| - |rest|..]
  }

  /**
   * What `helper()` builds from the pieces `toks`, and the pieces it leaves.
   * Running out of pieces (where the source would recurse without end) and a
   * piece that is neither `X` nor an integer are failures.
   */
  function Decode(toks: seq<string>): (r: Option<(BTree, seq<string>)>)
    ensures r.Some? ==> IsSuffix(r.value.1, toks) && |r.value.1| < |toks|
    decreases |toks|
  {
    if toks == [] then None
    else if toks[0] == "X" then Some((Nil, toks[1..]))
    else match ParseInt(toks[0])
      case None => None
      case Some(v) =>
        match Decode(toks[1..])
        case None => None
        case Some((left, afterLeft)) =>
          match Decode(afterLeft)
          case None => None
          case Some((right, afterRight)) => Some((Node(|toks|, v, left, right), afterRight))
  }

  /** `deserialize(data)`: decode the pieces of `data`; pieces left over are ignored. */
  function DeserializeSpec(data: string): Option<BTree> {
    match Decode(Split(data))
    case None => None
    case Some((t, _)) => Some(t)
  }

  // ---------------------------------------------------------------------------
  // The consuming decoder
  // ---------------------------------------------------------------------------

  /** The array `nodes` that `helper` shifts pieces off. */
  class TokenQueue {
    var nodes: seq<string>

    constructor (nodes: seq<string>)
      ensures this.nodes == nodes
    {
      this.nodes := nodes;
    }

    /** `nodes.shift()`: the first piece, or `undefined` when none is left. */
    method Shift() returns (tok: Option<string>)
      modifies this
      ensures old(nodes) == [] ==> tok == None && nodes == []
      ensures old(nodes) != [] ==> tok == Some(old(nodes)[0]) && nodes == old(nodes)[1..]
    {
      if nodes == [] {
        tok := None;
      } else {
        tok := Some(nodes[0]);
        nodes := nodes[1..];
      }
    }
  }

  method DeserializeHelper(q: TokenQueue) returns (t: Option<BTree>)
    modifies q
    ensures IsSuffix(q.nodes, old(q.nodes))
    ensures Decode(old(q.nodes)).None? ==> t == None
    ensures Decode(old(q.nodes)).Some? ==> t == Some(Decode(old(q.nodes)).value.0) && q.nodes == Decode(old(q.nodes)).value.1
    decreases |q.nodes|
  {
    var id := |q.nodes|;
    var val := q.Shift();
    if val.None? {
      return None;
    }
    if val.value == "X" {
      return Some(Nil);
    }
    var v := ParseInt(val.value);
    if v.None? {
      return None;
    }
    ghost var afterVal := q.nodes;
    var left := DeserializeHelper(q);
    if left.None? {
      return None;
    }
    ghost var afterLeft := q.nodes;
    var right := DeserializeHelper(q);
    if right.None? {
      return None;
    }
    assert IsSuffix(q.nodes, afterLeft) && IsSuffix(afterLeft, afterVal);
    t := Some(Node(id, v.value, left.value, right.value));
  }

  method Deserialize(data: string) returns (t: Option<BTree>)
    ensures t == DeserializeSpec(data)
  {
    var q := new TokenQueue(Split(data));
    t := DeserializeHelper(q);
  }

  // ---------------------------------------------------------------------------
  // Properties
  // ---------------------------------------------------------------------------

  /** The text `serialize` writes splits into exactly its pieces, the text after it apart. */
  lemma {:induction false} SplitSerialize(t: BTree, s: string)
    ensures Split(Serialize(t) + s) == Encode(t) + Split(s)
    decreases t
  {
    if t == Nil {
      SplitAbsent(s);
    } else {
      var f := IntToString(t.val);
      var el, er := Encode(t.left), Encode(t.right);
      SplitNode(t, s);
      SplitSerialize(t.left, Serialize(t.right) + s);
      SplitSerialize(t.right, s);
      Regroup4([f], el, er, Split(s));
    }
  }

  /** An absent child's text splits into the single piece `X`. */
  lemma SplitAbsent(s: string)
    ensures Split(Serialize(Nil) + s) == Encode(Nil) + Split(s)
  {
    SplitField("X", s);
    assert Serialize(Nil) + s == "X" + "," + s;
  }

  /** A node's text splits into its value's piece, then the pieces of its subtrees' text. */
  lemma SplitNode(t: BTree, s: string)
    requires t.Node?
    ensures Split(Serialize(t) + s) == [IntToString(t.val)] + Split(Serialize(t.left) + (Serialize(t.right) + s))
  {
    var f := IntToString(t.val);
    var l, r := Serialize(t.left), Serialize(t.right);
    IntToStringIsField(t.val);
    assert Serialize(t) + s == f + "," + l + r + s;
    SplitNodeText(f, l, r, s);
  }

  /** One node's text: its field, a comma, then the texts of its two subtrees. */
  lemma SplitNodeText(f: string, l: string, r: string, s: string)
    requires ',' !in f
    ensures Split(f + "," + l + r + s) == [f] + Split(l + (r + s))
  {
    Regroup(f, ",", l, r, s);
    SplitField(f, l + (r + s));
  }

  // Regroup4, Regroup and SplitHead are plain facts about `+` on sequences.
  // Stating them apart keeps each proof obligation above them small.

  lemma Regroup4<T>(a: seq<T>, b: seq<T>, c: seq<T>, d: seq<T>)
    ensures a + b + c + d == a + (b + (c + d))
  {
  }

  lemma Regroup<T>(a: seq<T>, b: seq<T>, c: seq<T>, d: seq<T>, e: seq<T>)
    ensures a + b + c + d + e == a + b + (c + (d + e))
  {
  }

  /** Decoding the pieces of a tree gives a tree of the same shape and leaves the pieces after it. */
  lemma {:induction false} DecodeEncode(t: BTree, rest: seq<string>)
    ensures Decode(Encode(t) + rest).Some?
    ensures Decode(Encode(t) + rest).value.1 == rest
    ensures SameShape(Decode(Encode(t) + rest).value.0, t)
    decreases t
  {
    var toks := Encode(t) + rest;
    if t == Nil {
      assert toks[0] == "X" && toks[1..] == rest;
    } else {
      var f := IntToString(t.val);
      var afterLeft := Encode(t.right) + rest;
      IntToStringIsField(t.val);
      ParseIntToString(t.val);
      SplitHead(f, Encode(t.left), Encode(t.right), rest);
      DecodeEncode(t.left, afterLeft);
      DecodeEncode(t.right, rest);
      DecodeNode(toks, t.val);
    }
  }

  /**
   * The first piece of a node's pieces is its value; the rest are its subtrees'
   * pieces.  Stated apart only to keep `DecodeEncode` small.
   */
  lemma SplitHead<T>(x: T, a: seq<T>, b: seq<T>, c: seq<T>)
    ensures ([x] + a + b + c)[0] == x
    ensures ([x] + a + b + c)[1..] == a + (b + c)
  {
  }

  /** Decoding a value piece followed by the pieces of two subtrees builds a node. */
  lemma DecodeNode(toks: seq<string>, v: int)
    requires toks != [] && toks[0] != "X" && ParseInt(toks[0]) == Some(v)
    requires Decode(toks[1..]).Some? && Decode(Decode(toks[1..]).value.1).Some?
    ensures var (left, afterLeft) := Decode(toks[1..]).value;
      var (right, afterRight) := Decode(afterLeft).value;
      Decode(toks) == Some((Node(|toks|, v, left, right), afterRight))
  {
  }

  /** `deserialize(serialize(t))` rebuilds `t`: the same shape and the same values. */
  lemma RoundTrip(t: BTree)
    ensures DeserializeSpec(Serialize(t)).Some?
    ensures SameShape(DeserializeSpec(Serialize(t)).value, t)
  {
    SplitSerialize(t, "");
    assert Serialize(t) + "" == Serialize(t);
    DecodeEncode(t, Split(""));
  }

  /** The nodes one decoding builds carry distinct identities. */
  lemma {:induction false} DecodedIdsDistinct(toks: seq<string>)
    requires Decode(toks).Some?
    ensures var (t, rest) := Decode(toks).value;
      UniqueIds(t) && forall x :: x in Ids(t) ==> |rest| < x <= |toks|
    decreases |toks|
  {
    if toks[0] != "X" {
      var (left, afterLeft) := Decode(toks[1..]).value;
      DecodedIdsDistinct(toks[1..]);
      DecodedIdsDistinct(afterLeft);
    }
  }

  /** The empty tree serializes to `X,`, and reading that back gives the empty tree. */
  lemma EmptyTree()
    ensures Serialize(Nil) == "X,"
    ensures DeserializeSpec("X,") == Some(Nil)
  {
    SplitField("X", "");
    assert "X" + "," + "" == "X,";
  }

  /** A tree of `n` nodes has `n + 1` absent children, each written as `X`. */
  lemma {:induction false} AbsentChildren(t: BTree)
    ensures multiset(Encode(t))["X"] == Size(t) + 1
    decreases t
  {
    if t != Nil {
      IntToStringIsField(t.val);
      AbsentChildren(t.left);
      AbsentChildren(t.right);
    }
  }

  /** `2,1,X,X,3,X,X,` is the tree 2(1, 3). */
  lemma SmallTreeExample()
    ensures var t := DeserializeSpec("2,1,X,X,3,X,X,");
      && t.Some? && t.value.Node? && t.value.val == 2
      && t.value.left.Node? && t.value.left.val == 1 && IsLeaf(t.value.left)
      && t.value.right.Node? && t.value.right.val == 3 && IsLeaf(t.value.right)
  {
    var t := Node(0, 2, Node(1, 1, Nil, Nil), Node(2, 3, Nil, Nil));
    SerializeSmallTree();
    RoundTrip(t);
    ShapeOfSmallTree(DeserializeSpec(Serialize(t)).value);
  }

  /** A tree shaped like 2(1, 3) is a root 2 with leaf children 1 and 3. */
  lemma ShapeOfSmallTree(r: BTree)
    requires SameShape(r, Node(0, 2, Node(1, 1, Nil, Nil), Node(2, 3, Nil, Nil)))
    ensures r.Node? && r.val == 2
    ensures r.left.Node? && r.left.val == 1 && IsLeaf(r.left)
    ensures r.right.Node? && r.right.val == 3 && IsLeaf(r.right)
  {
    assert SameShape(r.left, Node(1, 1, Nil, Nil)) && SameShape(r.right, Node(2, 3, Nil, Nil));
    assert SameShape(r.left.left, Nil) && SameShape(r.left.right, Nil);
    assert SameShape(r.right.left, Nil) && SameShape(r.right.right, Nil);
  }

  lemma SerializeSmallTree()
    ensures Serialize(Node(0, 2, Node(1, 1, Nil, Nil), Node(2, 3, Nil, Nil))) == "2,1,X,X,3,X,X,"
  {
    assert IntToString(2) == "2" && IntToString(1) == "1" && IntToString(3) == "3";
    assert Serialize(Node(1, 1, Nil, Nil)) == "1,X,X,";
    assert Serialize(Node(2, 3, Nil, Nil)) == "3,X,X,";
  }
}
