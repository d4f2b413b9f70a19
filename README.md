# dsa-trees in Dafny

This project models the two tree classes of the `dsa-trees` repository and proves what their queries compute.

- `BinaryTree` (binary-tree.js) is a binary tree of integer values. Its queries are:
  - `minDepth` and `maxDepth`;
  - `maxSum`, the best path sum where the path may bend at one node;
  - `nextLarger`, the first in-order value above a bound;
  - `areCousins`;
  - `lowestCommonAncestor`;
  - a text codec, `serialize` and `deserialize`.
- `Tree` (tree.js) is a general tree whose nodes have ordered lists of children. Its queries are the three aggregates `sumValues`, `countEvens` and `numGreater`.

Modules, one file each:

| file | module | what it holds |
|---|---|---|
| `options.dfy` | `Options` | the `Option` datatype, used for `null`/`undefined` |
| `binary_tree.dfy` | `BinaryTrees` | `BTree`; node identities; paths from the root (`NodeAt`, `At`) |
| `depths.dfy` | `Depths` | `maxDepth`; the breadth-first loop of `minDepth` |
| `path_sums.dfy` | `PathSums` | `maxSum` and its `helper` |
| `next_larger.dfy` | `InOrderSearch` | the explicit-stack in-order loop of `nextLarger` |
| `cousins.dfy` | `Cousins` | the depth-first walk of `areCousins` |
| `ancestors.dfy` | `Ancestors` | the recursive search of `lowestCommonAncestor` |
| `text.dfy` | `Text` | decimal form of integers, `parseInt`, `split(",")` |
| `codec.dfy` | `Codec` | `serialize`; `deserialize` consuming a token array through `shift()` |
| `nary_tree.dfy` | `NaryTrees` | `NTree` and the three loop-accumulating helpers of tree.js |

How the model is built:

- **Node identity.** A `BinaryTreeNode` is `Node(id, val, left, right)`, and `null` is `Nil`. The source compares nodes by reference (`===`), so here each node carries an `id`. `areCousins` and `lowestCommonAncestor` take target ids. The lemmas about them assume `UniqueIds`: no id occurs twice. They therefore cover only trees in which no node object is shared between two places, an assumption the JavaScript constructor does not enforce (`new BinaryTreeNode(v, n, n)` shares `n`). Nodes built by `deserialize` get distinct ids, which is proved (`Codec.DecodedIdsDistinct`).
- **Imperative code stays imperative.** The following are methods, each proved equal to a recursive specification function:
  - the queue loop of `minDepth`;
  - the stack loop of `nextLarger`;
  - `maxSum`'s helper, which updates the closure variable `result`;
  - the walk of `areCousins`, which updates `info1` and `info2`;
  - the `deserialize` helper, which shifts tokens off an array;
  - the `for … of` loops of tree.js.

  Closure variables are passed in and handed back. The token array is a field of the `TokenQueue` class.
- **Pure code stays pure.** `maxDepth`, `serialize` and `lowestCommonAncestor` are functions.
- **The `BinaryTree` and `Tree` wrappers** only hold a `root` that no query changes, so the root is a parameter: `BTree` for a binary tree, `Option<NTree>` for a general tree.

Where the documentation and the code disagree, the model follows the code:

- The comment on `minDepth` (binary-tree.js:15-18) speaks of edges. The code counts nodes: a single node has depth 1, and so does `maxDepth`.
- `nextLarger` is documented as returning the smallest value above the bound (binary-tree.js:75-78). The code returns the first such value in in-order. The two agree on binary search trees (`InOrderSearch.NextLargerOnSearchTree`). `InOrderSearch.NotSearchTreeExample` shows a tree where they differ.

## Model

| member | source | states |
|---|---|---|
| `Depths.MinDepthSearch` | binary-tree.js:19-38 | the breadth-first loop returns `MinDepth(root)`; 0 on an empty tree |
| `Depths.LeafAtFrontIsShallowest` | binary-tree.js:25-30 | the first leaf the queue yields is at the minimum depth |
| `Depths.DequeueInnerNode` | binary-tree.js:32-37 | dequeuing an inner node and enqueuing its children keeps the queue's invariants: depths non-decreasing, at most one level apart, the shallowest leaf still reachable. The queue also gets smaller in total subtree size |
| `Depths.MinDepthIsShallowestLeaf` | binary-tree.js:22-37 | on a non-empty tree, `minDepth` is the depth of a leaf and no leaf is shallower |
| `Depths.MaxDepth` | binary-tree.js:45-51 | `maxDepth` is 0 exactly on the empty tree and never exceeds the number of nodes |
| `Depths.MaxDepthIsDeepestLeaf` | binary-tree.js:45-51 | on a non-empty tree, `maxDepth` is the depth of a leaf and no leaf is deeper |
| `Depths.DepthsAgree` | binary-tree.js:19-51 | both depths are 0 exactly on the empty tree and both are 1 on a single node. Otherwise `1 <= minDepth <= maxDepth` |
| `PathSums.MaxSumHelper` | binary-tree.js:60-69 | `helper` returns the best one-sided downward sum, which is at least the node's value. The running result becomes the larger of its old value and the best candidate in the subtree |
| `PathSums.MaxSum` | binary-tree.js:57-73 | `maxSum` returns the best candidate. It returns `None` (the sentinel) exactly when the tree is empty |
| `PathSums.BestBoundsCandidates` | binary-tree.js:58-72 | the result is at least every node's candidate `max(0, down(l)) + max(0, down(r)) + val`, and so at least every node's value |
| `PathSums.BestIsSomeCandidate` | binary-tree.js:66 | on a non-empty tree the result is some node's candidate |
| `PathSums.DownIsBestDownwardPath` | binary-tree.js:63-68 | `helper`'s value is the largest sum of a downward path from its node |
| `PathSums.ThroughIsBestBentPath` | binary-tree.js:63-66 | a node's candidate is the largest sum of a path that bends at that node |
| `PathSums.MaxSumIsBestPath` | binary-tree.js:57-73 | `maxSum` is the largest sum over all paths of the tree, and there is no path exactly when the result is `None` |
| `PathSums.BentPathExample` | binary-tree.js:57-73 | the tree -1(2, 3) gives 4 |
| `InOrderSearch.NextLarger` | binary-tree.js:79-101 | the stack loop returns the first in-order value above the bound, or `None` |
| `InOrderSearch.FirstAboveSpec` | binary-tree.js:92-94 | the first value above the bound: `None` iff no element is above it. Otherwise it is an element above the bound and every earlier element is at most the bound |
| `InOrderSearch.NextLargerSpec` | binary-tree.js:79-101 | `nextLarger` returns `null` iff every value of the tree is at most the bound. Otherwise it returns a value of the tree above the bound |
| `InOrderSearch.SearchTreeInOrderAscending` | binary-tree.js:83-98 | on a binary search tree, the in-order walk visits values in strictly increasing order |
| `InOrderSearch.NextLargerOnSearchTree` | binary-tree.js:75-101 | on a binary search tree, the result is the least value of the tree above the bound |
| `InOrderSearch.SearchTreeExample` | binary-tree.js:79-101 | on the search tree of 5, 3, 8, 1, 4, the next value above 4 is 5 and there is none above 8 |
| `InOrderSearch.NotSearchTreeExample` | binary-tree.js:75-101 | on the tree 5(8, 1), the result above 0 is 8 although 1 is smaller |
| `Cousins.Dfs` | binary-tree.js:110-122 | the walk's records become the last pre-order match of each target, with its parent and depth. The second target is never recorded when it is the first |
| `Cousins.AreCousins` | binary-tree.js:107-133 | true iff both records exist, with equal depths and different parents |
| `Cousins.LocateAt` | binary-tree.js:110-124 | with distinct ids, the record for a node at path `p` holds depth equal to the length of `p` and the id of the node at `p` without its last step (`null` for the root) |
| `Cousins.CousinsIffPaths` | binary-tree.js:127-132 | with distinct ids: cousins iff both targets sit at paths of equal non-zero length whose parent paths differ |
| `Cousins.SiblingsAreNotCousins` | binary-tree.js:127-132 | the two children of one node are not cousins |
| `Cousins.OnlyRootAtDepthZero` | binary-tree.js:124 | every node other than the root is recorded at depth at least 1, if at all |
| `Cousins.NoSelfOrRootCousins` | binary-tree.js:113-131 | a node is not its own cousin, and the root is nobody's cousin |
| `Cousins.CousinsExample` | binary-tree.js:107-133 | in 1(2(4), 3(5)), 4 and 5 are cousins. Siblings 2 and 3 are not, nor is 4 with itself |
| `Ancestors.Lca` | binary-tree.js:169-186 | whatever the search returns is a node whose subtree lies inside the tree and holds at least one of the two targets |
| `Ancestors.LcaNoneIffAbsent` | binary-tree.js:168-189 | the search returns `null` iff neither target is in the tree, and what it returns is a node of the tree |
| `Ancestors.LcaOnePresent` | binary-tree.js:173-183 | if exactly one target is present, `node1` or `node2`, the search returns that target's node |
| `Ancestors.LcaSymmetric` | binary-tree.js:173 | swapping `node1` and `node2` does not change the result |
| `Ancestors.LcaBothPresent` | binary-tree.js:175-183 | if both targets are present, the result's subtree holds both and neither of its children holds both. So the result is the deepest common ancestor |
| `Ancestors.LcaAncestor` | binary-tree.js:173 | if one target's node has the other below it, that node is the answer |
| `Ancestors.LcaExample` | binary-tree.js:168-189 | in 1(2(4), 3(5)): 4 and 5 give the root, 2 and 4 give 2, and two absent targets give `null` |
| `Text.IntToString` | binary-tree.js:141 | the decimal form is non-empty, starts with `-` exactly for negative values, and is digits after that sign. It is canonical: there are no leading zeros, and the digits start with `0` only for the value 0 |
| `Text.ParseInt` | binary-tree.js:156 | reading succeeds exactly on an optional sign followed by at least one digit. A negative result needs a `-`, and a piece that reads as a number is never `X` and contains no `,` |
| `Text.Split` | binary-tree.js:151 | `split(",")` yields at least one piece, and no piece contains `,` |
| `Text.SplitJoin` | binary-tree.js:151 | joining the pieces back together with `,` gives the input |
| `Text.JoinSplit` | binary-tree.js:151 | splitting comma-free pieces joined with `,` gives those pieces back, so the split is the only comma-free decomposition |
| `Text.SplitCommaFree` | binary-tree.js:151 | a text without `,` is one piece |
| `Text.NatToStringDigits` | binary-tree.js:141 | the decimal form of a natural number is a non-empty run of digits that reads back as the number |
| `Text.ParseIntToString` | binary-tree.js:156 | `parseInt(String(v), 10)` is `v` for every integer |
| `Text.IntToStringIsField` | binary-tree.js:140-141 | an integer's decimal form is non-empty, contains no `,` and is not `X` |
| `Text.SplitField` | binary-tree.js:151 | a comma-free field followed by `,` splits off as one piece |
| `Codec.Serialize` | binary-tree.js:138-145 | the text ends in `,` and has at least 4n + 2 characters for n nodes: each of the n nodes and n + 1 absent children writes a non-empty field and a comma |
| `Codec.Decode` | binary-tree.js:153-160 | on success, decoding consumes at least one piece and leaves a suffix of its input |
| `Codec.TokenQueue.constructor` | binary-tree.js:151 | the queue holds the given pieces |
| `Codec.TokenQueue.Shift` | binary-tree.js:154 | `shift()` removes the first piece and returns it, or returns `undefined` (`None`) on an empty array |
| `Codec.DeserializeHelper` | binary-tree.js:153-160 | the consuming helper returns what `Decode` yields for the pieces it found. It leaves exactly the pieces `Decode` leaves, and fails exactly when `Decode` does |
| `Codec.Deserialize` | binary-tree.js:150-163 | `deserialize(data)` is the decoding of `data.split(",")`; leftover pieces are ignored |
| `Codec.SplitSerialize` | binary-tree.js:138-151 | splitting `serialize(t)` and then any text gives the pieces of `t`, followed by the pieces of that text |
| `Codec.DecodeEncode` | binary-tree.js:139-160 | decoding the pieces of a tree, followed by any pieces, succeeds. It leaves exactly those following pieces and rebuilds a tree of the same shape and values |
| `Codec.RoundTrip` | binary-tree.js:138-163 | `deserialize(serialize(t))` succeeds and has the shape and values of `t` |
| `Codec.DecodedIdsDistinct` | binary-tree.js:156 | the nodes of one decoding are distinct, and their ids lie in the range of pieces consumed |
| `Codec.EmptyTree` | binary-tree.js:140 | the empty tree serializes to `X,`, which decodes to the empty tree |
| `Codec.AbsentChildren` | binary-tree.js:140-141 | the pieces of a tree of `n` nodes contain `X` exactly `n + 1` times |
| `Codec.SerializeSmallTree` | binary-tree.js:138-145 | the tree 2(1, 3) serializes to `2,1,X,X,3,X,X,` |
| `Codec.SmallTreeExample` | binary-tree.js:150-163 | `2,1,X,X,3,X,X,` decodes to root 2 with leaf children 1 and 3 |
| `NaryTrees.SumValuesHelper` | tree.js:20-32 | the loop accumulator ends as the recursive sum of the subtree, which equals the sum of all its values; 0 for `null` |
| `NaryTrees.SumValues` | tree.js:16-18 | `sumValues` is the sum of all values; 0 on an empty tree |
| `NaryTrees.CountEvensHelper` | tree.js:41-53 | the loop accumulator ends as the number of values in the subtree whose JavaScript remainder by 2 is 0; 0 for `null` |
| `NaryTrees.CountEvens` | tree.js:37-39 | `countEvens` counts the even values, between 0 and the number of nodes |
| `NaryTrees.NumGreaterHelper` | tree.js:62-74 | the loop accumulator ends as the number of values in the subtree strictly above the bound; 0 for `null` |
| `NaryTrees.NumGreater` | tree.js:58-60 | `numGreater` counts the values strictly above the bound, between 0 and the number of nodes |
| `NaryTrees.SumIsSumOfValues` | tree.js:24-31 | the recursive sum equals the sum of the pre-order list of values |
| `NaryTrees.EvensIsCountOfValues` | tree.js:45-52 | the recursive even count equals the number of even values in the pre-order list |
| `NaryTrees.GreaterIsCountOfValues` | tree.js:66-73 | the recursive count equals the number of values above the bound in the pre-order list |
| `NaryTrees.SizeIsLength` | tree.js:1-6 | the node count equals the length of the list of values |
| `NaryTrees.EvenAgreesWithEuclid` | tree.js:45 | the truncating `val % 2 === 0` holds exactly for the even integers, negative ones included |
| `NaryTrees.AggregateBounds` | tree.js:41-74 | both counts lie between 0 and the number of nodes |
| `NaryTrees.NumGreaterAntitone` | tree.js:66 | raising the bound never increases `numGreater` |
| `NaryTrees.SumByPermutation` | tree.js:27-29 | a sum over a list of children does not depend on the children's order |
| `NaryTrees.RearrangedPreservesAggregates` | tree.js:20-74 | reordering the children of any nodes, at any depth, leaves all three aggregates unchanged. `RearrangedReflexive` and `ChildrenPermuted` show that its precondition can be met |
| `NaryTrees.ChildrenPermuted` | tree.js:27-29 | any reordering of the root's children that keeps the same children is a rearrangement |
| `NaryTrees.SmallTreeExample` | tree.js:16-74 | root 1 with children 2 and 3 has sum 6, one even value and two values above 1 |

## Left out

- Language glue is not modelled:
  - `module.exports` (binary-tree.js:192, tree.js:77);
  - the constructors' default arguments;
  - the `BinaryTree` and `Tree` wrapper objects, whose `root` no query changes, so each query takes the root as a parameter.
- JavaScript numbers are not modelled. Values are unbounded integers: no floating point, no `NaN`, no precision loss past 2^53.
- Call-stack depth is not modelled. On a very deep tree the recursive queries throw a `RangeError` in the source: `maxDepth`, `maxSum`'s helper, the `areCousins` walk, `serialize`, `deserialize` and `lowestCommonAncestor` in binary-tree.js, and `_sumValuesHelper`, `_countEvensHelper` and `_numGreaterHelper` in tree.js. The model returns the result.
- PathSums.MaxSum: the empty-tree sentinel `Number.MIN_SAFE_INTEGER` (binary-tree.js:58) is `None`, "no path seen yet". Consequences:
  - The model does not claim the source's numeric result.
  - The model does not cover a tree whose best candidate lies below `Number.MIN_SAFE_INTEGER`, −(2^53 − 1).
- Cousins.AreCousins: the result is a `bool`. The source's `&&` chain can return `undefined` when a record is missing, which is falsy.
- Targets in `areCousins` and `lowestCommonAncestor` are node ids. A `null` target, or a node from another tree, is an id that no node of the tree carries.
- Codec.Decode: some pieces of the split text make the source do something the model does not:
  - Pieces `parseInt` reads leniently (leading blanks, trailing garbage such as `12abc`, `0x` prefixes) are failures (`None`). So are pieces it reads as `NaN`, such as the empty piece. The source builds a node with value `NaN` or with the leading number.
  - Running out of pieces is a failure. `shift()` then yields `undefined`, which is not `"X"`, and the source recurses without end.

  `Codec.DeserializeHelper` and `Codec.Deserialize` follow the same choices.
- Text.IntToString: the exponent forms JavaScript prints for very large or very small numbers are not modelled. Neither are fractional values or `-0`: every value is an integer printed in plain decimal.
- Codec.DeserializeHelper: the model does not link `node.left` and `node.right` in place. The source creates the node before decoding its children and then assigns them. The model builds the node after both children are decoded, which yields the same tree.
- `minDepth` falling off the end of its loop (binary-tree.js:38) cannot happen, because a non-empty tree always has a leaf. The model proves the loop ends at a leaf.
