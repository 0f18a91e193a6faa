# A verified model of a point-region quadtree

This project models, in Dafny, the quadtree of `include/Quadtree.h` and the
two value types it is built on, `include/Box.h` and `include/Vector2.h`.

The quadtree stores values of any type `T` under a root box. The caller
supplies a callable `contain(box, value)`. Every node keeps a bag of values.
A node has either no children (a leaf) or exactly four children, one per
quadrant of its box: top-left, top-right, bottom-left, bottom-right.

- **add** descends into the first quadrant, in order 0..3, that contains the
  value. When no quadrant does, the value stays in the bag of the interior
  node it reached. A leaf holding `Threshold` (16) values above depth
  `MaxDepth` (8) is split before the insertion is retried at that node.
- **remove** follows the same descent and erases the first equal element.
  After erasing from a leaf, it tries to merge that leaf's parent.
- **query** collects the stored values that meet a query box. It skips every
  quadrant that misses the query box.
- **findAllIntersections** reports the intersecting pairs among the pairs it
  tests. These are the pairs inside one bag, each bag value against every
  value below the node, and, recursively, the pairs inside each child.

The project has five modules:

- `vectors.dfy`: `Vectors`, the `Vector2` value type. The compound
  assignments are methods that mirror their two field updates.
- `boxes.dfy`: `Boxes`, the `Box` value type and its predicates.
- `quadtree_spec.dfy`: `QuadtreeSpec`, a pure model of a tree as a datatype.
  It has the functions `Split`, `Add`, `TryMerge` and `Remove`, which give
  the tree each operation leaves behind. Its lemmas cover the stored
  multiset, placement, the depth and size bounds and the merge rule.
- `quadtree_search.dfy`: `QuadtreeSearch`. The functions `Queried` and
  `Tested` list what query appends and which pairs findAllIntersections
  tests, in the source's order. The lemmas relate both to brute-force
  searches over all stored values.
- `quadtrees.dfy`: `Quadtrees`, the imperative model, which keeps the
  source's form:
  - `Node` is a class with the mutable fields `values` and `children`, a
    ghost tree `M` and a ghost footprint `Repr`;
  - `Quadtree` holds the box, the `contain` callable and the root node;
  - each source routine is a method with the source's loops, proved to
    leave the nodes in the state the pure model predicts.

Coordinates are `real`, so halving a box is exact.

## Model

| member | source | states |
|---|---|---|
| Vectors.Vector2.Min | include/Vector2.h:115-118 | each component is at most both inputs' components and equals one of them |
| Vectors.Vector2.Max | include/Vector2.h:120-123 | each component is at least both inputs' components and equals one of them |
| Vectors.Vector2.PlusAssign | include/Vector2.h:47-52 | updating x and then y gives the componentwise sum |
| Vectors.Vector2.MinusAssign | include/Vector2.h:54-59 | updating x and then y gives the componentwise difference |
| Vectors.Vector2.TimesAssign | include/Vector2.h:61-66 | updating x and then y gives the vector scaled by t |
| Vectors.Vector2.DivideAssign | include/Vector2.h:68-73 | updating x and then y gives the vector divided by a non-zero t |
| Vectors.Vector2.Equals | include/Vector2.h:32-35 | no contract of its own; `EqualsIsIdentity` shows it is exactly equality of vectors |
| Vectors.Vector2.NotEquals | include/Vector2.h:37-40 | no contract of its own; `EqualsIsIdentity` shows it is the negation of `Equals` |
| Vectors.Vector2.Negated | include/Vector2.h:42-45 | no contract of its own; `PlusMinusComponentwise` shows adding the negation is subtraction |
| Vectors.Vector2.Orthogonal | include/Vector2.h:75-78 | no contract of its own; `OrthogonalIsPerpendicular` shows it is perpendicular to the vector |
| Vectors.Vector2.Dot | include/Vector2.h:80-83 | no contract of its own; `OrthogonalIsPerpendicular` and `ScaleIsLinear` characterise it |
| Vectors.Vector2.SquaredNorm | include/Vector2.h:85-88 | no contract of its own; `SquaredDistanceIsDistanceLike` shows the derived distance is non-negative, symmetric and zero on equal points |
| Vectors.Vector2.SquaredDistance | include/Vector2.h:100-103 | no contract of its own; characterised by `SquaredDistanceIsDistanceLike` |
| Vectors.Vector2.Det | include/Vector2.h:110-113 | no contract of its own; `DetAntisymmetric` shows it is antisymmetric and zero on a vector with itself |
| Vectors.Plus | include/Vector2.h:126-131 | no contract of its own; `PlusMinusComponentwise` shows it is componentwise and undone by `Minus` |
| Vectors.Minus | include/Vector2.h:133-138 | no contract of its own; `PlusMinusComponentwise` shows it is componentwise and undone by `Plus` |
| Vectors.Scale | include/Vector2.h:140-145 | no contract of its own; `ScaleIsLinear` shows it is linear, and `DivideUndoesScale` that division inverts it |
| Vectors.ScaleRight | include/Vector2.h:147-151 | no contract of its own; `ScaleIsLinear` shows it agrees with `Scale` |
| Vectors.Divide | include/Vector2.h:153-158 | requires a non-zero divisor (see "## Left out"); otherwise no contract of its own; `DivideUndoesScale` shows it inverts `Scale` |
| Vectors.EqualsIsIdentity | include/Vector2.h:32-40 | `==` holds exactly for equal vectors, is reflexive, and `!=` is its negation |
| Vectors.PlusMinusComponentwise | include/Vector2.h:42-59 | `+` and `-` act componentwise, `(a + b) - b == a`, `(a - b) + b == a`, and `a + (-b) == a - b` |
| Vectors.OrthogonalIsPerpendicular | include/Vector2.h:75-83 | a vector is perpendicular to its orthogonal vector |
| Vectors.DetAntisymmetric | include/Vector2.h:110-113 | the determinant changes sign when the arguments swap and is 0 for a vector with itself |
| Vectors.SquaredDistanceIsDistanceLike | include/Vector2.h:100-103 | the squared distance is symmetric, non-negative, and 0 from a point to itself |
| Vectors.DivideUndoesScale | include/Vector2.h:153-158 | dividing by a non-zero t undoes scaling by t |
| Vectors.ScaleIsLinear | include/Vector2.h:126-151 | `v * t` equals `t * v`, and scaling distributes over `+`, composes by multiplying the factors, has 1 as neutral factor, and factors out of the dot product |
| Boxes.Box.GetRight | include/Box.h:29-32 | no contract of its own; characterised by `AccessorsAgree` |
| Boxes.Box.GetBottom | include/Box.h:34-37 | no contract of its own; characterised by `AccessorsAgree` |
| Boxes.Box.GetTopLeft | include/Box.h:39-42 | no contract of its own; `FromPositionSize` shows it returns the position the box was built from |
| Boxes.Box.GetBottomRight | include/Box.h:44-47 | no contract of its own; `AccessorsAgree` shows it is the top-left corner plus the size |
| Boxes.Box.GetCenter | include/Box.h:49-52 | no contract of its own; `AccessorsAgree` shows it lies in the closure of a box with non-negative size |
| Boxes.Box.GetSize | include/Box.h:54-57 | no contract of its own; `FromPositionSize` shows it returns the size the box was built from |
| Boxes.Box.GetArea | include/Box.h:59-62 | no contract of its own; `AccessorsAgree` shows it is the product of the size's components, non-negative for a box with non-negative size |
| Boxes.Box.ContainsPoint | include/Box.h:64-69 | no contract of its own; `ContainsPointHalfOpen` shows it is the half-open test that `AlmostContains` closes |
| Boxes.Box.AlmostContains | include/Box.h:71-77 | no contract of its own; characterised by `ContainsPointHalfOpen` and `AccessorsAgree` |
| Boxes.Box.ContainsBox | include/Box.h:79-84 | no contract of its own; `ContainsBoxReflexive`, `ContainsBoxTransitive`, `ContainsThenIntersects` and `DisjointContainers` characterise it |
| Boxes.Box.Intersects | include/Box.h:86-90 | no contract of its own; `IntersectsSymmetric`, `IntersectsImpliesAlmost` and `SharedEdgeIsNotIntersection` characterise it |
| Boxes.Box.AlmostIntersects | include/Box.h:92-96 | no contract of its own; characterised by `IntersectsImpliesAlmost` and `SharedEdgeIsNotIntersection` |
| Boxes.FromPositionSize | include/Box.h:23-27 | the box built from a position and a size has that top-left corner and that size |
| Boxes.AccessorsAgree | include/Box.h:29-57 | right and bottom are left + width and top + height, the bottom-right corner is top-left + size, and a box of non-negative size almost-contains its centre |
| Boxes.IntersectsSymmetric | include/Box.h:86-96 | intersects and almostIntersects are symmetric |
| Boxes.IntersectsImpliesAlmost | include/Box.h:86-96 | boxes that intersect also almost-intersect |
| Boxes.SharedEdgeIsNotIntersection | include/Box.h:86-96 | boxes of non-negative size that share only a vertical or only a horizontal edge almost-intersect but do not intersect |
| Boxes.ContainsBoxReflexive | include/Box.h:79-84 | every box contains itself |
| Boxes.ContainsBoxTransitive | include/Box.h:79-84 | box containment is transitive |
| Boxes.ContainsThenIntersects | include/Box.h:79-90 | a box containing a box that meets c also meets c, which is the pruning step of query |
| Boxes.DisjointContainers | include/Box.h:79-90 | boxes inside two non-intersecting boxes do not intersect |
| Boxes.ContainsPointHalfOpen | include/Box.h:64-77 | point containment excludes the right and bottom edges and implies almostContains; a box of positive size contains its top-left corner |
| QuadtreeSpec.ComputeBox | include/Quadtree.h:80-98 | requires a child index below 4, the assert of include/Quadtree.h:95; otherwise no contract of its own; `QuadrantsPartition` shows the four quadrants lie inside the box and do not overlap, and `QuadrantsCover` that together they cover it |
| QuadtreeSpec.Shaped | include/Quadtree.h:65-69 | no contract of its own; a node has either no children or all four, as `isLeaf` (include/Quadtree.h:75-78) assumes |
| QuadtreeSpec.Flatten | include/Quadtree.h:65-69 | no contract of its own; the stored values in pre-order; `AddContents`, `RemoveCount`, `SplitContents` and `TryMergeFlatten` state how each operation changes it |
| QuadtreeSpec.Placed | include/Quadtree.h:118-129 | no contract of its own; an interior node's bag holds only values that no quadrant contains, and the subtree of child i only values whose first containing quadrant is i; preserved by `AddPlaced`, `SplitPlaced` and `RemovePlaced` |
| QuadtreeSpec.Bounded | include/Quadtree.h:104-114 | no contract of its own; leaves above the maximum depth hold at most the threshold; preserved by `AddBounded`, `SplitBounded` and `RemoveBounded` |
| QuadtreeSpec.Inside | include/Quadtree.h:102-103 | no contract of its own; every stored value is contained in the root box; preserved by `AddInv` and `RemoveInv` |
| QuadtreeSpec.QuadrantsPartition | include/Quadtree.h:80-98 | quadrant i is the quarter box at the given offset of half the width and height; a box of non-negative size contains each quadrant; two different quadrants never intersect |
| QuadtreeSpec.QuadrantsCover | include/Quadtree.h:80-98 | every point the box contains is contained by one of its four quadrants |
| QuadtreeSpec.FirstChild | include/Quadtree.h:119-127 | the index chosen is the first quadrant containing the value, or 4 when none does |
| QuadtreeSpec.BucketsPartition | include/Quadtree.h:146-160 | the five buckets that split distributes a bag into (children 0..3 and the kept values) are together a permutation of the bag |
| QuadtreeSpec.Bucket | include/Quadtree.h:146-160 | no contract of its own; `BucketsPartition` shows the five buckets together hold exactly the values, and `BucketMembers` that a bucket holds only values of its key |
| QuadtreeSpec.Matching | include/Quadtree.h:226-230 | no contract of its own; `MatchingCount` shows it keeps exactly the occurrences that meet the query box |
| QuadtreeSpec.MatchingCount | include/Quadtree.h:226-230 | filtering a bag keeps every occurrence that meets the query box and nothing else |
| QuadtreeSpec.Split | include/Quadtree.h:133-162 | split gives a node with four children |
| QuadtreeSpec.SplitContents | include/Quadtree.h:133-162 | split keeps the multiset of stored values |
| QuadtreeSpec.SplitPlaced | include/Quadtree.h:144-161 | after split, each child holds only values whose first containing quadrant is its own, and the node keeps only values no quadrant contains (that no value is lost or duplicated is `SplitContents`) |
| QuadtreeSpec.SplitBounded | include/Quadtree.h:107-113 | splitting a leaf above MaxDepth keeps the depth and size bounds |
| QuadtreeSpec.SplitInv | include/Quadtree.h:133-162 | splitting a leaf that satisfies the invariant above MaxDepth gives a node that satisfies it |
| QuadtreeSpec.Add | include/Quadtree.h:100-131 | add keeps every node with no children or four |
| QuadtreeSpec.AddContents | include/Quadtree.h:100-131 | add stores exactly one more occurrence of the value and loses nothing |
| QuadtreeSpec.AddMembers | include/Quadtree.h:100-131 | every value stored after add is the new value or was stored before |
| QuadtreeSpec.AddPlaced | include/Quadtree.h:118-129 | add keeps every stored value in the subtree of its first containing quadrant, or in the bag when no quadrant contains it |
| QuadtreeSpec.AddBounded | include/Quadtree.h:104-114 | add keeps interior nodes above MaxDepth and leaves above MaxDepth at no more than Threshold values |
| QuadtreeSpec.AddInv | include/Quadtree.h:100-131 | add keeps the whole invariant when the node's box contains the value |
| QuadtreeSpec.EraseFirst | include/Quadtree.h:171 | no contract of its own; `EraseFirstAt`, `EraseFirstAbsent`, `EraseFirstCount` and `EraseFirstSub` characterise it |
| QuadtreeSpec.EraseFirstAt | include/Quadtree.h:171 | erasing at the index std::find returns removes that one element and keeps the others in order |
| QuadtreeSpec.EraseFirstAbsent | include/Quadtree.h:171 | erasing an absent value leaves the bag unchanged |
| QuadtreeSpec.EraseFirstCount | include/Quadtree.h:189 | erasing a present value removes exactly one occurrence of it |
| QuadtreeSpec.EraseFirstSub | include/Quadtree.h:171 | erasing never lengthens the bag or adds a value |
| QuadtreeSpec.ChildValues | include/Quadtree.h:209-213 | no contract of its own; `ChildValuesFlatten` shows it gathers exactly the children's values when they are leaves |
| QuadtreeSpec.TryMerge | include/Quadtree.h:193-218 | no contract of its own; `TryMergeFlatten` shows the stored values are unchanged, and `TryMergeInv` that the invariant is kept |
| QuadtreeSpec.ChildValuesFlatten | include/Quadtree.h:209-213 | when every child is a leaf, the children's bags concatenated are the values stored below the node |
| QuadtreeSpec.TryMergeFlatten | include/Quadtree.h:193-218 | tryMerge keeps the stored values in pre-order; the node becomes a leaf exactly when all children are leaves and the total count is at most Threshold; otherwise nothing changes |
| QuadtreeSpec.TryMergeInv | include/Quadtree.h:193-218 | tryMerge keeps the invariant |
| QuadtreeSpec.Remove | include/Quadtree.h:164-191 | remove keeps every node with no children or four and never gives a leaf children |
| QuadtreeSpec.Locate | include/Quadtree.h:178-189 | in a placed interior node, a stored value sits below its first containing quadrant, or in the node's bag when no quadrant contains it |
| QuadtreeSpec.RemoveCount | include/Quadtree.h:164-191 | remove loses at most one occurrence, and only of the value; in a placed tree it loses exactly one when the value is stored |
| QuadtreeSpec.RemoveCountChild | include/Quadtree.h:178-187 | the same, for the step that descends into the first containing child |
| QuadtreeSpec.RemoveMembers | include/Quadtree.h:164-191 | every value stored after remove was stored before |
| QuadtreeSpec.RemovePlaced | include/Quadtree.h:164-191 | remove keeps every value in its first containing quadrant |
| QuadtreeSpec.RemoveBounded | include/Quadtree.h:164-218 | remove, merges included, keeps the depth and size bounds |
| QuadtreeSpec.RemoveInv | include/Quadtree.h:164-191 | remove keeps the invariant |
| QuadtreeSpec.RemoveMergesOnlyAboveLeaf | include/Quadtree.h:168-191 | erasing from an interior node's bag, or below an interior child, never merges that node; erasing from the bag changes nothing else |
| QuadtreeSearch.Queried | include/Quadtree.h:220-240 | no contract of its own; `QueryBruteForce` shows it equals the brute-force filter of the stored values |
| QuadtreeSearch.QueriedSeq | include/Quadtree.h:233-238 | no contract of its own; characterised by `QueriedSeqBruteForce` |
| QuadtreeSearch.QueryBruteForce | include/Quadtree.h:220-240 | when the callables are consistent, query on a placed tree returns exactly the stored occurrences that meet the query box, in pre-order |
| QuadtreeSearch.QueriedSeqBruteForce | include/Quadtree.h:231-239 | the same for the loop over the children |
| QuadtreeSearch.QueriedChildBruteForce | include/Quadtree.h:235-237 | what query appends for one child, visited or pruned, is the filter of that child's values |
| QuadtreeSearch.PrunedChildMatchesNothing | include/Quadtree.h:236 | a child whose quadrant misses the query box holds no value that meets it |
| QuadtreeSearch.QueryCount | include/Quadtree.h:220-240 | query reports each stored occurrence that meets the query box once and nothing else |
| QuadtreeSearch.Tested | include/Quadtree.h:242-268 | no contract of its own; `TestedCount` shows that, when the callables are consistent, it tests every intersecting pair of stored occurrences exactly once |
| QuadtreeSearch.TestedSeq | include/Quadtree.h:264-266 | no contract of its own; characterised by `TestedSeqCount` |
| QuadtreeSearch.PairsWith | include/Quadtree.h:270-286 | no contract of its own; the pairs of one value with each element of a sequence, in order, which is what one `findIntersectionsInChildren` call reports on a flattened subtree; counted in `CrossCount` |
| QuadtreeSearch.Reported | include/Quadtree.h:252-253 | no contract of its own; `ReportedCount`, `ReportedSymCount` and `ReportedSound` characterise it |
| QuadtreeSearch.ReportedTested | include/Quadtree.h:242-268 | the pairs reported at a node are those of its bag, then those of its bag against its children, then those inside each child |
| QuadtreeSearch.AllPairsCount | include/Quadtree.h:248-255 | the `j < i` loop tests each unordered pair of distinct occurrences of one bag exactly once |
| QuadtreeSearch.CrossCount | include/Quadtree.h:261-262 | testing each bag value against a subtree tests each pair with one occurrence on each side exactly once |
| QuadtreeSearch.CrossSeqCount | include/Quadtree.h:259-263 | the same against all children together |
| QuadtreeSearch.SiblingsApart | include/Quadtree.h:264-266 | values in two different children never intersect when the callables are consistent |
| QuadtreeSearch.QuadrantValuesApart | include/Quadtree.h:80-98 | values contained in two different quadrants never intersect when the callables are consistent |
| QuadtreeSearch.TestedCount | include/Quadtree.h:242-268 | on a placed tree, when the callables are consistent, every intersecting pair of stored occurrences is tested exactly once |
| QuadtreeSearch.TestedSeqCount | include/Quadtree.h:264-266 | the same for the recursion over the children |
| QuadtreeSearch.ReportedCount | include/Quadtree.h:252-253 | a tested pair is reported as often as it was tested when it intersects, and never otherwise |
| QuadtreeSearch.ReportedSymCount | include/Quadtree.h:252-253 | the same for unordered pairs when intersect is symmetric |
| QuadtreeSearch.ReportedSound | include/Quadtree.h:252-253 | every reported pair was tested and intersects |
| QuadtreeSearch.BruteForcePairsCount | include/Quadtree.h:248-255 | the brute-force pairwise search reports each intersecting unordered pair of occurrences once |
| QuadtreeSearch.FindAllIntersectionsCount | include/Quadtree.h:242-286 | with symmetric, consistent callables on a placed tree, findAllIntersections reports each intersecting unordered pair of stored occurrences exactly once, as the brute-force search does |
| QuadtreeSearch.SiblingExampleInv | include/Quadtree.h:133-162 | a split root over (0, 0, 2, 2) with one point in each top quadrant satisfies the invariant |
| QuadtreeSearch.SiblingPairsNotTested | include/Quadtree.h:256-267 | that tree of two stored values tests no pair, so not every unordered pair is tested |
| QuadtreeSearch.BoxCallablesConsistent | include/Quadtree.h:236 | the box-based callables (contain a value's box, intersect the boxes) satisfy both consistency conditions, and their intersect is symmetric |
| Quadtrees.Find | include/Quadtree.h:171 | the index returned is that of the first equal element, or the length when there is none |
| Quadtrees.Node.constructor | include/Quadtree.h:65-69 | a new node is a valid empty leaf |
| Quadtrees.Node.IsLeaf | include/Quadtree.h:75-78 | a node is a leaf exactly when its tree has no children |
| Quadtrees.Push | include/Quadtree.h:108 | push_back appends the value to the bag and changes nothing else |
| Quadtrees.Erase | include/Quadtree.h:189 | erase(find(...)) erases the first equal element of the bag and changes nothing else |
| Quadtrees.MergeCount | include/Quadtree.h:197-204 | the counting loop finds whether all children are leaves and, when they are, the total count of values |
| Quadtrees.PushAll | include/Quadtree.h:211-212 | the inner merge loop appends a child's bag to the node's bag |
| Quadtrees.MergeChildren | include/Quadtree.h:207-216 | the node becomes a leaf whose bag is its old bag followed by each child's bag |
| Quadtrees.AppendMatching | include/Quadtree.h:226-230 | appends the bag values that meet the query box, in order |
| Quadtrees.AppendPairsWith | include/Quadtree.h:275-279 | appends the intersecting pairs of one value with each bag value, in order |
| Quadtrees.AppendBagPairs | include/Quadtree.h:248-255 | appends the intersecting pairs the `j < i` loop tests |
| Quadtrees.Quadtree.constructor | include/Quadtree.h:23-27 | a new tree is valid, with the given box and callable, and stores nothing |
| Quadtrees.Quadtree.Add | include/Quadtree.h:29-32 | add keeps the invariant and stores exactly one more occurrence of the value |
| Quadtrees.Quadtree.Remove | include/Quadtree.h:34-37 | remove keeps the invariant and removes exactly one occurrence of a stored value; it changes no contents when the value is absent |
| Quadtrees.Quadtree.Query | include/Quadtree.h:39-48 | query returns what the pruned traversal reports; with consistent callables that is exactly the stored values meeting the query box |
| Quadtrees.Quadtree.FindAllIntersections | include/Quadtree.h:50-59 | returns the tested pairs that intersect; with symmetric, consistent callables, each intersecting unordered pair of stored occurrences is reported once |
| Quadtrees.Quadtree.ChildIndex | include/Quadtree.h:119-127 | the loop over the quadrants finds the first quadrant containing the value, or 4 |
| Quadtrees.Quadtree.Split | include/Quadtree.h:133-162 | split turns a valid leaf into the node the pure split gives, with four fresh children |
| Quadtrees.Quadtree.Distribute | include/Quadtree.h:142-161 | the loop over the bag pushes each value into its first containing child and returns the values no child contains, in order |
| Quadtrees.Quadtree.AddAt | include/Quadtree.h:100-131 | the recursive add leaves the subtree equal to the pure add |
| Quadtrees.Quadtree.AddToChild | include/Quadtree.h:119-126 | adding below child i replaces that child's tree by the pure add and keeps the others |
| Quadtrees.Quadtree.RemoveAt | include/Quadtree.h:164-191 | the recursive remove leaves the subtree equal to the pure remove |
| Quadtrees.Quadtree.RemoveFromChild | include/Quadtree.h:179-187 | removing below child i replaces that child's tree by the pure remove and keeps the others |
| Quadtrees.Quadtree.TryMerge | include/Quadtree.h:193-218 | tryMerge leaves the node equal to the pure merge |
| Quadtrees.Quadtree.QueryAt | include/Quadtree.h:220-240 | appends exactly what the pruned traversal reports at this node |
| Quadtrees.Quadtree.QueryChildrenAt | include/Quadtree.h:231-239 | appends the pruned traversal of the children, in index order |
| Quadtrees.Quadtree.QueryChild | include/Quadtree.h:235-237 | appends child i's pruned traversal when its quadrant meets the query box, and nothing otherwise |
| Quadtrees.Quadtree.FindInChildrenAt | include/Quadtree.h:270-286 | appends the intersecting pairs of the value with every value of the subtree, in pre-order |
| Quadtrees.Quadtree.FindAllAt | include/Quadtree.h:242-268 | appends the intersecting pairs among all the pairs tested at this subtree |
| Quadtrees.Quadtree.FindAllInChildren | include/Quadtree.h:264-266 | appends what each child's recursion reports, child by child |
| Quadtrees.Quadtree.AppendBagAgainstChildren | include/Quadtree.h:258-263 | appends the intersecting pairs of the bag against each child's subtree, child by child |
| Quadtrees.Quadtree.AppendBagAgainst | include/Quadtree.h:261-262 | appends the intersecting pairs of each bag value against one child's subtree |

### Notes on the model

- The invariant `Inv` has four parts:
  - every node has no children or four (`Shaped`);
  - interior-bag values lie in no quadrant, and every value below child i
    has i as its first containing quadrant (`Placed`);
  - interior nodes exist only above depth `MaxDepth`, and leaves above it
    hold at most `Threshold` values (`Bounded`);
  - every value below a node is contained by the node's box (`Inside`).
- The source's remove calls tryMerge on the leaf's parent from inside the
  leaf's own call (include/Quadtree.h:173-174). The model asks, in the
  parent, whether the child was a leaf before the call. After the call
  returns, the parent tries the merge itself. The parent returns right away
  in both versions, so the effect is the same.
- The three loops that look for the first containing quadrant are modelled
  by one method, `ChildIndex`. They are in add (119-127), remove (179-187)
  and split (149-157).
- The output vectors that query and findAllIntersections pass by reference
  become a sequence argument `acc` and a result `r` that extends it.
- Removing erases the first equal element and keeps the rest of the bag in
  order (include/Quadtree.h:171, 189). A swap-with-last-and-pop removal would
  reorder the bag, so the model does not use one.
- findAllIntersections does not test every unordered pair of stored values.
  Values in two different child subtrees are never tested against each
  other, so a tree of n values can test fewer than n(n-1)/2 pairs.
  `SiblingPairsNotTested` gives a tree of two values that tests none.
  `FindAllIntersectionsCount` proves what does hold. When intersect is
  symmetric and only meets values whose boxes intersect (the condition
  `PairConsistent`), every intersecting pair is tested exactly once. So the
  result equals the brute-force search, counted as unordered pairs.
- Merging is not a normal form of the tree. Removing from an interior bag,
  or below an interior child, never merges
  (`RemoveMergesOnlyAboveLeaf`), so a node can keep four children even when
  its values would fit in one leaf.

## Left out

- Floating point: coordinates are exact `real`s, so rounding in
  `computeBox`'s halving and in box comparisons is not modelled.
- `getNorm`, `normalize` and `getDistance` (include/Vector2.h:90-108) depend
  on `std::sqrt` and are not modelled.
- The converting constructor `Vector2(const Vector2<U>&)`
  (include/Vector2.h:25-30) and the integer aliases (include/Vector2.h:160-164)
  are not modelled, because coordinates have a single type here.
- Vectors.Vector2.DivideAssign: it requires a non-zero divisor. Dividing a
  float by zero has no counterpart in `real` arithmetic.
- Vectors.Divide: it requires a non-zero divisor, for the same reason. The
  source's `operator/` (include/Vector2.h:153-158) accepts zero and yields
  infinities or NaN. The model's only division, by 2 in
  `QuadtreeSpec.ComputeBox`, never divides by zero.
- The `static_assert` signature checks (include/Quadtree.h:17-20, 42-44,
  53-55) are compile-time only. Typed callable parameters replace them.
- `std::unique_ptr` allocation and release (include/Quadtree.h:24, 140, 216)
  are modelled by fresh objects and a ghost footprint. Dropped children are
  no longer reachable, and deallocation is not modelled.
- Quadtrees.Quadtree.Remove: removing an absent value erases `end()` in the
  source, which is undefined behaviour. The model leaves the bag unchanged
  in that case.
- The `assert`s on node pointers and on `contain(box, value)`
  (include/Quadtree.h:102-103, 166-167, 195-196) become preconditions. So
  does `queryBox.intersects(box)` (include/Quadtree.h:225). So do the
  child-index assert of `computeBox` (include/Quadtree.h:95), as
  `QuadtreeSpec.ComputeBox`'s `requires i < 4`, and the leaf assert of
  `split` (include/Quadtree.h:135-136), as `requires t.children == []` on
  `QuadtreeSpec.Split` and the leaf precondition of `Quadtrees.Quadtree.Split`.
  The default branch of `computeBox` returns an empty box when asserts are
  compiled out (include/Quadtree.h:94-96); that case is not modelled.
- Value types need equality (`T(==)`) for `std::find`. The class
  `Quadtrees.Quadtree` and the search functions also require `T(!new)`, so
  that their quantifiers range over values only. Values that are references
  into the heap, such as the `Node*` the repository's tests store, are
  therefore not modelled as references: such a value has to be stood in for
  by a plain identifier, which compares by identity exactly as a pointer does.
- The repository's tests, benchmarks and example program use another API
  variant, with a `getBox` callable and a one-argument query. They are not
  part of this model. Their brute-force searches appear as the reference
  functions `Matching(Flatten(...))` and `Reported(AllPairs(...))`.
- `Box.getArea`, `getCenter` and the other accessors are plain functions
  without a contract of their own. `Boxes.AccessorsAgree` states how they
  relate to the fields and to each other, including that the area is the
  product of the size's components and is non-negative for a box of
  non-negative size.
