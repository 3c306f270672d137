# Segment tree with the sum policy

This project models the array-backed segment tree of `SegmentTree.cpp`. The
model fixes the element type and the aggregate type to `int` and uses the only
concrete policy, range sum.

The tree keeps a flat store of `4n` slots for an input of `n` positions. The
store encodes an implicit binary tree. The root is slot 0, and the children of
slot `i` are `2i+1` and `2i+2`. Each node owns an inclusive range `[lo, hi]`
of positions, which its children split at `(lo + hi) / 2`. The tree has three
recursive operations:

- **build** fills every node;
- **update** rewrites one leaf and recomputes the nodes above it;
- **getRange** combines the nodes a query covers fully and gives the neutral
  value `0` for nodes the query misses.

The model has four modules:

- `SumPolicy` holds the three policy hooks: the out-of-range value and the two
  combine rules. Beside them it holds the reference meaning of every aggregate.
  `SumRange(a, l, h)` is the sum of `a` at positions `l..h`, where positions
  outside `a` count for nothing. `Sum` is the plain slice sum.
- `HeapLayout` holds the child-index arithmetic and the midpoint split. It also
  holds subtree membership and the update path. Its main result is the proof
  that every node the recursion visits has a slot below `4n`.
- `TreeStore` works on the store as a sequence of slot values.
  - `Built` is the representation invariant: a leaf holds its element, and an
    internal node holds its children combined.
  - `AfterBuild` and `AfterUpdate` are the stores that build and update
    produce.
  - The lemmas prove that those stores are `Built` and that they change only
    the slots they should.
- `SegmentTrees` holds the class `SegmentTree`. Its fields are an
  `array<int>` store, the size `n`, and a ghost `elems`, the logical array the
  tree stands for.
  - The build and update helpers write the array in place, as the source does.
  - Each helper is proved equal to the matching store function.
  - `GetRange` reads the store through the recursive function `RangeAt`.

## Model

| member | source | states |
|---|---|---|
| SumPolicy.OutsideSumsToNeutral | SegmentTree.cpp:116-118 | A range that is empty or lies wholly outside the array sums to the out-of-range value 0. |
| SumPolicy.CombineChildren | SegmentTree.cpp:120-122 | Split a range at any point inside it. The update hook applied to the two halves' sums gives the whole range's sum, so a parent storing its children combined stores its own range's sum. |
| SumPolicy.CombinePartials | SegmentTree.cpp:124-126 | Split a query at any m. The range hook applied to the part at or below m and the part above m gives the whole query's sum, whatever m is. |
| SumPolicy.SumRangeIsSliceSum | SegmentTree.cpp:103-105 | Within the array's bounds, the range sum that queries answer equals the plain sum of the slice `a[l..h+1]`. |
| SumPolicy.ClipToPositions | SegmentTree.cpp:86-88 | Clipping a query to the positions of the array does not change its sum. So the parts of a query outside the tree's range contribute nothing. |
| SumPolicy.SumRangeAfterReplace | SegmentTree.cpp:99-101 | After element i is replaced by v, every range holding i changes its sum by `v - a[i]`. Every other range keeps its sum. |
| HeapLayout.ParentOfChildren | SegmentTree.cpp:34-40 | The children `2i+1` and `2i+2` are distinct non-root slots, and their parent is i. |
| HeapLayout.ChildOfItsParent | SegmentTree.cpp:34-40 | Every non-root slot is the left or the right child of its parent. |
| HeapLayout.ReachedFromRoot | SegmentTree.cpp:34-40 | Every slot lies in the subtree of the root, slot 0: following parents from any slot leads to the root. |
| HeapLayout.Mid | SegmentTree.cpp:49 | The split point lies in `[lo, hi]`. For an internal node it lies below hi, so both halves are non-empty and smaller than the node's range. |
| HeapLayout.BelowChildren | SegmentTree.cpp:47-48 | Both children, and every slot below them, lie in the node's subtree. |
| HeapLayout.DisjointSubtrees | SegmentTree.cpp:47-48 | The subtrees of a node's two children share no slot. |
| HeapLayout.ChildrenFit | SegmentTree.cpp:47-51 | For an internal node that fits the store, both children fit too, and their slots lie below `4n`. |
| HeapLayout.TreeFits | SegmentTree.cpp:10 | For n > 0, every node the recursion visits from the root (slot 0, range `[0, n-1]`) has a slot below the `4n` slots allocated at construction. |
| HeapLayout.PathInSubtree | SegmentTree.cpp:66-71 | Every slot on an update path lies in the subtree of the node where the path starts. |
| HeapLayout.PathPicksOneChild | SegmentTree.cpp:66-71 | At an internal node, an update path enters the left child exactly when the position lies in the left half. It enters the right child exactly when the position lies in the right half. |
| TreeStore.BuiltMeansSum | SegmentTree.cpp:42-54 | Under the invariant, every node's slot holds the sum of the elements over the node's range. |
| TreeStore.AfterBuild | SegmentTree.cpp:42-54 | Building keeps the store's length. What the built store holds is stated by `AfterBuildIsBuilt`. |
| TreeStore.AfterBuildIsBuilt | SegmentTree.cpp:42-54 | Building a subtree that fits a `4n`-slot store establishes the invariant over it, whatever the store held before. |
| TreeStore.AfterBuildStaysInSubtree | SegmentTree.cpp:50-53 | Building a subtree writes no slot outside that subtree. |
| TreeStore.LeftSlotKept | SegmentTree.cpp:50-52 | Building the right child leaves the left child's slot as the left build left it. So the value the left call returned is still the left child's slot when the parent is combined. |
| TreeStore.BuildKeepsLeft | SegmentTree.cpp:50-51 | Building the right child keeps the invariant of the left child's subtree. |
| TreeStore.ParentBuilt | SegmentTree.cpp:72-75 | When both child subtrees satisfy the invariant, storing the children's values combined at the node makes the node's subtree satisfy it. |
| TreeStore.AfterUpdate | SegmentTree.cpp:56-77 | Updating keeps the store's length. What the updated store holds is stated by `AfterUpdateIsBuilt` and `AfterUpdateStaysOnPath`. |
| TreeStore.AfterUpdateStaysOnPath | SegmentTree.cpp:66-75 | An update writes only the slots on the single root-to-leaf path for the position. Every other slot keeps its value. |
| TreeStore.UpdateKeepsRight | SegmentTree.cpp:66-68 | An update into the left child keeps the invariant of the right child's subtree, for the elements with the position replaced. |
| TreeStore.UpdateKeepsLeft | SegmentTree.cpp:69-71 | An update into the right child keeps the invariant of the left child's subtree, for the elements with the position replaced. |
| TreeStore.AfterUpdateIsBuilt | SegmentTree.cpp:56-77 | From a store satisfying the invariant for elements a, an update of position pos to v gives a store satisfying it for `a[pos := v]`. |
| SegmentTrees.SegmentTree.constructor | SegmentTree.cpp:5-11 | A non-empty input gives `size = n` and a fresh store of exactly `4n` slots. The tree is then built from the input, as the sum policy's constructor (lines 111-113) does. Afterwards the invariant holds and the logical array is the input. |
| SegmentTrees.Create | SegmentTree.cpp:6-7 | Construction fails with `InvalidArgument` exactly when the input is empty. Otherwise it gives a fresh valid tree over the input. |
| SegmentTrees.SegmentTree.BuildTree | SegmentTree.cpp:19-21 | Building from the root over `[0, n-1]` establishes the invariant with the input as the logical array. The store object and the size stay the same. |
| SegmentTrees.SegmentTree.BuildHelper | SegmentTree.cpp:42-54 | The store afterwards is `AfterBuild` of the store before. The returned value is the value stored at the node. |
| SegmentTrees.SegmentTree.Update | SegmentTree.cpp:99-101 | For `0 <= index < n`, element index becomes v and every other element is unchanged. The invariant holds again. The new store is `AfterUpdate` of the old one, so only the path's slots change. |
| SegmentTrees.SegmentTree.UpdateHelper | SegmentTree.cpp:56-77 | The store afterwards is `AfterUpdate` of the store before: a leaf takes v, and the node the recursion enters and every node above it are recomputed. |
| SegmentTrees.SegmentTree.RangeAt | SegmentTree.cpp:79-95 | Over a subtree satisfying the invariant, the helper returns the sum of the elements at the query positions inside the node's range. A node disjoint from the query gives the out-of-range value. |
| SegmentTrees.SegmentTree.GetRange | SegmentTree.cpp:103-105 | The result is the sum of the current elements at positions left..right, with positions outside `[0, n-1]` counting for nothing. An inverted range gives 0. For `0 <= left <= right < n` the result is the slice sum. A single position gives its element. The method changes nothing. |
| SegmentTrees.Example | SegmentTree.cpp:99-105 | For `[1, 3, 5, 7, 9]`: the range `[0,4]` gives 25 and `[1,3]` gives 15. After position 2 becomes 10, they give 30 and 20, and position 2 alone gives 10. |

## Left out

- The conversion hook from the input type to the stored type, and its type check (`SegmentTree.cpp:23-28`), are left out. The model fixes both types to `int`, so the conversion is the identity.
- The thrown string literals (`SegmentTree.cpp:7, 25`) are not modelled as exceptions. The empty-input case is the constructor's precondition, and `Create` returns `Failure(InvalidArgument)` for it.
- Virtual dispatch over the policy hooks (`SegmentTree.cpp:13-17`) is left out. Only the sum policy is modelled, as plain functions.
- Fixed-width `int` overflow is not modelled. Sums, the slot count `4 * n` and the child indices are unbounded integers in the model.
- The O(log n) cost of update and query is a performance claim and is not modelled.
- SegmentTrees.SegmentTree.Update: requires `0 <= index < n`. In the source, an index below 0 always goes left and overwrites element 0, and an index at or above n always goes right and overwrites element n-1. The model does not capture that clamping.
- The guards for an empty node range (`low > high`, `SegmentTree.cpp:57-58, 80-81`) are left out. Every node the recursion reaches from `[0, n-1]` has `lo <= hi` (the `Mid` contract), so they never fire.
- The store is a fresh array of `4n` slots holding arbitrary values before the build. The source's value-initialised vector is not modelled; `AfterBuildIsBuilt` holds whatever the store held.
- SegmentTrees.SegmentTree.Update: the fact that only the path's slots change is proved about `AfterUpdate` (by `AfterUpdateStaysOnPath`). It is not repeated as a separate postcondition of the method.
