/** The implicit binary tree stored in a flat array: node 0 is the root, the
    children of node i are 2i+1 and 2i+2, and each node owns an inclusive
    range [lo, hi] of input positions that its children split at the midpoint. */
module HeapLayout {

  /** The slot of the left child of node i. */
  function LeftChild(i: nat): nat
  {
    i * 2 + 1
  }

  /** The slot of the right child of node i. */
  function RightChild(i: nat): nat
  {
    i * 2 + 2
  }

  /** The slot of the parent of a non-root node. */
  function Parent(c: nat): nat
    requires 0 < c
  {
    (c - 1) / 2
  }

  /** The two children of a node are distinct non-root slots whose parent is
      that node. */
  lemma {:induction false} ParentOfChildren(i: nat)
    ensures 0 < LeftChild(i) < RightChild(i)
    ensures Parent(LeftChild(i)) == i && Parent(RightChild(i)) == i
  {
  }

  /** Conversely, every non-root slot is one of the two children of its parent. */
  lemma {:induction false} ChildOfItsParent(c: nat)
    requires 0 < c
    ensures c == LeftChild(Parent(c)) || c == RightChild(Parent(c))
  {
  }

  /** The split point of a node's range; for an internal node (lo < hi) both
      halves [lo, m] and [m + 1, hi] are non-empty. The operands are never
      negative here, so rounding toward zero and Dafny's division agree. */
  function Mid(lo: nat, hi: nat): (m: nat)
    requires lo <= hi
    ensures lo <= m <= hi
    ensures lo < hi ==> m < hi
  {
    (lo + hi) / 2
  }

  /** Slot k lies in the subtree rooted at slot i (i is k or an ancestor of k). */
  ghost predicate InSubtree(k: nat, i: nat)
    decreases k
  {
    k == i || (k > i && InSubtree(Parent(k), i))
  }

  lemma {:induction false} InSubtreeTransitive(k: nat, j: nat, i: nat)
    requires InSubtree(k, j) && InSubtree(j, i)
    ensures InSubtree(k, i)
    decreases k
  {
    if k != j {
      InSubtreeTransitive(Parent(k), j, i);
    }
  }

  /** Every slot lies in the subtree of the root: following parents from any
      slot leads to slot 0. */
  lemma {:induction false} ReachedFromRoot(k: nat)
    ensures InSubtree(k, 0)
    decreases k
  {
    if k > 0 {
      ReachedFromRoot(Parent(k));
    }
  }

  /** Both children of i, and so everything below them, lie in i's subtree. */
  lemma {:induction false} BelowChildren(k: nat, i: nat)
    ensures InSubtree(k, LeftChild(i)) ==> InSubtree(k, i)
    ensures InSubtree(k, RightChild(i)) ==> InSubtree(k, i)
  {
    assert InSubtree(LeftChild(i), i) && InSubtree(RightChild(i), i);
    if InSubtree(k, LeftChild(i)) {
      InSubtreeTransitive(k, LeftChild(i), i);
    }
    if InSubtree(k, RightChild(i)) {
      InSubtreeTransitive(k, RightChild(i), i);
    }
  }

  /** The ancestors of a slot form a chain: of two of them, the smaller is an
      ancestor of the larger. */
  lemma {:induction false} AncestorsOrdered(k: nat, i: nat, j: nat)
    requires InSubtree(k, i) && InSubtree(k, j) && i <= j
    ensures InSubtree(j, i)
    decreases k
  {
    if k != j {
      AncestorsOrdered(Parent(k), i, j);
    }
  }

  /** The subtrees of the two children of a node share no slot. */
  lemma {:induction false} DisjointSubtrees(k: nat, i: nat)
    ensures InSubtree(k, LeftChild(i)) ==> !InSubtree(k, RightChild(i))
  {
    assert !InSubtree(i, LeftChild(i));
    assert !InSubtree(RightChild(i), LeftChild(i));
    if InSubtree(k, LeftChild(i)) && InSubtree(k, RightChild(i)) {
      AncestorsOrdered(k, LeftChild(i), RightChild(i));
    }
  }

  /** The node at slot `node` with range [lo, hi], and every node the
      recursion visits below it, has a slot below 4n and a range inside
      [0, n - 1]. */
  ghost predicate Fits(n: nat, node: nat, lo: nat, hi: nat)
    decreases hi - lo
  {
    node < 4 * n && lo <= hi < n &&
    (lo < hi ==>
      Fits(n, LeftChild(node), lo, Mid(lo, hi)) &&
      Fits(n, RightChild(node), Mid(lo, hi) + 1, hi))
  }

  /** Both children of a node that fits, when it is internal, fit as well,
      and so their slots lie below 4n. */
  lemma {:induction false} ChildrenFit(n: nat, node: nat, lo: nat, hi: nat)
    requires Fits(n, node, lo, hi) && lo < hi
    ensures Fits(n, LeftChild(node), lo, Mid(lo, hi)) && Fits(n, RightChild(node), Mid(lo, hi) + 1, hi)
    ensures LeftChild(node) < 4 * n && RightChild(node) < 4 * n
  {
  }

  /** One step down the tree: a child's span is at most half its parent's, and
      the parent is internal, so the bounds with w carry over with 2w. */
  lemma {:induction false} StepDown(n: nat, span: nat, childSpan: nat, w: nat)
    requires 1 <= span && 2 * childSpan <= span && span * w < n
    ensures childSpan * (2 * w) < n && 2 * w < 2 * n
  {
    calc {
      childSpan * (2 * w);
      == (2 * childSpan) * w;
      <= span * w;
    }
    calc {
      w;
      <= span * w;
    }
  }

  /** The depth bound behind the 4n allocation. A node at depth d has a slot in
      [2^d - 1, 2^(d+1) - 2] and a range of at most ceil(n / 2^d) positions; w
      stands for 2^d. Each step down doubles w and at least halves the span. */
  lemma {:induction false} PlacedFits(n: nat, node: nat, lo: nat, hi: nat, w: nat)
    requires lo <= hi < n && 0 < w <= node + 1 < 2 * w
    requires (hi - lo) * w < n && w < 2 * n
    ensures Fits(n, node, lo, hi)
    decreases hi - lo
  {
    if lo < hi {
      var m := Mid(lo, hi);
      StepDown(n, hi - lo, m - lo, w);
      StepDown(n, hi - lo, hi - (m + 1), w);
      PlacedFits(n, LeftChild(node), lo, m, 2 * w);
      PlacedFits(n, RightChild(node), m + 1, hi, 2 * w);
    }
  }

  /** The whole tree over n > 0 positions fits a store of 4n slots: every node
      that building, updating or querying visits from the root (slot 0, range
      [0, n - 1]) has a slot below 4n. */
  lemma {:induction false} TreeFits(n: nat)
    requires 0 < n
    ensures Fits(n, 0, 0, n - 1)
  {
    PlacedFits(n, 0, 0, n - 1, 1);
  }

  /** The slots an update for position pos writes: the node itself and, below
      an internal node, the path inside the one child whose range holds pos. */
  ghost function Path(node: nat, lo: nat, hi: nat, pos: nat): set<nat>
    requires lo <= pos <= hi
    decreases hi - lo
  {
    if lo == hi then {node}
    else if pos <= Mid(lo, hi) then {node} + Path(LeftChild(node), lo, Mid(lo, hi), pos)
    else {node} + Path(RightChild(node), Mid(lo, hi) + 1, hi, pos)
  }

  /** An update path from a node stays inside that node's subtree. */
  lemma {:induction false} PathInSubtree(node: nat, lo: nat, hi: nat, pos: nat, k: nat)
    requires lo <= pos <= hi
    ensures k in Path(node, lo, hi, pos) ==> InSubtree(k, node)
    decreases hi - lo
  {
    if lo < hi && k != node {
      var m := Mid(lo, hi);
      if pos <= m {
        PathInSubtree(LeftChild(node), lo, m, pos, k);
      } else {
        PathInSubtree(RightChild(node), m + 1, hi, pos, k);
      }
      BelowChildren(k, node);
    }
  }

  /** An update descends into exactly one child of each internal node on its
      path: the left child when pos lies in the left half, the right child
      otherwise. */
  lemma {:induction false} PathPicksOneChild(node: nat, lo: nat, hi: nat, pos: nat)
    requires lo <= pos <= hi && lo < hi
    ensures LeftChild(node) in Path(node, lo, hi, pos) <==> pos <= Mid(lo, hi)
    ensures RightChild(node) in Path(node, lo, hi, pos) <==> Mid(lo, hi) < pos
  {
    var m := Mid(lo, hi);
    if pos <= m {
      PathInSubtree(LeftChild(node), lo, m, pos, RightChild(node));
    } else {
      PathInSubtree(RightChild(node), m + 1, hi, pos, LeftChild(node));
    }
  }
}
