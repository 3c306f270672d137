/** The store of the segment tree as a sequence of slot values: the invariant
    it keeps, the stores that building and updating produce, and the facts that
    tie them together. */
module TreeStore {
  import opened SumPolicy
  import opened HeapLayout

  /** The representation invariant, as the tree keeps it: the slot of a leaf
      [lo, lo] holds the element a[lo], and the slot of an internal node holds
      its two children's slots combined by the update hook. */
  ghost predicate Built(t: seq<int>, a: seq<int>, node: nat, lo: nat, hi: nat)
    requires lo <= hi < |a|
    decreases hi - lo
  {
    node < |t| &&
    if lo == hi then t[node] == a[lo]
    else
      Built(t, a, LeftChild(node), lo, Mid(lo, hi)) &&
      Built(t, a, RightChild(node), Mid(lo, hi) + 1, hi) &&
      t[node] == CombineForUpdate(t[LeftChild(node)], t[RightChild(node)])
  }

  /** What the invariant means: every node's slot holds the sum of the
      elements over the node's range. */
  lemma {:induction false} BuiltMeansSum(t: seq<int>, a: seq<int>, node: nat, lo: nat, hi: nat)
    requires lo <= hi < |a| && Built(t, a, node, lo, hi)
    ensures t[node] == SumRange(a, lo, hi)
    decreases hi - lo
  {
    if lo < hi {
      var m := Mid(lo, hi);
      BuiltMeansSum(t, a, LeftChild(node), lo, m);
      BuiltMeansSum(t, a, RightChild(node), m + 1, hi);
      CombineChildren(a, lo, m, hi);
    }
  }

  /** t and t' hold the same values in every slot of the subtree at node. */
  ghost predicate SameSubtree(t: seq<int>, t': seq<int>, node: nat)
  {
    |t'| == |t| && forall k :: 0 <= k < |t| && InSubtree(k, node) ==> t'[k] == t[k]
  }

  /** What agrees on a subtree agrees on the subtrees of both children. */
  lemma {:induction false} SameChildSubtrees(t: seq<int>, t': seq<int>, node: nat)
    requires SameSubtree(t, t', node)
    ensures SameSubtree(t, t', LeftChild(node)) && SameSubtree(t, t', RightChild(node))
  {
    forall k | 0 <= k < |t| && (InSubtree(k, LeftChild(node)) || InSubtree(k, RightChild(node)))
      ensures t'[k] == t[k]
    {
      BelowChildren(k, node);
    }
  }

  /** t' differs from t at most in the slots of the update path from node to pos. */
  ghost predicate SameOffPath(t: seq<int>, t': seq<int>, node: nat, lo: nat, hi: nat, pos: nat)
    requires lo <= pos <= hi
  {
    |t'| == |t| && forall k :: 0 <= k < |t| && k !in Path(node, lo, hi, pos) ==> t'[k] == t[k]
  }

  /** t' differs from t at most in the slots of the subtree at node. */
  ghost predicate SameOutsideSubtree(t: seq<int>, t': seq<int>, node: nat)
  {
    |t'| == |t| && forall k :: 0 <= k < |t| && !InSubtree(k, node) ==> t'[k] == t[k]
  }

  /** A change confined to an update path is confined to the subtree where the
      path starts. */
  lemma {:induction false} OffPathIsInsideSubtree(t: seq<int>, t': seq<int>, node: nat, lo: nat, hi: nat, pos: nat)
    requires lo <= pos <= hi && SameOffPath(t, t', node, lo, hi, pos)
    ensures SameOutsideSubtree(t, t', node)
  {
    forall k | 0 <= k < |t| && !InSubtree(k, node)
      ensures t'[k] == t[k]
    {
      PathInSubtree(node, lo, hi, pos, k);
    }
  }

  /** A change confined to one child's subtree leaves the other child's subtree alone. */
  lemma {:induction false} LeftUntouched(t: seq<int>, t': seq<int>, node: nat)
    requires SameOutsideSubtree(t, t', RightChild(node))
    ensures SameSubtree(t, t', LeftChild(node))
  {
    forall k | 0 <= k < |t| && InSubtree(k, LeftChild(node))
      ensures t'[k] == t[k]
    {
      DisjointSubtrees(k, node);
    }
  }

  lemma {:induction false} RightUntouched(t: seq<int>, t': seq<int>, node: nat)
    requires SameOutsideSubtree(t, t', LeftChild(node))
    ensures SameSubtree(t, t', RightChild(node))
  {
    forall k | 0 <= k < |t| && InSubtree(k, RightChild(node))
      ensures t'[k] == t[k]
    {
      DisjointSubtrees(k, node);
    }
  }

  /** Writing a node's own slot leaves the subtrees of both its children alone. */
  lemma {:induction false} NodeOutsideChildSubtrees(t: seq<int>, node: nat, x: int)
    requires node < |t|
    ensures SameSubtree(t, t[node := x], LeftChild(node)) && SameSubtree(t, t[node := x], RightChild(node))
  {
    assert !InSubtree(node, LeftChild(node)) && !InSubtree(node, RightChild(node));
  }

  /** The invariant of a subtree depends only on the slots inside that subtree
      and on the elements inside its range. */
  lemma {:induction false} BuiltFrame(t: seq<int>, t': seq<int>, a: seq<int>, a': seq<int>, node: nat, lo: nat, hi: nat)
    requires lo <= hi < |a| && hi < |a'|
    requires Built(t, a, node, lo, hi) && SameSubtree(t, t', node)
    requires forall i :: lo <= i <= hi ==> a'[i] == a[i]
    ensures Built(t', a', node, lo, hi)
    decreases hi - lo
  {
    assert InSubtree(node, node);
    if lo < hi {
      var m := Mid(lo, hi);
      SameChildSubtrees(t, t', node);
      BuiltFrame(t, t', a, a', LeftChild(node), lo, m);
      BuiltFrame(t, t', a, a', RightChild(node), m + 1, hi);
      assert InSubtree(LeftChild(node), node) && InSubtree(RightChild(node), node);
    }
  }

  /** The store with the slot of node set to its two children's slots
      combined by the update hook (left alone when the store is too short to
      hold the children, which never happens for a tree that fits). */
  function Recompute(t: seq<int>, node: nat): seq<int>
  {
    if RightChild(node) < |t| then t[node := CombineForUpdate(t[LeftChild(node)], t[RightChild(node)])] else t
  }

  /** The store with v written into slot i, when the store has that slot. */
  function Write(t: seq<int>, i: nat, v: int): seq<int>
  {
    if i < |t| then t[i := v] else t
  }

  /** The store after building the subtree at node over [lo, hi] from the
      elements a, starting from store t: a leaf takes its element, an internal
      node first builds its left child, then its right child, then stores the
      two children's values combined. */
  ghost function AfterBuild(t: seq<int>, a: seq<int>, node: nat, lo: nat, hi: nat): (r: seq<int>)
    requires lo <= hi < |a|
    ensures |r| == |t|
    decreases hi - lo
  {
    if lo == hi then Write(t, node, a[lo])
    else
      Recompute(AfterBuild(AfterBuild(t, a, LeftChild(node), lo, Mid(lo, hi)), a, RightChild(node), Mid(lo, hi) + 1, hi), node)
  }

  /** Building an internal node's subtree is building its left child's
      subtree, then its right child's, then recomputing the node. */
  lemma {:induction false} AfterBuildInternal(t: seq<int>, a: seq<int>, node: nat, lo: nat, hi: nat)
    requires lo < hi < |a|
    ensures AfterBuild(t, a, node, lo, hi) ==
      Recompute(AfterBuild(AfterBuild(t, a, LeftChild(node), lo, Mid(lo, hi)), a, RightChild(node), Mid(lo, hi) + 1, hi), node)
  {
  }

  /** Building a subtree writes no slot outside it. */
  lemma {:induction false} AfterBuildStaysInSubtree(t: seq<int>, a: seq<int>, node: nat, lo: nat, hi: nat)
    requires lo <= hi < |a|
    ensures SameOutsideSubtree(t, AfterBuild(t, a, node, lo, hi), node)
    decreases hi - lo
  {
    if lo < hi {
      var m := Mid(lo, hi);
      var afterLeft := AfterBuild(t, a, LeftChild(node), lo, m);
      var afterRight := AfterBuild(afterLeft, a, RightChild(node), m + 1, hi);
      AfterBuildStaysInSubtree(t, a, LeftChild(node), lo, m);
      AfterBuildStaysInSubtree(afterLeft, a, RightChild(node), m + 1, hi);
      forall k | 0 <= k < |t| && !InSubtree(k, node)
        ensures Recompute(afterRight, node)[k] == t[k]
      {
        BelowChildren(k, node);
      }
    }
  }

  /** Building the right child's subtree keeps the left child's slot. */
  lemma {:induction false} LeftSlotKept(t: seq<int>, a: seq<int>, node: nat, lo: nat, hi: nat)
    requires lo < hi < |a| && LeftChild(node) < |t|
    ensures AfterBuild(t, a, RightChild(node), Mid(lo, hi) + 1, hi)[LeftChild(node)] == t[LeftChild(node)]
  {
    AfterBuildStaysInSubtree(t, a, RightChild(node), Mid(lo, hi) + 1, hi);
    assert !InSubtree(LeftChild(node), RightChild(node));
  }

  /** Building a subtree establishes the invariant over it, whatever the store
      held before. */
  lemma {:induction false} AfterBuildIsBuilt(t: seq<int>, a: seq<int>, node: nat, lo: nat, hi: nat)
    requires |t| == 4 * |a| && Fits(|a|, node, lo, hi)
    ensures Built(AfterBuild(t, a, node, lo, hi), a, node, lo, hi)
    decreases hi - lo
  {
    if lo < hi {
      var m := Mid(lo, hi);
      ChildrenFit(|a|, node, lo, hi);
      var afterLeft := AfterBuild(t, a, LeftChild(node), lo, m);
      var afterRight := AfterBuild(afterLeft, a, RightChild(node), m + 1, hi);
      AfterBuildIsBuilt(t, a, LeftChild(node), lo, m);
      AfterBuildIsBuilt(afterLeft, a, RightChild(node), m + 1, hi);
      BuildKeepsLeft(afterLeft, a, node, lo, hi);
      ParentBuilt(afterRight, a, node, lo, hi);
      AfterBuildInternal(t, a, node, lo, hi);
    }
  }

  /** Building the right child's subtree keeps the invariant of the left
      child's subtree. */
  lemma {:induction false} BuildKeepsLeft(t: seq<int>, a: seq<int>, node: nat, lo: nat, hi: nat)
    requires lo < hi < |a| && Built(t, a, LeftChild(node), lo, Mid(lo, hi))
    ensures Built(AfterBuild(t, a, RightChild(node), Mid(lo, hi) + 1, hi), a, LeftChild(node), lo, Mid(lo, hi))
  {
    var t' := AfterBuild(t, a, RightChild(node), Mid(lo, hi) + 1, hi);
    AfterBuildStaysInSubtree(t, a, RightChild(node), Mid(lo, hi) + 1, hi);
    LeftUntouched(t, t', node);
    BuiltFrame(t, t', a, a, LeftChild(node), lo, Mid(lo, hi));
  }

  /** The store after updating position pos to v in the subtree at node over
      [lo, hi]: a leaf takes v; an internal node updates the one child whose
      range holds pos, then stores its two children's values combined. */
  ghost function AfterUpdate(t: seq<int>, node: nat, lo: nat, hi: nat, pos: nat, v: int): (r: seq<int>)
    requires lo <= pos <= hi
    ensures |r| == |t|
    decreases hi - lo
  {
    if lo == hi then Write(t, node, v)
    else if pos <= Mid(lo, hi) then Recompute(AfterUpdate(t, LeftChild(node), lo, Mid(lo, hi), pos, v), node)
    else Recompute(AfterUpdate(t, RightChild(node), Mid(lo, hi) + 1, hi, pos, v), node)
  }

  /** Updating below an internal node is updating the child whose range
      holds pos, then recomputing the node. */
  lemma {:induction false} AfterUpdateInternal(t: seq<int>, node: nat, lo: nat, hi: nat, pos: nat, v: int)
    requires lo <= pos <= hi && lo < hi
    ensures AfterUpdate(t, node, lo, hi, pos, v) ==
      Recompute(if pos <= Mid(lo, hi) then AfterUpdate(t, LeftChild(node), lo, Mid(lo, hi), pos, v)
                else AfterUpdate(t, RightChild(node), Mid(lo, hi) + 1, hi, pos, v), node)
  {
  }

  /** An update writes only the slots on the path to pos. */
  lemma {:induction false} AfterUpdateStaysOnPath(t: seq<int>, node: nat, lo: nat, hi: nat, pos: nat, v: int)
    requires lo <= pos <= hi
    ensures SameOffPath(t, AfterUpdate(t, node, lo, hi, pos, v), node, lo, hi, pos)
    decreases hi - lo
  {
    if lo < hi {
      var m := Mid(lo, hi);
      if pos <= m {
        AfterUpdateStaysOnPath(t, LeftChild(node), lo, m, pos, v);
      } else {
        AfterUpdateStaysOnPath(t, RightChild(node), m + 1, hi, pos, v);
      }
    }
  }

  /** Writing into a node's slot the combination of its children's slots,
      when both child subtrees satisfy the invariant, makes the node's subtree
      satisfy it. */
  lemma {:induction false} ParentBuilt(t: seq<int>, a: seq<int>, node: nat, lo: nat, hi: nat)
    requires lo < hi < |a| && node < |t|
    requires Built(t, a, LeftChild(node), lo, Mid(lo, hi))
    requires Built(t, a, RightChild(node), Mid(lo, hi) + 1, hi)
    ensures Built(Recompute(t, node), a, node, lo, hi)
  {
    var x := CombineForUpdate(t[LeftChild(node)], t[RightChild(node)]);
    var t' := t[node := x];
    NodeOutsideChildSubtrees(t, node, x);
    BuiltFrame(t, t', a, a, LeftChild(node), lo, Mid(lo, hi));
    BuiltFrame(t, t', a, a, RightChild(node), Mid(lo, hi) + 1, hi);
    assert t'[LeftChild(node)] == t[LeftChild(node)] && t'[RightChild(node)] == t[RightChild(node)];
  }

  /** Updating inside the left child's subtree keeps the invariant of the
      right child's subtree, for the updated elements too. */
  lemma {:induction false} UpdateKeepsRight(t: seq<int>, a: seq<int>, node: nat, lo: nat, hi: nat, pos: nat, v: int)
    requires lo <= pos <= hi < |a| && lo < hi && pos <= Mid(lo, hi)
    requires Built(t, a, RightChild(node), Mid(lo, hi) + 1, hi)
    ensures Built(AfterUpdate(t, LeftChild(node), lo, Mid(lo, hi), pos, v), a[pos := v], RightChild(node), Mid(lo, hi) + 1, hi)
  {
    var t' := AfterUpdate(t, LeftChild(node), lo, Mid(lo, hi), pos, v);
    AfterUpdateStaysOnPath(t, LeftChild(node), lo, Mid(lo, hi), pos, v);
    OffPathIsInsideSubtree(t, t', LeftChild(node), lo, Mid(lo, hi), pos);
    RightUntouched(t, t', node);
    BuiltFrame(t, t', a, a[pos := v], RightChild(node), Mid(lo, hi) + 1, hi);
  }

  /** Updating inside the right child's subtree keeps the invariant of the
      left child's subtree, for the updated elements too. */
  lemma {:induction false} UpdateKeepsLeft(t: seq<int>, a: seq<int>, node: nat, lo: nat, hi: nat, pos: nat, v: int)
    requires lo <= pos <= hi < |a| && lo < hi && Mid(lo, hi) < pos
    requires Built(t, a, LeftChild(node), lo, Mid(lo, hi))
    ensures Built(AfterUpdate(t, RightChild(node), Mid(lo, hi) + 1, hi, pos, v), a[pos := v], LeftChild(node), lo, Mid(lo, hi))
  {
    var t' := AfterUpdate(t, RightChild(node), Mid(lo, hi) + 1, hi, pos, v);
    AfterUpdateStaysOnPath(t, RightChild(node), Mid(lo, hi) + 1, hi, pos, v);
    OffPathIsInsideSubtree(t, t', RightChild(node), Mid(lo, hi) + 1, hi, pos);
    LeftUntouched(t, t', node);
    BuiltFrame(t, t', a, a[pos := v], LeftChild(node), lo, Mid(lo, hi));
  }

  /** An update re-establishes the invariant for the elements with position
      pos replaced by v. */
  lemma {:induction false} AfterUpdateIsBuilt(t: seq<int>, a: seq<int>, node: nat, lo: nat, hi: nat, pos: nat, v: int)
    requires lo <= pos <= hi < |a| && Built(t, a, node, lo, hi)
    ensures Built(AfterUpdate(t, node, lo, hi, pos, v), a[pos := v], node, lo, hi)
    decreases hi - lo
  {
    if lo < hi {
      var m := Mid(lo, hi);
      if pos <= m {
        UpdateKeepsRight(t, a, node, lo, hi, pos, v);
        AfterUpdateIsBuilt(t, a, LeftChild(node), lo, m, pos, v);
        ParentBuilt(AfterUpdate(t, LeftChild(node), lo, m, pos, v), a[pos := v], node, lo, hi);
      } else {
        UpdateKeepsLeft(t, a, node, lo, hi, pos, v);
        AfterUpdateIsBuilt(t, a, RightChild(node), m + 1, hi, pos, v);
        ParentBuilt(AfterUpdate(t, RightChild(node), m + 1, hi, pos, v), a[pos := v], node, lo, hi);
      }
    }
  }
}
