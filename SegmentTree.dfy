/** The array-backed segment tree with the sum policy: a store of 4n slots that
    encodes an implicit binary tree over n input positions, built once and then
    changed one root-to-leaf path at a time by point updates, and read by range
    queries that combine the nodes a query covers. */
module SegmentTrees {
  import opened SumPolicy
  import opened HeapLayout
  import opened TreeStore

  datatype Error = InvalidArgument

  datatype Result<T> = Success(value: T) | Failure(error: Error)

  class SegmentTree {
    /** The flat store of node values (4n slots). */
    var store: array<int>
    /** The number of input positions n. */
    var size: nat
    /** The logical array the tree stands for. */
    ghost var elems: seq<int>

    ghost predicate Valid()
      reads this, store
    {
      0 < size && store.Length == 4 * size && |elems| == size &&
      Built(store[..], elems, 0, 0, size - 1)
    }

    /** Sizes the store at 4n slots for a non-empty input and builds the tree
        from it. */
    constructor (arr: seq<int>)
      requires 0 < |arr|
      ensures Valid() && fresh(store)
      ensures size == |arr| && store.Length == 4 * |arr| && elems == arr
    {
      size := |arr|;
      store := new int[4 * |arr|];
      new;
      BuildTree(arr);
    }

    /** Fills every node of the tree from arr. */
    method BuildTree(arr: seq<int>)
      requires 0 < size && |arr| == size && store.Length == 4 * size
      modifies this, store
      ensures Valid() && elems == arr
      ensures store == old(store) && size == old(size)
    {
      TreeFits(size);
      ghost var before := store[..];
      var total := BuildHelper(0, arr, 0, size - 1);
      AfterBuildIsBuilt(before, arr, 0, 0, size - 1);
      elems := arr;
    }

    /** Builds the subtree at node over [lo, hi] and returns the value it
        stores at node. */
    method BuildHelper(node: nat, arr: seq<int>, lo: nat, hi: nat) returns (r: int)
      requires store.Length == 4 * |arr| && Fits(|arr|, node, lo, hi)
      modifies store
      ensures store[..] == AfterBuild(old(store[..]), arr, node, lo, hi)
      ensures node < store.Length && r == store[node]
      decreases hi - lo
    {
      if lo == hi {
        store[node] := arr[lo];
        assert store[..] == Write(old(store[..]), node, arr[lo]);
        r := store[node];
        return;
      }
      var left := LeftChild(node);
      var right := RightChild(node);
      var mid := Mid(lo, hi);
      var leftValue := BuildHelper(left, arr, lo, mid);
      ghost var afterLeft := store[..];
      var rightValue := BuildHelper(right, arr, mid + 1, hi);
      ghost var afterRight := store[..];
      LeftSlotKept(afterLeft, arr, node, lo, hi);
      var currentNodeValue := CombineForUpdate(leftValue, rightValue);
      store[node] := currentNodeValue;
      assert store[..] == Recompute(afterRight, node);
      AfterBuildInternal(old(store[..]), arr, node, lo, hi);
      assert store[..] == AfterBuild(old(store[..]), arr, node, lo, hi);
      r := store[node];
    }

    /** Sets element index to v: the leaf for index takes v and every node on
        the path above it is recomputed; no other slot is written. */
    method Update(index: int, v: int)
      requires Valid()
      requires 0 <= index < size
      modifies this, store
      ensures Valid()
      ensures elems == old(elems)[index := v]
      ensures store == old(store) && size == old(size)
      ensures store[..] == AfterUpdate(old(store[..]), 0, 0, size - 1, index, v)
    {
      TreeFits(size);
      AfterUpdateIsBuilt(store[..], elems, 0, 0, size - 1, index, v);
      UpdateHelper(0, 0, size - 1, index, v);
      elems := elems[index := v];
    }

    /** Writes v at the leaf for pos in the subtree at node over [lo, hi] and
        recomputes the nodes above it. */
    method UpdateHelper(node: nat, lo: nat, hi: nat, pos: nat, v: int)
      requires store.Length == 4 * size && Fits(size, node, lo, hi) && lo <= pos <= hi
      modifies store
      ensures store[..] == AfterUpdate(old(store[..]), node, lo, hi, pos, v)
      decreases hi - lo
    {
      if lo == hi {
        store[node] := v;
        assert store[..] == Write(old(store[..]), node, v);
        return;
      }
      ChildrenFit(size, node, lo, hi);
      var left := LeftChild(node);
      var right := RightChild(node);
      var mid := Mid(lo, hi);
      if pos <= mid {
        UpdateHelper(left, lo, mid, pos, v);
      }
      if pos > mid {
        UpdateHelper(right, mid + 1, hi, pos, v);
      }
      ghost var afterChild := store[..];
      var leftValue := store[left];
      var rightValue := store[right];
      var currentNodeValue := CombineForUpdate(leftValue, rightValue);
      store[node] := currentNodeValue;
      assert store[..] == Recompute(afterChild, node);
      AfterUpdateInternal(old(store[..]), node, lo, hi, pos, v);
    }

    /** The sum of the elements at positions left..right that lie inside the
        range [lo, hi] of node: full coverage reads the node's slot, a node
        disjoint from the query contributes the neutral value, and a partial
        overlap combines the answers of both children. */
    function RangeAt(node: nat, lo: nat, hi: nat, left: int, right: int): (r: int)
      reads this, store
      requires lo <= hi < |elems| && Built(store[..], elems, node, lo, hi)
      ensures r == SumRange(elems, Max(lo, left), Min(hi, right))
      ensures hi < left || right < lo ==> r == OutOfRangeValue()
      decreases hi - lo
    {
      if lo >= left && hi <= right then
        BuiltMeansSum(store[..], elems, node, lo, hi);
        store[node]
      else if hi < left || lo > right then
        OutOfRangeValue()
      else
        var mid := Mid(lo, hi);
        CombinePartials(elems, Max(lo, left), Min(hi, right), mid);
        CombineForRange(RangeAt(LeftChild(node), lo, mid, left, right),
                        RangeAt(RightChild(node), mid + 1, hi, left, right))
    }

    /** The sum of the current elements at positions left..right; positions
        outside [0, size - 1] contribute nothing, so an inverted range gives the
        neutral value. Only reads the store. */
    method GetRange(left: int, right: int) returns (r: int)
      requires Valid()
      ensures r == SumRange(elems, left, right)
      ensures right < left ==> r == OutOfRangeValue()
      ensures 0 <= left <= right < size ==> r == Sum(elems[left..right + 1])
      ensures 0 <= left == right < size ==> r == elems[left]
    {
      r := RangeAt(0, 0, size - 1, left, right);
      ClipToPositions(elems, left, right);
      if 0 <= left <= right < size {
        SumRangeIsSliceSum(elems, left, right);
      }
    }
  }

  /** Construction with the empty-input case as an error value: an empty input
      is rejected with InvalidArgument, any other input gives a built tree. */
  method Create(arr: seq<int>) returns (r: Result<SegmentTree>)
    ensures r.Failure? <==> |arr| == 0
    ensures r.Failure? ==> r.error == InvalidArgument
    ensures r.Success? ==> fresh(r.value) && r.value.Valid() && r.value.elems == arr && r.value.size == |arr|
  {
    if |arr| == 0 {
      return Failure(InvalidArgument);
    }
    var tree := new SegmentTree(arr);
    r := Success(tree);
  }

  /** The worked example [1, 3, 5, 7, 9]: the whole range and [1, 3] before and
      after replacing 5 by 10, and the single position 2 afterwards. */
  method Example() returns (whole: int, middle: int, wholeAfter: int, middleAfter: int, single: int)
    ensures whole == 25 && middle == 15
    ensures wholeAfter == 30 && middleAfter == 20 && single == 10
  {
    var tree := new SegmentTree([1, 3, 5, 7, 9]);
    whole := tree.GetRange(0, 4);
    middle := tree.GetRange(1, 3);
    tree.Update(2, 10);
    wholeAfter := tree.GetRange(0, 4);
    middleAfter := tree.GetRange(1, 3);
    single := tree.GetRange(2, 2);
  }
}
