/** The sum aggregation policy of the segment tree: the neutral value used for
    nodes outside a query, and the two combination hooks. Beside them sits the
    reference meaning of every aggregate, SumRange, and the lemmas that tie the
    hooks to it. */
module SumPolicy {

  function Min(x: int, y: int): int { if x <= y then x else y }

  function Max(x: int, y: int): int { if x <= y then y else x }

  /** The value a node contributes to a query that does not touch its range. */
  function OutOfRangeValue(): int { 0 }

  /** A parent's value recomputed from its two children, at build and update time. */
  function CombineForUpdate(leftChildValue: int, rightChildValue: int): int
  {
    leftChildValue + rightChildValue
  }

  /** Two partial query results from a node's two children merged into one. */
  function CombineForRange(leftChildValue: int, rightChildValue: int): int
  {
    leftChildValue + rightChildValue
  }

  /** The plain left-to-right sum of a sequence (the linear scan a caller would do). */
  function Sum(s: seq<int>): int
  {
    if s == [] then 0 else Sum(s[..|s| - 1]) + s[|s| - 1]
  }

  /** The element at position i, or nothing when i is not a position of a. */
  function At(a: seq<int>, i: int): int
  {
    if 0 <= i < |a| then a[i] else 0
  }

  /** The sum of the elements of a at the positions l..h inclusive; positions
      outside a contribute nothing, and an empty range (h < l) sums to zero. */
  function SumRange(a: seq<int>, l: int, h: int): int
    decreases h - l
  {
    if h < l then 0 else SumRange(a, l, h - 1) + At(a, h)
  }

  /** Within the bounds of a, SumRange is the sum of the slice a[l..h+1]. */
  lemma {:induction false} SumRangeIsSliceSum(a: seq<int>, l: int, h: int)
    requires 0 <= l <= h + 1 <= |a|
    ensures SumRange(a, l, h) == Sum(a[l..h + 1])
    decreases h - l
  {
    if h >= l {
      SumRangeIsSliceSum(a, l, h - 1);
      assert a[l..h + 1][..h - l] == a[l..h];
    }
  }

  /** A range that is empty or lies wholly outside a sums to the neutral value. */
  lemma {:induction false} OutsideSumsToNeutral(a: seq<int>, l: int, h: int)
    requires h < l || h < 0 || |a| <= l
    ensures SumRange(a, l, h) == OutOfRangeValue()
    decreases h - l
  {
    if h >= l {
      OutsideSumsToNeutral(a, l, h - 1);
    }
  }

  /** Splitting a range [l, h] at any m with l - 1 <= m <= h: the sums of the
      two halves combined by the update hook give the sum of the whole. This
      is what makes a parent's value the sum of its children's. */
  lemma {:induction false} CombineChildren(a: seq<int>, l: int, m: int, h: int)
    requires l - 1 <= m <= h
    ensures SumRange(a, l, h) == CombineForUpdate(SumRange(a, l, m), SumRange(a, m + 1, h))
    decreases h - m
  {
    if h > m {
      CombineChildren(a, l, m, h - 1);
    }
  }

  /** Splitting the query [l, h] at any m, with no relation between m and the
      query assumed: the part at or below m and the part above m, merged by the
      range hook, give the sum of the whole query. */
  lemma {:induction false} CombinePartials(a: seq<int>, l: int, h: int, m: int)
    ensures SumRange(a, l, h) == CombineForRange(SumRange(a, l, Min(m, h)), SumRange(a, Max(m + 1, l), h))
  {
    if h < l {
    } else if m < l {
      OutsideSumsToNeutral(a, l, Min(m, h));
    } else if h <= m {
      OutsideSumsToNeutral(a, Max(m + 1, l), h);
    } else {
      CombineChildren(a, l, m, h);
    }
  }

  /** Only the positions of a matter: clipping the range to [0, |a| - 1]
      leaves its sum unchanged. */
  lemma {:induction false} ClipToPositions(a: seq<int>, l: int, h: int)
    ensures SumRange(a, l, h) == SumRange(a, Max(l, 0), Min(h, |a| - 1))
  {
    CombinePartials(a, l, h, -1);
    OutsideSumsToNeutral(a, l, Min(-1, h));
    CombinePartials(a, Max(l, 0), h, |a| - 1);
    OutsideSumsToNeutral(a, Max(|a|, Max(l, 0)), h);
  }

  /** Replacing the element at position i by v changes the sum of every range
      holding i by v - a[i] and leaves every other range's sum alone. */
  lemma {:induction false} SumRangeAfterReplace(a: seq<int>, i: int, v: int, l: int, h: int)
    requires 0 <= i < |a|
    ensures SumRange(a[i := v], l, h) == if l <= i <= h then SumRange(a, l, h) - a[i] + v else SumRange(a, l, h)
    decreases h - l
  {
    if h >= l {
      SumRangeAfterReplace(a, i, v, l, h - 1);
    }
  }
}
