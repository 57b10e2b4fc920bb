/** Binary heaps kept in an array prefix: push, pop with a sinking hole, bottom-up building and heap sort. */
module Heap {
  import opened Bits

  // ---- the order ----

  /** The standard's requirement on a comparison. */
  ghost predicate StrictWeakOrder<T(!new)>(less: (T, T) -> bool)
  {
    && (forall x :: !less(x, x))
    && (forall x, y, z :: less(x, y) && less(y, z) ==> less(x, z))
    && (forall x, y, z :: !less(x, y) && !less(y, x) && !less(y, z) && !less(z, y) ==> !less(x, z))
  }

  lemma NotLessTransitive<T(!new)>(less: (T, T) -> bool, x: T, y: T, z: T)
    requires StrictWeakOrder(less) && !less(x, y) && !less(y, z)
    ensures !less(x, z)
  {
  }

  /** What is not above x is not above anything greater than x. */
  lemma BelowLower<T(!new)>(less: (T, T) -> bool, x: T, y: T, z: T)
    requires StrictWeakOrder(less) && less(x, y) && !less(x, z)
    ensures !less(y, z)
  {
  }

  /** A comparison with the number of times it was made. */
  class Comparison<T> {
    const less: (T, T) -> bool
    var calls: nat

    constructor (less: (T, T) -> bool)
      ensures this.less == less && calls == 0
    {
      this.less := less;
      calls := 0;
    }

    method Holds(x: T, y: T) returns (r: bool)
      modifies this
      ensures r == less(x, y) && calls == old(calls) + 1
    {
      calls := calls + 1;
      r := less(x, y);
    }
  }

  // ---- the tree inside the array ----

  function Parent(i: nat): nat
    requires i > 0
  {
    (i - 1) / 2
  }

  predicate InSubtree(top: nat, i: nat)
  {
    i == top || (i > top && InSubtree(top, Parent(i)))
  }

  /** Steps from i up to top. */
  function Level(top: nat, i: nat): nat
    requires InSubtree(top, i)
  {
    if i == top then 0 else 1 + Level(top, Parent(i))
  }

  /** Levels below node i in a heap of n elements. */
  function Height(i: nat, n: nat): nat
  {
    if i + 1 <= n / 2 then 1 + Height(i, n / 2) else 0
  }

  function Log2(n: nat): nat
  {
    if n < 2 then 0 else 1 + Log2(n / 2)
  }

  /** Heap order at every node of the subtree of top but those the hole takes part in. */
  ghost predicate OrderedBut<T(!new)>(s: seq<T>, less: (T, T) -> bool, top: nat, bottom: nat, hole: nat)
    requires bottom <= |s|
  {
    forall i :: top < i < bottom && InSubtree(top, i) && i != hole && Parent(i) != hole ==> !less(s[Parent(i)], s[i])
  }

  /** The children of the hole are no greater than the hole's parent. */
  ghost predicate ParentCovers<T(!new)>(s: seq<T>, less: (T, T) -> bool, bottom: nat, hole: nat)
    requires bottom <= |s| && hole < bottom
  {
    hole > 0 ==> forall i :: 0 < i < bottom && Parent(i) == hole ==> !less(s[Parent(hole)], s[i])
  }

  ghost predicate SubtreeHeap<T(!new)>(s: seq<T>, less: (T, T) -> bool, top: nat, bottom: nat)
    requires bottom <= |s|
  {
    forall i :: top < i < bottom && InSubtree(top, i) ==> !less(s[Parent(i)], s[i])
  }

  ghost predicate IsHeap<T(!new)>(s: seq<T>, less: (T, T) -> bool, n: nat)
    requires n <= |s|
  {
    forall i :: 0 < i < n ==> !less(s[Parent(i)], s[i])
  }

  /** Moving a neighbour into the hole and the value into the neighbour's place keeps the elements. */
  lemma HoleMoves<T>(s: seq<T>, hole: nat, from: nat, val: T)
    requires hole < |s| && from < |s| && hole != from
    ensures multiset(s[hole := s[from]][from := val]) == multiset(s[hole := val])
  {
  }

  // ---- percolating up ----

  /** While val climbs: order holds away from the hole, and val belongs above the hole's children. */
  ghost predicate Climbing<T(!new)>(s: seq<T>, less: (T, T) -> bool, top: nat, bottom: nat, hole: nat, val: T)
  {
    && hole < bottom <= |s| && InSubtree(top, hole)
    && OrderedBut(s, less, top, bottom, hole)
    && (hole > top ==> ParentCovers(s, less, bottom, hole))
    && (forall i :: 0 < i < bottom && Parent(i) == hole ==> !less(val, s[i]))
  }

  lemma LeafClimbs<T(!new)>(s: seq<T>, less: (T, T) -> bool, top: nat, bottom: nat, hole: nat, val: T)
    requires hole < bottom <= |s| && InSubtree(top, hole) && bottom <= 2 * hole + 1
    requires OrderedBut(s, less, top, bottom, hole)
    ensures Climbing(s, less, top, bottom, hole, val)
  {
  }

  lemma {:induction false} SubtreeAbove(top: nat, i: nat)
    requires InSubtree(top, i)
    ensures top <= i
  {
  }

  /** The value is above its parent: pulling the parent down keeps the order everywhere else. */
  lemma ClimbStep<T(!new)>(s: seq<T>, less: (T, T) -> bool, top: nat, bottom: nat, hole: nat, val: T)
    requires StrictWeakOrder(less) && top < hole && Climbing(s, less, top, bottom, hole, val)
    requires less(s[Parent(hole)], val)
    ensures InSubtree(top, Parent(hole)) && Level(top, hole) == 1 + Level(top, Parent(hole))
    ensures Climbing(s[hole := s[Parent(hole)]], less, top, bottom, Parent(hole), val)
  {
    var idx := Parent(hole);
    var s' := s[hole := s[idx]];
    SubtreeAbove(top, idx);
    forall i | 0 < i < bottom && Parent(i) == idx
      ensures !less(val, s'[i]) && (i != hole ==> !less(s[idx], s[i]))
    {
      assert InSubtree(top, i);
      if i != hole {
        assert !less(s[Parent(i)], s[i]);
        BelowLower(less, s[idx], val, s[i]);
      } else {
        assert !less(s[idx], s[idx]);
        BelowLower(less, s[idx], val, s[idx]);
      }
    }
    if idx > top {
      forall i | 0 < i < bottom && Parent(i) == idx
        ensures !less(s'[Parent(idx)], s'[i])
      {
        assert !less(s[Parent(idx)], s[idx]);
        if i != hole { NotLessTransitive(less, s[Parent(idx)], s[idx], s[i]); }
      }
    }
  }

  /** Dropping val where the climb stops completes the heap. */
  lemma ClimbEnds<T(!new)>(s: seq<T>, less: (T, T) -> bool, top: nat, bottom: nat, hole: nat, val: T)
    requires Climbing(s, less, top, bottom, hole, val)
    requires hole > top ==> !less(s[Parent(hole)], val)
    ensures SubtreeHeap(s[hole := val], less, top, bottom)
  {
  }

  /** Only nodes of the subtree of top below bottom differ. */
  ghost predicate SameOutside<T>(s: seq<T>, s0: seq<T>, top: nat, bottom: nat)
  {
    |s| == |s0| && forall k :: 0 <= k < |s| && !(InSubtree(top, k) && k < bottom) ==> s[k] == s0[k]
  }

  lemma UpdateInside<T>(s: seq<T>, s0: seq<T>, top: nat, bottom: nat, hole: nat, x: T)
    requires SameOutside(s, s0, top, bottom) && InSubtree(top, hole) && hole < bottom <= |s|
    ensures SameOutside(s[hole := x], s0, top, bottom)
  {
  }

  lemma SameAsItself<T>(s: seq<T>, top: nat, bottom: nat)
    ensures SameOutside(s, s, top, bottom)
  {
  }

  /** _Push_heap_by_index: the hole is a leaf; val climbs from it to where it belongs, at most to top. */
  method PushHeapByIndex<T(!new)>(a: array<T>, start: nat, top: nat, val: T, comp: Comparison<T>, ghost bottom: nat)
    requires StrictWeakOrder(comp.less) && InSubtree(top, start)
    requires start < bottom <= a.Length && bottom <= 2 * start + 1
    requires OrderedBut(a[..], comp.less, top, bottom, start)
    modifies a, comp
    ensures SubtreeHeap(a[..], comp.less, top, bottom)
    ensures multiset(a[..]) == multiset(old(a[..])[start := val])
    ensures SameOutside(a[..], old(a[..]), top, bottom)
    ensures old(comp.calls) <= comp.calls <= old(comp.calls) + Level(top, start)
  {
    hide Climbing, SameOutside, SubtreeHeap, OrderedBut, StrictWeakOrder;
    var hole: nat := start;
    ghost var less, s0 := comp.less, a[..];
    LeafClimbs(s0, less, top, bottom, start, val);
    SameAsItself(s0, top, bottom);
    while top < hole
      invariant InSubtree(top, hole) && hole < bottom
      invariant old(comp.calls) <= comp.calls && comp.calls - old(comp.calls) + Level(top, hole) == Level(top, start)
      invariant Climbing(a[..], less, top, bottom, hole, val)
      invariant multiset(a[..][hole := val]) == multiset(s0[start := val])
      invariant SameOutside(a[..], s0, top, bottom)
    {
      var idx := Parent(hole);
      ghost var s := a[..];
      var below := comp.Holds(a[idx], val);
      if !below {
        break;
      }
      HoleMoves(s, hole, idx, val);
      ClimbStep(s, less, top, bottom, hole, val);
      UpdateInside(s, s0, top, bottom, hole, s[idx]);
      a[hole] := a[idx];
      assert a[..] == s[hole := s[idx]];
      hole := idx;
    }
    ghost var s := a[..];
    ClimbEnds(s, less, top, bottom, hole, val);
    UpdateInside(s, s0, top, bottom, hole, val);
    a[hole] := val;
    assert a[..] == s[hole := val];
  }

  // ---- sinking the hole ----

  /** While the hole sinks: order holds away from it, and its children stay below its parent. */
  ghost predicate Sinking<T(!new)>(s: seq<T>, less: (T, T) -> bool, top: nat, bottom: nat, hole: nat)
  {
    && hole < bottom <= |s| && InSubtree(top, hole)
    && OrderedBut(s, less, top, bottom, hole)
    && (hole > top ==> ParentCovers(s, less, bottom, hole))
  }

  /** What the first phase keeps: s0 is the array before it, and hole has sunk at least one level per comparison. */
  ghost predicate Sunk<T(!new)>(s: seq<T>, s0: seq<T>, less: (T, T) -> bool, top: nat, bottom: nat, hole: nat, val: T,
                                calls: nat)
  {
    && Sinking(s, less, top, bottom, hole) && calls <= Level(top, hole)
    && top < |s0| && multiset(s[hole := val]) == multiset(s0[top := val])
    && SameOutside(s, s0, top, bottom)
  }

  lemma SinkStarts<T(!new)>(s: seq<T>, less: (T, T) -> bool, top: nat, bottom: nat, val: T)
    requires top < bottom <= |s| && OrderedBut(s, less, top, bottom, top)
    ensures Sunk(s, s, less, top, bottom, top, val, 0)
  {
  }

  /** The child of the hole that is no smaller than its sibling, if it has one. */
  ghost predicate LargestChild<T(!new)>(s: seq<T>, less: (T, T) -> bool, bottom: nat, hole: nat, child: nat)
  {
    && hole < child < bottom <= |s| && (child == 2 * hole + 1 || child == 2 * hole + 2)
    && forall i :: 2 * hole + 1 <= i <= 2 * hole + 2 && i < bottom ==> !less(s[child], s[i])
  }

  /** Filling the hole with a child no smaller than its sibling keeps the order everywhere but at the child. */
  lemma SinkStep<T(!new)>(s: seq<T>, less: (T, T) -> bool, top: nat, bottom: nat, hole: nat, child: nat)
    requires StrictWeakOrder(less) && Sinking(s, less, top, bottom, hole)
    requires LargestChild(s, less, bottom, hole, child)
    ensures InSubtree(top, child) && Level(top, child) == 1 + Level(top, hole)
    ensures Sinking(s[hole := s[child]], less, top, bottom, child)
  {
    SubtreeAbove(top, hole);
    var s' := s[hole := s[child]];
    assert Parent(child) == hole;
    forall i | 0 < i < bottom && Parent(i) == child
      ensures !less(s'[Parent(child)], s'[i])
    {
      assert InSubtree(top, i);
    }
  }

  lemma SinkEnds<T(!new)>(s: seq<T>, s0: seq<T>, less: (T, T) -> bool, top: nat, bottom: nat, hole: nat, val: T,
                          calls: nat)
    requires Sunk(s, s0, less, top, bottom, hole, val, calls)
    ensures hole < bottom <= |s| && InSubtree(top, hole) && calls <= Level(top, hole)
    ensures OrderedBut(s, less, top, bottom, hole) && SameOutside(s, s0, top, bottom)
    ensures top < |s0| && multiset(s[hole := val]) == multiset(s0[top := val])
  {
  }

  /** One comparison picks the child to move up: the right one unless it is less than the left one. */
  method LargerChild<T(!new)>(a: array<T>, bottom: nat, hole: nat, comp: Comparison<T>) returns (child: nat)
    requires StrictWeakOrder(comp.less) && 2 * hole + 2 < bottom <= a.Length
    modifies comp
    ensures comp.calls == old(comp.calls) + 1
    ensures hole < child < bottom && LargestChild(a[..], comp.less, bottom, hole, child)
  {
    child := 2 * hole + 2;
    var smaller := comp.Holds(a[child], a[child - 1]);
    if smaller {
      child := child - 1;
    }
  }

  /** One step down, with everything the loop keeps. */
  lemma MoveHole<T(!new)>(s: seq<T>, s0: seq<T>, less: (T, T) -> bool, top: nat, bottom: nat, hole: nat, child: nat,
                          val: T, calls: nat, calls': nat)
    requires StrictWeakOrder(less) && Sunk(s, s0, less, top, bottom, hole, val, calls)
    requires LargestChild(s, less, bottom, hole, child) && calls' <= calls + 1
    ensures hole < child < bottom <= |s|
    ensures Sunk(s[hole := s[child]], s0, less, top, bottom, child, val, calls')
  {
    hide StrictWeakOrder, SameOutside, Level;
    SinkStep(s, less, top, bottom, hole, child);
    HoleMoves(s, hole, child, val);
    UpdateInside(s, s0, top, bottom, hole, s[child]);
  }

  lemma OnlyChild<T(!new)>(s: seq<T>, less: (T, T) -> bool, bottom: nat, hole: nat)
    requires StrictWeakOrder(less) && 2 * hole + 2 == bottom <= |s|
    ensures LargestChild(s, less, bottom, hole, bottom - 1)
  {
  }

  /** The first phase: one comparison for every node with two children on the way down. */
  method SinkToBottom<T(!new)>(a: array<T>, start: nat, bottom: nat, ghost val: T, comp: Comparison<T>)
    returns (hole: nat)
    requires StrictWeakOrder(comp.less) && start < bottom <= a.Length
    requires OrderedBut(a[..], comp.less, start, bottom, start)
    modifies a, comp
    ensures old(comp.calls) <= comp.calls && hole < bottom <= 2 * hole + 1
    ensures Sunk(a[..], old(a[..]), comp.less, start, bottom, hole, val, comp.calls - old(comp.calls))
  {
    hide Sunk, StrictWeakOrder, LargestChild, OrderedBut;
    hole := start;
    var idx: nat := start;
    ghost var less, s0, c0 := comp.less, a[..], comp.calls;
    SinkStarts(s0, less, start, bottom, val);
    var maxNonLeaf: nat := (bottom - 1) / 2;
    while idx < maxNonLeaf
      invariant hole == idx < bottom && c0 <= comp.calls
      invariant Sunk(a[..], s0, less, start, bottom, hole, val, comp.calls - c0)
      decreases maxNonLeaf - idx
    {
      ghost var c := comp.calls - c0;
      idx := LargerChild(a, bottom, hole, comp);
      ghost var s := a[..];
      MoveHole(s, s0, less, start, bottom, hole, idx, val, c, c + 1);
      a[hole] := a[idx];
      assert a[..] == s[hole := s[idx]];
      hole := idx;
    }
    if idx == maxNonLeaf && bottom % 2 == 0 {
      ghost var s := a[..];
      OnlyChild(s, less, bottom, hole);
      MoveHole(s, s0, less, start, bottom, hole, bottom - 1, val, comp.calls - c0, comp.calls - c0);
      a[hole] := a[bottom - 1];
      assert a[..] == s[hole := s[bottom - 1]];
      hole := bottom - 1;
    }
  }

  lemma {:induction false} LevelBelowHeight(top: nat, i: nat, n: nat)
    requires InSubtree(top, i) && i < n
    ensures Level(top, i) <= Height(top, n)
  {
    if i > top {
      LevelBelowHeight(top, Parent(i), n / 2);
      SubtreeAbove(top, Parent(i));
    }
  }

  lemma BothSame<T>(s2: seq<T>, s1: seq<T>, s0: seq<T>, top: nat, bottom: nat)
    requires SameOutside(s2, s1, top, bottom) && SameOutside(s1, s0, top, bottom)
    ensures SameOutside(s2, s0, top, bottom)
  {
  }

  /**
    _Pop_heap_hole_by_index: the hole at start sinks to the bottom along the larger children, then val
    climbs back. Only the subtree below start changes.
   */
  method PopHeapHoleByIndex<T(!new)>(a: array<T>, start: nat, bottom: nat, val: T, comp: Comparison<T>)
    requires StrictWeakOrder(comp.less) && start < bottom <= a.Length
    requires OrderedBut(a[..], comp.less, start, bottom, start)
    modifies a, comp
    ensures SubtreeHeap(a[..], comp.less, start, bottom)
    ensures multiset(a[..]) == multiset(old(a[..])[start := val])
    ensures SameOutside(a[..], old(a[..]), start, bottom)
    ensures old(comp.calls) <= comp.calls <= old(comp.calls) + 2 * Height(start, bottom)
  {
    hide Sunk, SameOutside, SubtreeHeap, OrderedBut, StrictWeakOrder, Height;
    ghost var s0 := a[..];
    var hole := SinkToBottom(a, start, bottom, val, comp);
    ghost var s := a[..];
    SinkEnds(s, s0, comp.less, start, bottom, hole, val, comp.calls - old(comp.calls));
    LevelBelowHeight(start, hole, bottom);
    PushHeapByIndex(a, hole, start, val, comp, bottom);
    BothSame(a[..], s, s0, start, bottom);
  }

  // ---- whole heaps ----

  lemma {:induction false} AllBelowRoot(i: nat)
    ensures InSubtree(0, i)
  {
    if i > 0 {
      AllBelowRoot(Parent(i));
    }
  }

  lemma RootSubtreeIsHeap<T(!new)>(s: seq<T>, less: (T, T) -> bool, n: nat)
    requires n <= |s| && SubtreeHeap(s, less, 0, n)
    ensures IsHeap(s, less, n)
  {
    forall i | 0 < i < n
      ensures !less(s[Parent(i)], s[i])
    {
      AllBelowRoot(i);
    }
  }

  /** A heap is an array in which no element is below either of its children. */
  lemma HeapMeaning<T(!new)>(s: seq<T>, less: (T, T) -> bool, n: nat)
    requires n <= |s|
    ensures IsHeap(s, less, n) <==>
              forall i, j :: 0 <= i < j < n && (j == 2 * i + 1 || j == 2 * i + 2) ==> !less(s[i], s[j])
  {
    if IsHeap(s, less, n) {
      forall i: nat, j: nat | i < j < n && (j == 2 * i + 1 || j == 2 * i + 2)
        ensures !less(s[i], s[j])
      {
        assert Parent(j) == i;
      }
    }
  }

  lemma {:induction false} LevelIsLog(i: nat)
    ensures InSubtree(0, i) && Level(0, i) == Log2(i + 1)
  {
    if i > 0 {
      LevelIsLog(Parent(i));
      assert Parent(i) + 1 == (i + 1) / 2;
    }
  }

  lemma {:induction false} HeightOfRoot(n: nat)
    ensures Height(0, n) == Log2(n)
  {
    if n >= 2 {
      HeightOfRoot(n / 2);
    }
  }

  /** Height follows the leftmost path: a node with a child is one above it. */
  lemma {:induction false} HeightOfNode(i: nat, n: nat)
    ensures Height(i, n) == if 2 * i + 1 < n then 1 + Height(2 * i + 1, n) else 0
  {
    if 2 * i + 2 <= n {
      HeightOfNode(i, n / 2);
    }
  }

  /** Log2 is the rounded-down logarithm. */
  lemma {:induction false} LogIsLogarithm(n: nat)
    requires n > 0
    ensures Pow2(Log2(n)) <= n < Pow2(Log2(n) + 1)
  {
    if n >= 2 {
      LogIsLogarithm(n / 2);
    } else {
      SmallPowers();
    }
  }

  lemma {:induction false} LogMonotone(m: nat, n: nat)
    requires m <= n
    ensures Log2(m) <= Log2(n)
  {
    if m >= 2 {
      LogMonotone(m / 2, n / 2);
    }
  }

  /** No element of a heap is above its root. */
  lemma {:induction false} RootIsLargest<T(!new)>(s: seq<T>, less: (T, T) -> bool, n: nat, i: nat)
    requires StrictWeakOrder(less) && n <= |s| && IsHeap(s, less, n) && i < n
    ensures !less(s[0], s[i])
  {
    if i > 0 {
      RootIsLargest(s, less, n, Parent(i));
      NotLessTransitive(less, s[0], s[Parent(i)], s[i]);
    }
  }

  /** The first n elements are rearranged and the rest stays. */
  ghost predicate Rearranged<T>(s: seq<T>, s0: seq<T>, n: nat)
    requires n <= |s|
  {
    |s| == |s0| && multiset(s[..n]) == multiset(s0[..n]) && s[n..] == s0[n..]
  }

  lemma PrefixRearranged<T>(s: seq<T>, s0: seq<T>, n: nat)
    requires n <= |s| == |s0| && multiset(s) == multiset(s0)
    requires forall k :: n <= k < |s| ==> s[k] == s0[k]
    ensures Rearranged(s, s0, n)
  {
    assert s == s[..n] + s[n..] && s0 == s0[..n] + s0[n..];
    assert s[n..] == s0[n..];
    assert multiset(s[..n]) == multiset(s) - multiset(s[n..]);
    assert multiset(s0[..n]) == multiset(s0) - multiset(s0[n..]);
  }

  lemma RearrangedMember<T>(s: seq<T>, s0: seq<T>, n: nat, i: nat) returns (j: nat)
    requires n <= |s| && Rearranged(s, s0, n) && i < n
    ensures j < n && s0[j] == s[i]
  {
    assert s[..n][i] in multiset(s[..n]);
    assert s[i] in s0[..n];
    j :| j < n && s0[..n][j] == s[i];
  }

  lemma RearrangedTwice<T>(s2: seq<T>, s1: seq<T>, s0: seq<T>, m: nat, n: nat)
    requires m <= n <= |s2| && Rearranged(s2, s1, m) && Rearranged(s1, s0, n)
    ensures Rearranged(s2, s0, n)
  {
    assert s2[..n] == s2[..m] + s2[m..][..n - m];
    assert s1[..n] == s1[..m] + s1[m..][..n - m];
    assert s2[n..] == s2[m..][n - m..] && s1[n..] == s1[m..][n - m..];
  }

  lemma PushInput<T(!new)>(s: seq<T>, less: (T, T) -> bool, n: nat)
    requires 0 < n <= |s| && IsHeap(s, less, n - 1)
    ensures OrderedBut(s, less, 0, n, n - 1)
  {
  }

  lemma OutsideRange<T>(s: seq<T>, s0: seq<T>, top: nat, n: nat)
    requires SameOutside(s, s0, top, n)
    ensures |s| == |s0| && forall k :: n <= k < |s| ==> s[k] == s0[k]
  {
  }

  lemma RearrangedNot<T>(s: seq<T>, n: nat)
    requires n <= |s|
    ensures Rearranged(s, s, n)
  {
  }

  /** push_heap: the last of n elements joins the heap before it, with at most log2 n comparisons. */
  method PushHeap<T(!new)>(a: array<T>, n: nat, comp: Comparison<T>)
    requires StrictWeakOrder(comp.less) && n <= a.Length
    requires n > 0 ==> IsHeap(a[..], comp.less, n - 1)
    modifies a, comp
    ensures IsHeap(a[..], comp.less, n) && Rearranged(a[..], old(a[..]), n)
    ensures old(comp.calls) <= comp.calls <= old(comp.calls) + Log2(n)
  {
    ghost var less, s0 := comp.less, a[..];
    if 2 <= n {
      hide StrictWeakOrder, SubtreeHeap, SameOutside, OrderedBut, IsHeap, Log2, Level, InSubtree, Rearranged;
      var val := a[n - 1];
      LevelIsLog(n - 1);
      PushInput(s0, less, n);
      PushHeapByIndex(a, n - 1, 0, val, comp, n);
      assert s0[n - 1 := val] == s0;
      RootSubtreeIsHeap(a[..], less, n);
      OutsideRange(a[..], s0, 0, n);
      PrefixRearranged(a[..], s0, n);
    } else {
      RearrangedNot(s0, n);
    }
  }

  lemma PopInput<T(!new)>(s: seq<T>, s': seq<T>, less: (T, T) -> bool, n: nat)
    requires 2 <= n <= |s| && IsHeap(s, less, n) && s' == s[n - 1 := s[0]]
    ensures OrderedBut(s', less, 0, n - 1, 0)
    ensures multiset(s'[0 := s[n - 1]]) == multiset(s)
  {
  }

  lemma PoppedIsLargest<T(!new)>(s: seq<T>, s0: seq<T>, less: (T, T) -> bool, n: nat)
    requires StrictWeakOrder(less) && n <= |s| && Rearranged(s, s0, n) && IsHeap(s0, less, n)
    requires n > 0 ==> s[n - 1] == s0[0]
    ensures n > 0 ==> forall i :: 0 <= i < n ==> !less(s[n - 1], s[i])
  {
    forall i | 0 <= i < n
      ensures !less(s[n - 1], s[i])
    {
      var j := RearrangedMember(s, s0, n, i);
      RootIsLargest(s0, less, n, j);
    }
  }

  /**
    pop_heap: the largest element goes to the end and the rest is a heap again, with at most
    2 log2 (n - 1) comparisons.
   */
  method PopHeap<T(!new)>(a: array<T>, n: nat, comp: Comparison<T>)
    requires StrictWeakOrder(comp.less) && n <= a.Length && IsHeap(a[..], comp.less, n)
    modifies a, comp
    ensures n > 0 ==> IsHeap(a[..], comp.less, n - 1) && a[n - 1] == old(a[0])
    ensures n > 0 ==> forall i :: 0 <= i < n ==> !comp.less(a[n - 1], a[i])
    ensures Rearranged(a[..], old(a[..]), n)
    ensures old(comp.calls) <= comp.calls <= old(comp.calls) + if n < 2 then 0 else 2 * Log2(n - 1)
  {
    ghost var less, s0 := comp.less, a[..];
    if 2 <= n {
      hide StrictWeakOrder, SubtreeHeap, SameOutside, OrderedBut, IsHeap, Log2, Height;
      var val := a[n - 1];
      a[n - 1] := a[0];
      ghost var s1 := a[..];
      assert s1 == s0[n - 1 := s0[0]];
      PopInput(s0, s1, less, n);
      PopHeapHoleByIndex(a, 0, n - 1, val, comp);
      HeightOfRoot(n - 1);
      RootSubtreeIsHeap(a[..], less, n - 1);
      OutsideRange(a[..], s1, 0, n - 1);
      PrefixRearranged(a[..], s0, n);
    } else {
      RearrangedNot(s0, n);
    }
    PoppedIsLargest(a[..], s0, less, n);
  }

  // ---- building a heap ----

  /** Heap order at every node whose parent is at lo or later. */
  ghost predicate HeapFrom<T(!new)>(s: seq<T>, less: (T, T) -> bool, lo: nat, n: nat)
    requires n <= |s|
  {
    forall i :: 0 < i < n && Parent(i) >= lo ==> !less(s[Parent(i)], s[i])
  }

  function SumHeights(k: nat, n: nat): nat
  {
    if k == 0 then 0 else SumHeights(k - 1, n) + Height(k - 1, n)
  }

  lemma {:induction false} SumHeightsHalves(k: nat, n: nat)
    requires k <= n / 2
    ensures SumHeights(k, n) == k + SumHeights(k, n / 2)
  {
    if k > 0 {
      SumHeightsHalves(k - 1, n);
    }
  }

  lemma {:induction false} SumHeightsOfLeaves(k: nat, n: nat)
    requires n / 2 <= k
    ensures SumHeights(k, n) == SumHeights(n / 2, n)
  {
    if k > n / 2 {
      SumHeightsOfLeaves(k - 1, n);
    }
  }

  /** The heights of all nodes of a heap add up to less than their number. */
  lemma {:induction false} SumHeightsBound(n: nat)
    requires n > 0
    ensures SumHeights(n, n) < n
  {
    SumHeightsOfLeaves(n, n);
    SumHeightsHalves(n / 2, n);
    if n / 2 > 0 {
      SumHeightsBound(n / 2);
    }
  }

  lemma BuildInput<T(!new)>(s: seq<T>, less: (T, T) -> bool, hole: nat, n: nat)
    requires hole < n <= |s| && HeapFrom(s, less, hole + 1, n)
    ensures OrderedBut(s, less, hole, n, hole)
  {
    forall i | hole < i < n && InSubtree(hole, i) && i != hole && Parent(i) != hole
      ensures !less(s[Parent(i)], s[i])
    {
      SubtreeAbove(hole, Parent(i));
    }
  }

  lemma BuildStep<T(!new)>(s: seq<T>, s0: seq<T>, less: (T, T) -> bool, hole: nat, n: nat)
    requires n <= |s| && SameOutside(s, s0, hole, n) && SubtreeHeap(s, less, hole, n)
    requires HeapFrom(s0, less, hole + 1, n)
    ensures HeapFrom(s, less, hole, n)
  {
    forall i | 0 < i < n && Parent(i) >= hole
      ensures !less(s[Parent(i)], s[i])
    {
      if !InSubtree(hole, i) {
        assert !InSubtree(hole, Parent(i));
      }
    }
  }

  /** make_heap: any n elements become a heap, with fewer than 2 n comparisons; the standard allows 3 n. */
  method MakeHeap<T(!new)>(a: array<T>, n: nat, comp: Comparison<T>)
    requires StrictWeakOrder(comp.less) && n <= a.Length
    modifies a, comp
    ensures IsHeap(a[..], comp.less, n) && Rearranged(a[..], old(a[..]), n)
    ensures old(comp.calls) <= comp.calls <= old(comp.calls) + 3 * n
    ensures n > 0 ==> comp.calls < old(comp.calls) + 2 * n
  {
    hide SameOutside, SubtreeHeap, OrderedBut, StrictWeakOrder;
    ghost var less, s0 := comp.less, a[..];
    var hole: nat := n / 2;
    while hole > 0
      invariant hole <= n / 2 && HeapFrom(a[..], less, hole, n) && Rearranged(a[..], s0, n)
      invariant old(comp.calls) <= comp.calls
      invariant comp.calls - old(comp.calls) + 2 * SumHeights(hole, n) <= 2 * SumHeights(n / 2, n)
    {
      hole := hole - 1;
      ghost var s := a[..];
      var val := a[hole];
      BuildInput(s, less, hole, n);
      PopHeapHoleByIndex(a, hole, n, val, comp);
      assert s[hole := val] == s;
      BuildStep(a[..], s, less, hole, n);
      OutsideRange(a[..], s, hole, n);
      PrefixRearranged(a[..], s, n);
      RearrangedTwice(a[..], s, s0, n, n);
    }
    if n > 0 {
      SumHeightsBound(n);
      SumHeightsOfLeaves(n, n);
    }
  }

  // ---- sorting ----

  ghost predicate SortedFrom<T(!new)>(s: seq<T>, less: (T, T) -> bool, last: nat, n: nat)
    requires n <= |s|
  {
    forall i, j :: 0 <= i < j < n && last <= j ==> !less(s[j], s[i])
  }

  /** Popping the largest of a prefix extends the sorted tail. */
  lemma SortStep<T(!new)>(s: seq<T>, s0: seq<T>, less: (T, T) -> bool, last: nat, n: nat)
    requires 0 < last <= n <= |s| && Rearranged(s, s0, last) && SortedFrom(s0, less, last, n)
    requires forall i :: 0 <= i < last ==> !less(s[last - 1], s[i])
    ensures SortedFrom(s, less, last - 1, n)
  {
    forall i, j | 0 <= i < j < n && last - 1 <= j
      ensures !less(s[j], s[i])
    {
      if j >= last {
        assert s[j] == s[last..][j - last] && s0[j] == s0[last..][j - last];
        if i < last {
          var k := RearrangedMember(s, s0, last, i);
          assert !less(s0[j], s0[k]);
        } else {
          assert s[i] == s[last..][i - last] && s0[i] == s0[last..][i - last];
        }
      }
    }
  }

  /** The comparisons of k pops of at most 2 log each. */
  function Rounds(k: int, log: nat): int { 2 * k * log }

  lemma NoRounds(log: nat)
    ensures Rounds(0, log) == 0
  {
  }

  lemma RoundsStep(k: int, log: nat)
    ensures Rounds(k + 1, log) == Rounds(k, log) + 2 * log
  {
  }

  lemma RoundsBound(k: int, n: nat, log: nat)
    requires k <= n
    ensures Rounds(k, log) <= 2 * n * log
  {
    assert 0 <= (n - k) * log;
  }

  /** sort_heap: popping every shrinking prefix of a heap sorts it, within 2 n log2 n comparisons. */
  method SortHeap<T(!new)>(a: array<T>, n: nat, comp: Comparison<T>)
    requires StrictWeakOrder(comp.less) && n <= a.Length && IsHeap(a[..], comp.less, n)
    modifies a, comp
    ensures SortedFrom(a[..], comp.less, 0, n) && Rearranged(a[..], old(a[..]), n)
    ensures old(comp.calls) <= comp.calls <= old(comp.calls) + 2 * n * Log2(n)
  {
    hide StrictWeakOrder, Rearranged, IsHeap, Log2, Rounds;
    ghost var less, s0 := comp.less, a[..];
    RearrangedNot(s0, n);
    var last: nat := n;
    ghost var log := Log2(n);
    NoRounds(log);
    while last >= 2
      invariant last <= n && IsHeap(a[..], less, last) && SortedFrom(a[..], less, last, n) && Rearranged(a[..], s0, n)
      invariant old(comp.calls) <= comp.calls <= old(comp.calls) + Rounds(n - last, log)
    {
      ghost var s := a[..];
      PopHeap(a, last, comp);
      LogMonotone(last - 1, n);
      RoundsStep(n - last, log);
      SortStep(a[..], s, less, last, n);
      RearrangedTwice(a[..], s, s0, last, n);
      last := last - 1;
    }
    RoundsBound(n - last, n, log);
  }

  /** Building a heap and popping it empty sorts any array prefix. */
  method HeapSort<T(!new)>(a: array<T>, n: nat, comp: Comparison<T>)
    requires StrictWeakOrder(comp.less) && n <= a.Length
    modifies a, comp
    ensures forall i, j :: 0 <= i < j < n ==> !comp.less(a[j], a[i])
    ensures multiset(a[..n]) == multiset(old(a[..n])) && a[n..] == old(a[n..])
    ensures old(comp.calls) <= comp.calls <= old(comp.calls) + 3 * n + 2 * n * Log2(n)
  {
    ghost var s0 := a[..];
    MakeHeap(a, n, comp);
    ghost var s1 := a[..];
    SortHeap(a, n, comp);
    RearrangedTwice(a[..], s1, s0, n, n);
    assert forall k :: 0 <= k < n ==> a[..][k] == a[k];
    assert a[..][..n] == a[..n] && a[..][n..] == a[n..] && s0[..n] == old(a[..n]) && s0[n..] == old(a[n..]);
  }
}
