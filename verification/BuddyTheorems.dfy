/**
 * What the allocator promises, stated about the live blocks alone: what the
 * split bits mean, what the free lists hold, that blocks tile the tree, that
 * buddies coalesce, that free undoes malloc, and when malloc fails.
 */
module BuddyTheorems {
  import opened Wrappers
  import opened BuddyIndex
  import opened BuddyHeap
  import opened BuddyBits
  import opened BuddyAlloc
  import opened BuddyCover
  import opened BuddyState

  // ---------------------------------------------------------------- unused nodes

  /** The live block at a does not reach into slots from (inclusive) to end (exclusive). */
  ghost predicate Clear(st: State, a: nat, from: nat, end: nat)
    requires Valid(st) && a in st.live
  {
    a + BlockSpan(st, a) <= from || end <= a
  }

  /** No live block overlaps node i of bucket k. */
  ghost predicate Unused(st: State, i: nat, k: nat)
    requires Valid(st) && k <= st.heap.levels && AtLevel(i, k)
  {
    forall a | a in st.live ::
      Clear(st, a, SlotOf(st.heap.levels, i, k), SlotOf(st.heap.levels, i, k) + Span(st.heap.levels, k))
  }

  /** Node i of bucket k lies in node j of bucket m. */
  ghost predicate Within(levels: nat, i: nat, k: nat, j: nat, m: nat)
    requires k <= levels && m <= levels && AtLevel(i, k) && AtLevel(j, m)
  {
    && SlotOf(levels, j, m) <= SlotOf(levels, i, k)
    && SlotOf(levels, i, k) + Span(levels, k) <= SlotOf(levels, j, m) + Span(levels, m)
  }

  lemma UsedAround(st: State, i: nat, k: nat, j: nat, m: nat)
    requires Valid(st) && IsBlock(st.heap, j, m) && st.heap.nodes[j] == Live
    requires k <= st.heap.levels && AtLevel(i, k)
    requires Within(st.heap.levels, i, k, j, m) || Within(st.heap.levels, j, m, i, k)
    ensures !Unused(st, i, k)
  {
    var a := SlotOf(st.heap.levels, j, m);
    assert Recorded(st, j, m);
    assert BlockSpan(st, a) == Span(st.heap.levels, m);
    assert !Clear(st, a, SlotOf(st.heap.levels, i, k), SlotOf(st.heap.levels, i, k) + Span(st.heap.levels, k));
  }

  lemma UsedNode(st: State, i: nat, k: nat)
    requires Valid(st) && k <= st.heap.levels && AtLevel(i, k) && i < |st.heap.nodes|
    requires st.heap.nodes[i] == Inner || st.heap.nodes[i] == Live
    ensures !Unused(st, i, k)
  {
    var j, m := InnerHasLive(st.heap, i, k);
    UsedAround(st, i, k, j, m);
  }

  lemma UnusedInside(st: State, i: nat, k: nat, j: nat, m: nat)
    requires Valid(st) && IsBlock(st.heap, j, m) && st.heap.nodes[j] == Free
    requires k <= st.heap.levels && AtLevel(i, k) && Within(st.heap.levels, i, k, j, m)
    ensures Unused(st, i, k)
  {
    var from, end := SlotOf(st.heap.levels, i, k), SlotOf(st.heap.levels, i, k) + Span(st.heap.levels, k);
    forall a | a in st.live ensures Clear(st, a, from, end) {
      if !Clear(st, a, from, end) {
        var s := if a <= from then from else a;
        BlocksDisjoint(st.heap, j, m, BlockNode(st, a), BlockBucket(st, a), s);
      }
    }
  }

  /** Live blocks lie under the root. */
  lemma LiveUnderRoot(st: State, a: nat)
    requires Valid(st) && a in st.live
    ensures a + BlockSpan(st, a) <= RootSpan(st.heap)
  {
    BlockPlace(st.heap, BlockNode(st, a), BlockBucket(st, a), a + BlockSpan(st, a) - 1);
  }

  lemma UnusedOutside(st: State, i: nat, k: nat)
    requires Valid(st) && k <= st.heap.levels && AtLevel(i, k)
    requires SlotOf(st.heap.levels, i, k) >= RootSpan(st.heap)
    ensures Unused(st, i, k)
  {
    forall a | a in st.live
      ensures Clear(st, a, SlotOf(st.heap.levels, i, k), SlotOf(st.heap.levels, i, k) + Span(st.heap.levels, k))
    {
      LiveUnderRoot(st, a);
    }
  }

  lemma InParent(levels: nat, i: nat, k: nat)
    requires 0 < k <= levels && AtLevel(i, k)
    ensures i > 0 && AtLevel(Parent(i), k - 1) && Within(levels, i, k, Parent(i), k - 1)
  {
    FamilyLevels(i, k);
    ChildrenHalve(levels, Parent(i), k - 1);
  }

  lemma AbsentParent(h: Heap, i: nat, k: nat)
    requires Tree(h) && h.bottom < k <= h.levels && AtLevel(i, k) && i < |h.nodes| && h.nodes[i] == Absent
    ensures i > 0 && Parent(i) < |h.nodes| && h.nodes[Parent(i)] != Inner
  {
    FamilyLevels(i, k);
    InArena(h.levels, Parent(i), k - 1);
    assert NodeOk(h, Parent(i));
  }

  /** A node under the root that is not inner lies in a block. */
  lemma {:induction false} Surrounding(h: Heap, i: nat, k: nat) returns (j: nat, m: nat)
    requires Tree(h) && h.bottom <= k <= h.levels && AtLevel(i, k) && i < |h.nodes|
    requires SlotOf(h.levels, i, k) < RootSpan(h) && h.nodes[i] != Inner
    ensures m <= k && IsBlock(h, j, m) && Within(h.levels, i, k, j, m)
    decreases k
  {
    hide NodeOk;
    if h.nodes[i] != Absent {
      j, m := i, k;
    } else {
      AbsentUnderRoot(h, i, k);
      AbsentParent(h, i, k);
      InParent(h.levels, i, k);
      hide SlotOf;
      hide Span;
      j, m := Surrounding(h, Parent(i), k - 1);
    }
  }

  lemma AbsentUnderRoot(h: Heap, i: nat, k: nat)
    requires Tree(h) && h.bottom <= k <= h.levels && AtLevel(i, k) && i < |h.nodes|
    requires SlotOf(h.levels, i, k) < RootSpan(h) && h.nodes[i] == Absent
    ensures k > h.bottom
  {
    var s := SlotOf(h.levels, i, k);
    SlotInArena(h.levels, i, k);
    NodeOfSlot(h.levels, i, k, s);
    UnderRoot(h, s);
  }

  // ---------------------------------------------------------------- split bits

  /** Node i of bucket k is an ancestor of the root's parent. */
  ghost predicate AboveRootParent(h: Heap, i: nat, k: nat) {
    i == Leftmost(k) && k + 1 < h.bottom
  }

  lemma LeftmostSlot(levels: nat, k: nat)
    requires k <= levels
    ensures SlotOf(levels, Leftmost(k), k) == 0
  {
    assert 0 * Span(levels, k) == 0;
  }

  lemma RootSlot(h: Heap)
    requires Tree(h)
    ensures AtLevel(Root(h), h.bottom) && SlotOf(h.levels, Root(h), h.bottom) == 0
  {
    LeftmostSlot(h.levels, h.bottom);
  }

  lemma BitAtRootParent(st: State, i: nat, k: nat)
    requires Valid(st) && k < st.heap.levels && AtLevel(i, k) && Internal(st.heap, i)
    requires 2 * i + 1 == Root(st.heap)
    ensures AtLevel(2 * i + 1, k + 1) && AtLevel(2 * i + 2, k + 1)
    ensures BitOf(st.heap, i) == !Unused(st, 2 * i + 1, k + 1)
    ensures Unused(st, 2 * i + 2, k + 1)
  {
    var h := st.heap;
    ChildrenHalve(h.levels, i, k);
    RootLevel(h, k + 1);
    RootSlot(h);
    UnusedOutside(st, 2 * i + 2, k + 1);
    if h.nodes[Root(h)] == Free {
      UnusedInside(st, Root(h), h.bottom, Root(h), h.bottom);
    } else {
      UsedNode(st, Root(h), h.bottom);
    }
  }

  lemma BitInside(st: State, i: nat, k: nat)
    requires Valid(st) && st.heap.bottom <= k < st.heap.levels && AtLevel(i, k) && Internal(st.heap, i)
    requires IsUnderRoot(st.heap, i, k)
    ensures AtLevel(2 * i + 1, k + 1) && AtLevel(2 * i + 2, k + 1)
    ensures BitOf(st.heap, i) == (Unused(st, 2 * i + 1, k + 1) != Unused(st, 2 * i + 2, k + 1))
  {
    var h := st.heap;
    ChildLevels(i, k);
    PowMonotone(h.bottom, k);
    assert NodeOk(h, i);
    if h.nodes[i] == Inner {
      ChildUse(st, 2 * i + 1, k + 1);
      ChildUse(st, 2 * i + 2, k + 1);
    } else {
      SameUseBelow(st, i, k);
    }
  }

  lemma ChildrenWithin(levels: nat, i: nat, k: nat, j: nat, m: nat)
    requires k < levels && m <= levels && AtLevel(i, k) && AtLevel(j, m) && Within(levels, i, k, j, m)
    ensures AtLevel(2 * i + 1, k + 1) && Within(levels, 2 * i + 1, k + 1, j, m)
    ensures AtLevel(2 * i + 2, k + 1) && Within(levels, 2 * i + 2, k + 1, j, m)
  {
    ChildrenHalve(levels, i, k);
  }

  /** The two halves of a node that is not divided are used alike. */
  lemma SameUseBelow(st: State, i: nat, k: nat)
    requires Valid(st) && st.heap.bottom <= k < st.heap.levels && AtLevel(i, k) && i < |st.heap.nodes|
    requires IsUnderRoot(st.heap, i, k) && st.heap.nodes[i] != Inner
    ensures AtLevel(2 * i + 1, k + 1) && AtLevel(2 * i + 2, k + 1)
    ensures Unused(st, 2 * i + 1, k + 1) == Unused(st, 2 * i + 2, k + 1)
  {
    hide NodeOk;
    hide ListOk;
    hide Recorded;
    hide EntryOk;
    var j, m := Surrounding(st.heap, i, k);
    ChildrenWithin(st.heap.levels, i, k, j, m);
    hide Within;
    hide Unused;
    if st.heap.nodes[j] == Free {
      UnusedInside(st, 2 * i + 1, k + 1, j, m);
      UnusedInside(st, 2 * i + 2, k + 1, j, m);
    } else {
      UsedAround(st, 2 * i + 1, k + 1, j, m);
      UsedAround(st, 2 * i + 2, k + 1, j, m);
    }
  }

  lemma ChildUse(st: State, c: nat, k: nat)
    requires Valid(st) && k <= st.heap.levels && AtLevel(c, k) && c < |st.heap.nodes|
    requires st.heap.nodes[c] != Absent
    ensures Unused(st, c, k) <==> st.heap.nodes[c] == Free
  {
    if st.heap.nodes[c] == Free {
      UnusedInside(st, c, k, c, k);
    } else {
      UsedNode(st, c, k);
    }
  }

  lemma BitOutside(st: State, i: nat, k: nat)
    requires Valid(st) && k < st.heap.levels && AtLevel(i, k) && Internal(st.heap, i)
    requires SlotOf(st.heap.levels, i, k) >= RootSpan(st.heap)
    ensures AtLevel(2 * i + 1, k + 1) && AtLevel(2 * i + 2, k + 1)
    ensures Unused(st, 2 * i + 1, k + 1) && Unused(st, 2 * i + 2, k + 1) && !BitOf(st.heap, i)
  {
    var h := st.heap;
    ChildrenHalve(h.levels, i, k);
    UnusedOutside(st, 2 * i + 1, k + 1);
    UnusedOutside(st, 2 * i + 2, k + 1);
    RootLevel(h, k + 1);
    RootSlot(h);
    NotInnerOutside(h, i, k);
  }

  ghost predicate IsUnderRoot(h: Heap, i: nat, k: nat)
    requires Shape(h) && k <= h.levels && AtLevel(i, k)
  {
    SlotOf(h.levels, i, k) < RootSpan(h)
  }

  lemma NotInnerOutside(h: Heap, i: nat, k: nat)
    requires Tree(h) && k <= h.levels && AtLevel(i, k) && i < |h.nodes| && !IsUnderRoot(h, i, k)
    ensures h.nodes[i] != Inner
  {
    if h.nodes[i] == Inner {
      var j, m := InnerHasLive(h, i, k);
      BlockPlace(h, j, m, SlotOf(h.levels, j, m));
    }
  }

  /**
   * The meaning of the split bits, over every reachable state: the bit of a node
   * is the exclusive or of "unused" over its two children, except that the bits
   * above the root's parent are zero.
   */
  lemma SplitBitIsXor(st: State, i: nat, k: nat)
    requires Valid(st) && k < st.heap.levels && AtLevel(i, k)
    ensures Internal(st.heap, i) && AtLevel(2 * i + 1, k + 1) && AtLevel(2 * i + 2, k + 1)
    ensures BitOf(st.heap, i) <==>
            !AboveRootParent(st.heap, i, k) && (Unused(st, 2 * i + 1, k + 1) != Unused(st, 2 * i + 2, k + 1))
  {
    var h := st.heap;
    InArena(h.levels, i, k);
    ChildLevels(i, k);
    if 2 * i + 1 == Root(h) {
      RootLevel(h, k + 1);
      BitAtRootParent(st, i, k);
    } else if SlotOf(h.levels, i, k) >= RootSpan(h) {
      LeftmostSlot(h.levels, k);
      BitOutside(st, i, k);
    } else if k >= h.bottom {
      BitInside(st, i, k);
    } else {
      AboveRoot(h, i, k);
      assert NodeOk(h, i);
    }
  }

  lemma AboveRoot(h: Heap, i: nat, k: nat)
    requires Tree(h) && k < h.bottom && AtLevel(i, k) && SlotOf(h.levels, i, k) < RootSpan(h)
    requires 2 * i + 1 != Root(h)
    ensures AboveRootParent(h, i, k) && i < Root(h)
  {
    PowMonotone(h.levels - h.bottom, h.levels - k);
    PowMonotone(k + 1, h.bottom);
    var p := i + 1 - Pow2(k);
    if p > 0 {
      MulMonotone(1, p, Span(h.levels, k));
    }
  }

  // ---------------------------------------------------------------- free lists

  /** Node i of bucket k is unused and no larger node around it is. */
  ghost predicate MaximalUnused(st: State, i: nat, k: nat)
    requires Valid(st) && k <= st.heap.levels && AtLevel(i, k)
  {
    && IsUnderRoot(st.heap, i, k)
    && Unused(st, i, k)
    && (k > st.heap.bottom ==> i > 0 && AtLevel(Parent(i), k - 1) && !Unused(st, Parent(i), k - 1))
  }

  lemma ListedIsMaximal(st: State, k: nat, i: nat)
    requires Valid(st) && st.heap.bottom <= k <= st.heap.levels && AtLevel(i, k) && i in st.heap.lists[k]
    ensures MaximalUnused(st, i, k)
  {
    var h := st.heap;
    assert ListOk(h, k);
    BlockPlace(h, i, k, SlotOf(h.levels, i, k));
    UnusedInside(st, i, k, i, k);
    if k > h.bottom {
      FamilyLevels(i, k);
      RootLevel(h, k);
      ParentBit(h, i, k);
      UsedNode(st, Parent(i), k - 1);
    }
  }

  /** The list of a bucket holds exactly its maximal unused nodes, once each. */
  lemma ListsAreCanonical(st: State, k: nat, i: nat)
    requires Valid(st) && st.heap.bottom <= k <= st.heap.levels && AtLevel(i, k)
    ensures NoDuplicates(st.heap.lists[k])
    ensures i in st.heap.lists[k] <==> MaximalUnused(st, i, k)
  {
    assert ListOk(st.heap, k);
    InArena(st.heap.levels, i, k);
    if i in st.heap.lists[k] {
      ListedIsMaximal(st, k, i);
    } else if MaximalUnused(st, i, k) {
      MaximalIsFree(st, i, k);
    }
  }

  lemma MaximalIsFree(st: State, i: nat, k: nat)
    requires Valid(st) && st.heap.bottom <= k <= st.heap.levels && AtLevel(i, k) && i < |st.heap.nodes|
    requires MaximalUnused(st, i, k)
    ensures st.heap.nodes[i] == Free
  {
    var h := st.heap;
    if h.nodes[i] == Inner {
      UsedNode(st, i, k);
    }
    var j, m := Surrounding(h, i, k);
    if h.nodes[j] == Live {
      UsedAround(st, i, k, j, m);
    }
    BlockPlace(h, j, m, SlotOf(h.levels, i, k));
    if m < k {
      FamilyLevels(i, k);
      ParentWithin(h.levels, i, k, j, m);
      UnusedInside(st, Parent(i), k - 1, j, m);
    } else {
      NodeOfSlot(h.levels, i, k, SlotOf(h.levels, i, k));
    }
  }

  /** A node properly inside another has its parent inside it too. */
  lemma {:induction false} ParentWithin(levels: nat, i: nat, k: nat, j: nat, m: nat)
    requires m < k <= levels && AtLevel(i, k) && AtLevel(j, m) && Within(levels, i, k, j, m)
    ensures i > 0 && AtLevel(Parent(i), k - 1) && Within(levels, Parent(i), k - 1, j, m)
    decreases k - m
  {
    var p := Parent(i);
    FamilyLevels(i, k);
    ChildrenHalve(levels, p, k - 1);
    AncestorAt(levels, p, k - 1, j, m, SlotOf(levels, i, k));
  }

  /** A node that shares a slot with a node of a lower bucket lies inside it. */
  lemma {:induction false} AncestorAt(levels: nat, p: nat, k: nat, j: nat, m: nat, s: nat)
    requires m <= k <= levels && AtLevel(p, k) && AtLevel(j, m)
    requires Contains(levels, p, k, s) && Contains(levels, j, m, s)
    ensures Within(levels, p, k, j, m)
    decreases k - m
  {
    NodeOfSlot(levels, p, k, s);
    if k == m {
      NodeOfSlot(levels, j, m, s);
    } else {
      FamilyLevels(p, k);
      ChildrenHalve(levels, Parent(p), k - 1);
      AncestorAt(levels, Parent(p), k - 1, j, m, s);
    }
  }

  // ---------------------------------------------------------------- tiling

  /** Slots of the free blocks of the lists. */
  ghost predicate FreeSlot(h: Heap, s: nat)
    requires Inv(h)
  {
    exists i, k :: ListedAt(h, i, k, s)
  }

  ghost predicate ListedAt(h: Heap, i: nat, k: nat, s: nat)
    requires Inv(h)
  {
    k <= h.levels && i in h.lists[k] && AtLevel(i, k) && Contains(h.levels, i, k, s)
  }

  ghost predicate InLiveBlock(st: State, a: nat, s: nat)
    requires Valid(st)
  {
    a in st.live && a <= s < a + BlockSpan(st, a)
  }

  ghost predicate LiveSlot(st: State, s: nat)
    requires Valid(st)
  {
    exists a :: InLiveBlock(st, a, s)
  }

  lemma LiveCovers(st: State, a: nat, s: nat)
    requires Valid(st) && InLiveBlock(st, a, s)
    ensures IsBlock(st.heap, BlockNode(st, a), BlockBucket(st, a))
    ensures Contains(st.heap.levels, BlockNode(st, a), BlockBucket(st, a), s)
    ensures st.heap.nodes[BlockNode(st, a)] == Live
  {
  }

  lemma ListedIsBlock(h: Heap, i: nat, k: nat, s: nat)
    requires Inv(h) && ListedAt(h, i, k, s)
    ensures IsBlock(h, i, k) && h.nodes[i] == Free
  {
    assert ListOk(h, k);
  }

  lemma BlockIsAccounted(st: State, i: nat, k: nat, s: nat)
    requires Valid(st) && IsBlock(st.heap, i, k) && Contains(st.heap.levels, i, k, s)
    ensures FreeSlot(st.heap, s) || LiveSlot(st, s)
  {
    var h := st.heap;
    if h.nodes[i] == Free {
      assert ListOk(h, k);
      assert ListedAt(h, i, k, s);
    } else {
      assert Recorded(st, i, k);
      assert InLiveBlock(st, SlotOf(h.levels, i, k), s);
    }
  }

  lemma SlotIsCovered(st: State, s: nat)
    requires Valid(st) && s < RootSpan(st.heap) && s < Pow2(st.heap.levels)
    ensures FreeSlot(st.heap, s) || LiveSlot(st, s)
  {
    var h := st.heap;
    UnderRoot(h, s);
    var k := BlockBelow(h, s, h.bottom);
    SlotOfNode(h.levels, s, k);
    BlockIsAccounted(st, NodeAt(h.levels, s, k), k, s);
  }

  lemma ListedPlace(st: State, i: nat, k: nat, s: nat)
    requires Valid(st) && ListedAt(st.heap, i, k, s)
    ensures s < RootSpan(st.heap)
    ensures forall a :: !InLiveBlock(st, a, s)
    ensures forall j, m | ListedAt(st.heap, j, m, s) :: j == i && m == k
  {
    var h := st.heap;
    ListedIsBlock(h, i, k, s);
    BlockPlace(h, i, k, s);
    forall a ensures !InLiveBlock(st, a, s) {
      if InLiveBlock(st, a, s) {
        LiveCovers(st, a, s);
        BlocksDisjoint(h, i, k, BlockNode(st, a), BlockBucket(st, a), s);
      }
    }
    forall j, m | ListedAt(h, j, m, s) ensures j == i && m == k {
      ListedIsBlock(h, j, m, s);
      BlocksDisjoint(h, i, k, j, m, s);
    }
  }

  lemma LivePlace(st: State, a: nat, s: nat)
    requires Valid(st) && InLiveBlock(st, a, s)
    ensures s < RootSpan(st.heap)
    ensures forall b | InLiveBlock(st, b, s) :: b == a
  {
    LiveUnderRoot(st, a);
    forall b | InLiveBlock(st, b, s) ensures b == a {
      LiveCovers(st, a, s);
      LiveCovers(st, b, s);
      BlocksDisjoint(st.heap, BlockNode(st, a), BlockBucket(st, a), BlockNode(st, b), BlockBucket(st, b), s);
    }
  }

  /** Live and free blocks tile exactly the slots under the root. */
  lemma LiveAndFreeTile(st: State, s: nat)
    requires Valid(st) && s < Pow2(st.heap.levels)
    ensures s < RootSpan(st.heap) <==> FreeSlot(st.heap, s) || LiveSlot(st, s)
    ensures !(FreeSlot(st.heap, s) && LiveSlot(st, s))
    ensures forall a, b | InLiveBlock(st, a, s) && InLiveBlock(st, b, s) :: a == b
    ensures forall i, k, j, m | ListedAt(st.heap, i, k, s) && ListedAt(st.heap, j, m, s) :: i == j && k == m
  {
    if s < RootSpan(st.heap) {
      SlotIsCovered(st, s);
    }
    forall i, k | ListedAt(st.heap, i, k, s)
      ensures s < RootSpan(st.heap)
      ensures forall a :: !InLiveBlock(st, a, s)
      ensures forall j, m | ListedAt(st.heap, j, m, s) :: j == i && m == k
    {
      ListedPlace(st, i, k, s);
    }
    forall a | InLiveBlock(st, a, s)
      ensures s < RootSpan(st.heap)
      ensures forall b | InLiveBlock(st, b, s) :: b == a
    {
      LivePlace(st, a, s);
    }
  }

  ghost function FreeSlots(h: Heap): set<nat>
    requires Inv(h)
  {
    set s: nat | s < Pow2(h.levels) && FreeSlot(h, s)
  }

  ghost function LiveSlots(st: State): set<nat>
    requires Valid(st)
  {
    set s: nat | s < Pow2(st.heap.levels) && LiveSlot(st, s)
  }

  lemma SlotsOfTheTree(st: State)
    requires Valid(st)
    ensures FreeSlots(st.heap) + LiveSlots(st) == Below(RootSpan(st.heap))
    ensures FreeSlots(st.heap) !! LiveSlots(st)
  {
    hide FreeSlot;
    hide LiveSlot;
    hide NodeOk;
    hide ListOk;
    PowMonotone(st.heap.levels - st.heap.bottom, st.heap.levels);
    forall s: nat | s < Pow2(st.heap.levels)
      ensures s < RootSpan(st.heap) <==> FreeSlot(st.heap, s) || LiveSlot(st, s)
      ensures !(FreeSlot(st.heap, s) && LiveSlot(st, s))
    {
      LiveAndFreeTile(st, s);
    }
  }

  /** Slots are conserved: those of live blocks and those of free blocks make up the tree. */
  lemma SlotsConserved(st: State)
    requires Valid(st)
    ensures FreeSlots(st.heap) !! LiveSlots(st)
    ensures |FreeSlots(st.heap)| + |LiveSlots(st)| == RootSpan(st.heap)
  {
    hide NodeOk;
    hide ListOk;
    hide FreeSlots;
    hide LiveSlots;
    SlotsOfTheTree(st);
    DisjointSizes(FreeSlots(st.heap), LiveSlots(st));
  }

  lemma DisjointSizes(a: set<nat>, b: set<nat>)
    requires a !! b
    ensures |a + b| == |a| + |b|
  {
  }

  /** The naturals below n. */
  ghost function Below(n: nat): (r: set<nat>)
    ensures |r| == n && forall s: nat :: s in r <==> s < n
  {
    if n == 0 then {} else Below(n - 1) + {n - 1}
  }

  /** A live block is aligned to its size, holds request and header, and lies under the root. */
  lemma LiveBlockFits(st: State, a: nat)
    requires Valid(st) && a in st.live
    ensures BlockSpan(st, a) > 0 && a % BlockSpan(st, a) == 0
    ensures st.live[a] + HEADER_SIZE <= MIN_ALLOC * BlockSpan(st, a)
    ensures a + BlockSpan(st, a) <= RootSpan(st.heap)
    ensures BlockSpan(st, a) > 1 ==> MIN_ALLOC * BlockSpan(st, a) < 2 * (st.live[a] + HEADER_SIZE)
  {
    var k, i := BlockBucket(st, a), BlockNode(st, a);
    LiveUnderRoot(st, a);
    BucketForTight(st.heap.levels, st.live[a] + HEADER_SIZE, k);
    MultipleMod(i + 1 - Pow2(k), Span(st.heap.levels, k));
  }

  lemma MultipleMod(p: nat, m: nat)
    requires m > 0
    ensures (p * m) % m == 0
  {
    DivExact(p, m, 0);
    var q, r := p * m / m, p * m % m;
    assert p * m == m * q + r;
    assert q == p;
    assert m * p == p * m;
  }

  // ---------------------------------------------------------------- coalescing

  /** No two buddies are both free. */
  lemma NoFreeBuddies(st: State, k: nat, i: nat)
    requires Valid(st) && st.heap.bottom < k <= st.heap.levels && i in st.heap.lists[k]
    ensures i > 0 && Sibling(i) !in st.heap.lists[k]
  {
    var h := st.heap;
    assert ListOk(h, k);
    FamilyLevels(i, k);
    RootLevel(h, k);
    ParentBit(h, i, k);
    assert NodeOk(h, Parent(i));
  }

  /** Once nothing is live, the root is the only free block and every bit is clear. */
  lemma FullyCoalesced(st: State)
    requires Valid(st) && st.live == map[]
    ensures forall k | 0 <= k <= st.heap.levels ::
              st.heap.lists[k] == if k == st.heap.bottom then [Root(st.heap)] else []
    ensures forall i: nat | Internal(st.heap, i) :: !BitOf(st.heap, i)
  {
    var h := st.heap;
    NothingLive(st);
    RootListAlone(h);
    forall k | 0 <= k <= h.levels && k != h.bottom ensures h.lists[k] == [] {
      if h.lists[k] != [] {
        var i := h.lists[k][0];
        assert ListOk(h, k) && i in h.lists[k];
        OnlyTheRoot(h, i, k);
      }
    }
    forall i: nat | Internal(h, i) ensures !BitOf(h, i) {
      assert NodeOk(h, i);
      if h.nodes[i] == Inner {
        InnerAtSomeLevel(st, i);
      }
    }
  }

  lemma NothingLive(st: State)
    requires Valid(st) && st.live == map[]
    ensures st.heap.nodes[Root(st.heap)] == Free
  {
    if st.heap.nodes[Root(st.heap)] != Free {
      RootLevel(st.heap, st.heap.bottom);
      UsedNode(st, Root(st.heap), st.heap.bottom);
    }
  }

  lemma OnlyTheRoot(h: Heap, i: nat, k: nat)
    requires Tree(h) && IsBlock(h, i, k) && h.nodes[Root(h)] == Free
    ensures i == Root(h) && k == h.bottom
  {
    RootSlot(h);
    BlockPlace(h, i, k, SlotOf(h.levels, i, k));
    BlocksDisjoint(h, i, k, Root(h), h.bottom, SlotOf(h.levels, i, k));
  }

  lemma InnerAtSomeLevel(st: State, i: nat)
    requires Valid(st) && i < |st.heap.nodes| && st.heap.nodes[i] == Inner
    ensures st.live != map[]
  {
    var k := LevelOf(st.heap.levels, i);
    UsedNode(st, i, k);
  }

  /** Every node of the tree belongs to some bucket. */
  lemma {:induction false} LevelOf(levels: nat, i: nat) returns (k: nat)
    requires i < 2 * Pow2(levels) - 1
    ensures k <= levels && AtLevel(i, k)
    decreases levels
  {
    if i + 1 >= Pow2(levels) {
      k := levels;
    } else {
      k := LevelOf(levels - 1, i);
    }
  }

  /** Freeing every live block, in any order, leaves one free block: the current root. */
  lemma FreeAllCoalesces(levels: nat, base: nat, ops: seq<Op>, st: State)
    requires (InitialValid(levels, base); Runs(Initial(levels, base), ops, st)) && st.live == map[]
    ensures Valid(st) && st.heap.levels == levels
    ensures forall k | 0 <= k <= levels ::
              st.heap.lists[k] == if k == st.heap.bottom then [Root(st.heap)] else []
    ensures forall i: nat | Internal(st.heap, i) :: !BitOf(st.heap, i)
  {
    InitialValid(levels, base);
    RunsValid(Initial(levels, base), ops, st);
    FullyCoalesced(st);
  }

  // ---------------------------------------------------------------- exact undo

  lemma SplitPair(h: Heap, i: nat, k: nat)
    requires Held(h, i, k) && k < h.levels && Internal(h, i) && k >= h.bottom
    ensures Held(Split(h, i, k), 2 * i + 1, k + 1) && BuddyFree(Split(h, i, k), 2 * i + 1, k + 1)
    ensures Parent(2 * i + 1) == i && Sibling(2 * i + 1) == 2 * i + 2
  {
    hide NodeOk;
    hide ListOk;
    SplitKeeps(h, i, k);
  }

  lemma MergeUndoesSplit(h: Heap, i: nat, k: nat)
    requires Held(h, i, k) && k < h.levels && Internal(h, i) && k >= h.bottom
    ensures Held(Split(h, i, k), 2 * i + 1, k + 1) && BuddyFree(Split(h, i, k), 2 * i + 1, k + 1)
    ensures Merge(Split(h, i, k), 2 * i + 1, k + 1) == h
  {
    hide NodeOk;
    SplitPair(h, i, k);
    SplitKeepsTree(h, i, k);
    var g := Split(h, i, k);
    assert ListOk(g, k + 1);
    hide ListOk;
    WithoutLast(h.lists[k + 1], 2 * i + 2);
    assert Merge(g, 2 * i + 1, k + 1).nodes == h.nodes;
    assert Merge(g, 2 * i + 1, k + 1).lists == h.lists;
  }

  lemma FreeUndoesOneSplit(h: Heap, i: nat, k: nat)
    requires Held(h, i, k) && k < h.levels && Internal(h, i) && k >= h.bottom
    ensures Held(Split(h, i, k), 2 * i + 1, k + 1)
    ensures FreeUp(Split(h, i, k), 2 * i + 1, k + 1) == FreeUp(h, i, k)
  {
    MergeUndoesSplit(h, i, k);
    assert Parent(2 * i + 1) == i;
  }

  /** Freeing a block that was just split off a larger one frees the larger one. */
  lemma {:induction false} FreeUndoesSplitting(h: Heap, i: nat, k: nat, want: nat)
    requires Held(h, i, k) && h.bottom <= k <= want <= h.levels
    ensures var (g, j) := SplitDown(h, i, k, want); FreeUp(g, j, want) == FreeUp(h, i, k)
    decreases want - k
  {
    if k < want {
      InArena(h.levels, i, k);
      FreeUndoesOneSplit(h, i, k);
      FreeUndoesSplitting(Split(h, i, k), 2 * i + 1, k + 1, want);
    }
  }

  lemma ReleaseUndoesTake(h: Heap, k: nat)
    requires Inv(h) && k <= h.levels && h.lists[k] != []
    ensures k >= h.bottom
    ensures Held(Take(h, k), Last(h.lists[k]), k) && !BuddyFree(Take(h, k), Last(h.lists[k]), k)
    ensures Release(Take(h, k), Last(h.lists[k]), k) == h
  {
    var i, t := Last(h.lists[k]), Take(h, k);
    TakeKeeps(h, k);
    assert ListOk(h, k) && i in h.lists[k];
    BlockPlace(h, i, k, SlotOf(h.levels, i, k));
    if k > h.bottom {
      RootLevel(h, k);
      ParentBit(h, i, k);
      assert NodeOk(h, Parent(i));
    }
    ButLastMembers(h.lists[k]);
    assert Release(t, i, k).nodes == h.nodes;
    assert Release(t, i, k).lists == h.lists;
  }

  lemma CarveUndone(h: Heap, k: nat, want: nat)
    requires Inv(h) && k <= want <= h.levels && h.lists[k] != [] && Carve(h, k, want).1.Some?
    ensures var (g, n) := Carve(h, k, want); FreeUp(g, n.value, want) == h
  {
    ReleaseUndoesTake(h, k);
    FreeUndoesSplitting(Take(h, k), Last(h.lists[k]), k, want);
  }

  lemma {:induction false} MallocFromUndone(h: Heap, want: nat, k: nat)
    requires Inv(h) && k <= want <= h.levels
    requires MallocFrom(h, want, k).1.Some? && MallocFrom(h, want, k).0.bottom == h.bottom
    ensures var (g, n) := MallocFrom(h, want, k); FreeUp(g, n.value, want) == h
    decreases k
  {
    if h.lists[k] != [] {
      CarveUndone(h, k, want);
    } else if k != h.bottom || k == 0 {
      MallocFromUndone(h, want, k - 1);
    }
  }

  /**
   * Exact undo: freeing the block just handed out restores every node, every bit and
   * every free list, including its order, whenever the tree did not have to grow.
   */
  lemma FreeUndoesMalloc(st: State, request: nat)
    requires Valid(st)
    requires Malloc(st, request).1.Some? && Malloc(st, request).0.heap.bottom == st.heap.bottom
    ensures Valid(Malloc(st, request).0) && Malloc(st, request).1.value in Malloc(st, request).0.live
    ensures FreeBlock(Malloc(st, request).0, Malloc(st, request).1.value) == st
  {
    hide NodeOk;
    hide ListOk;
    hide MallocFrom;
    hide FreeUp;
    MallocValid(st, request);
    var h, want := st.heap, BucketOf(st.heap, request);
    var (g, n) := MallocNode(h, request);
    var st', a := Malloc(st, request).0, Malloc(st, request).1.value;
    MallocFromUndone(h, want, want);
    NodeOfSlot(g.levels, n.value, want, a);
    assert BlockBucket(st', a) == want && BlockNode(st', a) == n.value;
    assert st'.live - {a} == st.live;
  }
}
