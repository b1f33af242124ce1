/**
 * What each step of the heap does to the split bits.  A bit is the exclusive or
 * of "unused" over the two children of its node; every step changes at most the
 * one bit that the allocator flips.
 */
module BuddyBits {
  import opened BuddyIndex
  import opened BuddyHeap

  /** Turning a free block live or a live block free flips the bit above it. */
  lemma RetagFlips(h: Heap, h': Heap, i: nat, k: nat, x: Status)
    requires Inv(h) && k <= h.levels && AtLevel(i, k) && i < |h.nodes|
    requires (h.nodes[i] == Free && x == Live) || (h.nodes[i] == Live && x == Free)
    requires h'.levels == h.levels && h'.bottom == h.bottom && h'.nodes == h.nodes[i := x] && Shape(h')
    ensures if i > 0 then FlipsOnly(h, h', Parent(i)) else SameBits(h, h')
  {
    if i > 0 {
      ParentBit(h, i, k);
    }
    forall j: nat | Internal(h, j) && (i > 0 ==> j != Parent(i)) ensures BitOf(h', j) == BitOf(h, j) {
      assert NodeOk(h, j);
    }
  }

  lemma TakeFlips(h: Heap, k: nat)
    requires Inv(h) && k <= h.levels && h.lists[k] != []
    ensures Shape(Take(h, k))
    ensures var i := Last(h.lists[k]);
            if i > 0 then FlipsOnly(h, Take(h, k), Parent(i)) else SameBits(h, Take(h, k))
  {
    assert ListOk(h, k) && Last(h.lists[k]) in h.lists[k];
    RetagFlips(h, Take(h, k), Last(h.lists[k]), k, Live);
  }

  /** The parent of a block is the root's parent or an inner node. */
  lemma ParentBit(h: Heap, i: nat, k: nat)
    requires Inv(h) && k <= h.levels && AtLevel(i, k) && 0 < i < |h.nodes| && h.nodes[i] != Absent
    ensures i == Root(h) || (k > h.bottom && h.nodes[Parent(i)] == Inner)
    ensures Internal(h, Parent(i))
    ensures k > 0 && AtLevel(Parent(i), k - 1)
    ensures Sibling(i) < |h.nodes|
    ensures (i == 2 * Parent(i) + 1 && Sibling(i) == i + 1) || (i == 2 * Parent(i) + 2 && Sibling(i) == i - 1)
    ensures 2 * Parent(i) + 1 == Root(h) ==> i == Root(h)
  {
    if k == 0 {
      assert false;
    }
    FamilyLevels(i, k);
    InArena(h.levels, Parent(i), k - 1);
    RootLevel(h, k);
    if i != Root(h) {
      assert k > h.bottom by {
        if k <= h.bottom {
          OutsideRoot(h, i, k);
        }
      }
      assert NodeOk(h, Parent(i));
    }
  }

  lemma RootLevel(h: Heap, k: nat)
    ensures AtLevel(Root(h), h.bottom)
    ensures AtLevel(Root(h), k) ==> k == h.bottom
  {
    if AtLevel(Root(h), k) {
      LevelUnique(Root(h), k, h.bottom);
    }
  }

  lemma SplitFlips(h: Heap, i: nat, k: nat)
    requires Held(h, i, k) && k < h.levels && Internal(h, i)
    ensures Shape(Split(h, i, k)) && FlipsOnly(h, Split(h, i, k), i)
  {
    var h' := Split(h, i, k);
    assert NodeOk(h, i);
    SplitKeepsTree(h, i, k);
    forall j: nat | Internal(h, j) ensures BitOf(h', j) == (if j == i then !BitOf(h, j) else BitOf(h, j)) {
      assert NodeOk(h, j);
    }
  }

  /** The bit above a held block says whether its buddy is free. */
  lemma HeldParentBit(h: Heap, i: nat, k: nat)
    requires Held(h, i, k) && i > 0
    ensures Internal(h, Parent(i))
    ensures if k > h.bottom then BitOf(h, Parent(i)) == BuddyFree(h, i, k) else BitOf(h, Parent(i)) && i == Root(h)
  {
    ParentBit(h, i, k);
    if i == Root(h) {
      LevelUnique(i, k, h.bottom);
    }
  }

  lemma MergeBit(h: Heap, i: nat, k: nat, j: nat)
    requires Held(h, i, k) && BuddyFree(h, i, k) && Internal(h, j) && j != Parent(i)
    ensures Shape(Merge(h, i, k)) && BitOf(Merge(h, i, k), j) == BitOf(h, j)
  {
    hide ListOk;
    MergeParent(h, i, k);
    FamilyLevels(i, k);
    RootNotMerged(h, i, k);
    assert NodeOk(h, j) && NodeOk(h, i) && NodeOk(h, Sibling(i));
  }

  lemma MergeFlips(h: Heap, i: nat, k: nat)
    requires Held(h, i, k) && BuddyFree(h, i, k)
    ensures Shape(Merge(h, i, k)) && FlipsOnly(h, Merge(h, i, k), Parent(i))
  {
    hide ListOk;
    var h', p := Merge(h, i, k), Parent(i);
    HeldParentBit(h, i, k);
    ParentBit(h, i, k);
    MergeKeepsTree(h, i, k);
    assert NodeOk(h', p);
    hide NodeOk;
    forall j: nat | Internal(h, j) && j != p ensures BitOf(h', j) == BitOf(h, j) {
      MergeBit(h, i, k, j);
    }
  }

  lemma ReleaseFlips(h: Heap, i: nat, k: nat)
    requires Held(h, i, k)
    ensures if i > 0 then FlipsOnly(h, Release(h, i, k), Parent(i)) else SameBits(h, Release(h, i, k))
  {
    RetagFlips(h, Release(h, i, k), i, k, Free);
  }

  lemma GrowUnusedBits(h: Heap)
    requires Inv(h) && h.bottom > 0 && h.nodes[Root(h)] == Free
    ensures Shape(GrowUnused(h)) && SameBits(h, GrowUnused(h))
  {
    var h', p := GrowUnused(h), Leftmost(h.bottom - 1);
    NewRoot(h);
    assert NodeOk(h, Root(h));
    forall j: nat | Internal(h, j) ensures BitOf(h', j) == BitOf(h, j) {
      assert NodeOk(h, j);
    }
  }

  lemma GrowUsedBits(h: Heap)
    requires Inv(h) && h.bottom > 0 && h.nodes[Root(h)] != Free && Root(h) + 1 < |h.nodes|
    ensures Shape(GrowUsed(h))
    ensures var p := Leftmost(h.bottom - 1);
            if p > 0 then FlipsOnly(h, GrowUsed(h), Parent(p)) else SameBits(h, GrowUsed(h))
  {
    var h', p := GrowUsed(h), Leftmost(h.bottom - 1);
    NewRoot(h);
    if p > 0 {
      assert NodeOk(h, Parent(p));
      assert p == 2 * Parent(p) + 1 by { FamilyLevels(p, h.bottom - 1); }
    }
    forall j: nat | Internal(h, j) && (p > 0 ==> j != Parent(p)) ensures BitOf(h', j) == BitOf(h, j) {
      assert NodeOk(h, j);
    }
  }
}
