/**
 * The blocks of a heap tile the current root: every slot under the root lies in
 * exactly one free or live block, and no block reaches past the root.
 */
module BuddyCover {
  import opened BuddyIndex
  import opened BuddyHeap

  /** Node i of bucket k is a free or live block. */
  ghost predicate IsBlock(h: Heap, i: nat, k: nat) {
    k <= h.levels && AtLevel(i, k) && i < |h.nodes| && (h.nodes[i] == Free || h.nodes[i] == Live)
  }

  /** Slot s lies in node i of bucket k. */
  ghost predicate Contains(levels: nat, i: nat, k: nat, s: nat)
    requires k <= levels && AtLevel(i, k)
  {
    SlotOf(levels, i, k) <= s < SlotOf(levels, i, k) + Span(levels, k)
  }

  /** Status of the node of bucket k that contains slot s. */
  ghost function StatusAt(h: Heap, s: nat, k: nat): Status
    requires Shape(h) && k <= h.levels && s < Pow2(h.levels)
  {
    SlotOfNode(h.levels, s, k);
    InArena(h.levels, NodeAt(h.levels, s, k), k);
    h.nodes[NodeAt(h.levels, s, k)]
  }

  /** Number of slots under the current root. */
  ghost function RootSpan(h: Heap): nat
    requires Shape(h)
  {
    Span(h.levels, h.bottom)
  }

  lemma UnderRoot(h: Heap, s: nat)
    requires Tree(h) && s < Pow2(h.levels)
    ensures s < RootSpan(h) <==> NodeAt(h.levels, s, h.bottom) == Root(h)
    ensures s < RootSpan(h) <==> StatusAt(h, s, h.bottom) != Absent
  {
    var b := h.bottom;
    SlotOfNode(h.levels, s, b);
    assert SlotOf(h.levels, Root(h), b) == 0 * Span(h.levels, b);
    if s < RootSpan(h) {
      NodeOfSlot(h.levels, Root(h), b, s);
    } else if NodeAt(h.levels, s, b) != Root(h) {
      InArena(h.levels, NodeAt(h.levels, s, b), b);
      OutsideRoot(h, NodeAt(h.levels, s, b), b);
    }
  }

  lemma ChildAbsent(h: Heap, c: nat, k: nat)
    requires Tree(h) && h.bottom < k <= h.levels && AtLevel(c, k) && 0 < c < |h.nodes|
    requires Parent(c) < |h.nodes| && h.nodes[Parent(c)] != Inner
    ensures h.nodes[c] == Absent
  {
    FamilyLevels(c, k);
    InArena(h.levels, Parent(c), k - 1);
    PowMonotone(h.bottom, k - 1);
    assert NodeOk(h, Parent(c));
  }

  lemma StepAbsent(h: Heap, s: nat, k: nat)
    requires Tree(h) && h.bottom <= k < h.levels && s < Pow2(h.levels)
    requires StatusAt(h, s, k) != Inner
    ensures StatusAt(h, s, k + 1) == Absent
  {
    var c := NodeAt(h.levels, s, k + 1);
    NodeAtParent(h.levels, s, k);
    SlotOfNode(h.levels, s, k + 1);
    InArena(h.levels, c, k + 1);
    ChildAbsent(h, c, k + 1);
  }

  /** Below a node that is not inner, everything is absent. */
  lemma {:induction false} BelowAbsent(h: Heap, s: nat, k: nat, m: nat)
    requires Tree(h) && h.bottom <= k < m <= h.levels && s < Pow2(h.levels)
    requires StatusAt(h, s, k) != Inner
    ensures StatusAt(h, s, m) == Absent
    decreases m
  {
    if m > k + 1 {
      BelowAbsent(h, s, k, m - 1);
    }
    StepAbsent(h, s, m - 1);
  }

  /** An inner node has a block below it, around every one of its slots. */
  lemma {:induction false} BlockBelow(h: Heap, s: nat, k: nat) returns (m: nat)
    requires Tree(h) && h.bottom <= k <= h.levels && s < Pow2(h.levels)
    requires StatusAt(h, s, k) != Absent
    ensures k <= m <= h.levels && IsBlock(h, NodeAt(h.levels, s, m), m)
    decreases h.levels - k
  {
    var p := NodeAt(h.levels, s, k);
    SlotOfNode(h.levels, s, k);
    InArena(h.levels, p, k);
    if h.nodes[p] == Inner {
      assert NodeOk(h, p);
      assert k != h.levels;
      NodeAtParent(h.levels, s, k);
      SlotOfNode(h.levels, s, k + 1);
      FamilyLevels(NodeAt(h.levels, s, k + 1), k + 1);
      m := BlockBelow(h, s, k + 1);
    } else {
      m := k;
    }
  }

  /** Two blocks that share a slot are the same block. */
  lemma BlocksDisjoint(h: Heap, i: nat, k: nat, j: nat, m: nat, s: nat)
    requires Tree(h) && IsBlock(h, i, k) && IsBlock(h, j, m)
    requires Contains(h.levels, i, k, s) && Contains(h.levels, j, m, s)
    ensures i == j && k == m
  {
    BlockPlace(h, i, k, s);
    BlockPlace(h, j, m, s);
    if k < m {
      BelowAbsent(h, s, k, m);
    } else if m < k {
      BelowAbsent(h, s, m, k);
    }
  }

  lemma BlockPlace(h: Heap, i: nat, k: nat, s: nat)
    requires Tree(h) && IsBlock(h, i, k) && Contains(h.levels, i, k, s)
    ensures k >= h.bottom && s < RootSpan(h) <= Pow2(h.levels)
    ensures NodeAt(h.levels, s, k) == i && StatusAt(h, s, k) == h.nodes[i]
  {
    SlotInArena(h.levels, i, k);
    NodeOfSlot(h.levels, i, k, s);
    PowMonotone(h.levels - h.bottom, h.levels);
    assert k >= h.bottom by {
      if k < h.bottom {
        RootOnlyAtBottom(h, k);
        OutsideRoot(h, i, k);
      }
    }
    UnderRoot(h, s);
    if s >= RootSpan(h) {
      if k > h.bottom {
        BelowAbsent(h, s, h.bottom, k);
      }
    }
  }

  lemma RootOnlyAtBottom(h: Heap, k: nat)
    requires k < h.bottom
    ensures !AtLevel(Root(h), k)
  {
    PowMonotone(k + 1, h.bottom);
  }

  /** Tiling: the blocks partition exactly the slots under the current root. */
  lemma Tiling(h: Heap, s: nat)
    requires Tree(h) && s < Pow2(h.levels)
    ensures s < RootSpan(h) <==>
            exists i, k :: IsBlock(h, i, k) && Contains(h.levels, i, k, s)
    ensures forall i, k, j, m | IsBlock(h, i, k) && IsBlock(h, j, m)
              && Contains(h.levels, i, k, s) && Contains(h.levels, j, m, s) :: i == j && k == m
  {
    if s < RootSpan(h) {
      UnderRoot(h, s);
      var m := BlockBelow(h, s, h.bottom);
      SlotOfNode(h.levels, s, m);
    }
    forall i, k | IsBlock(h, i, k) && Contains(h.levels, i, k, s) ensures s < RootSpan(h) {
      BlockPlace(h, i, k, s);
    }
    forall i, k, j, m | IsBlock(h, i, k) && IsBlock(h, j, m)
                        && Contains(h.levels, i, k, s) && Contains(h.levels, j, m, s)
      ensures i == j && k == m
    {
      BlocksDisjoint(h, i, k, j, m, s);
    }
  }

  /** Blocks with the same first slot are the same block. */
  lemma SameStart(h: Heap, i: nat, k: nat, j: nat, m: nat)
    requires Tree(h) && IsBlock(h, i, k) && IsBlock(h, j, m)
    requires SlotOf(h.levels, i, k) == SlotOf(h.levels, j, m)
    ensures i == j && k == m
  {
    BlocksDisjoint(h, i, k, j, m, SlotOf(h.levels, i, k));
  }

  /** Every inner node has a live block inside its range. */
  lemma {:induction false} InnerHasLive(h: Heap, i: nat, k: nat) returns (j: nat, m: nat)
    requires Tree(h) && k <= h.levels && AtLevel(i, k) && i < |h.nodes|
    requires h.nodes[i] == Inner || h.nodes[i] == Live
    ensures k <= m <= h.levels && IsBlock(h, j, m) && h.nodes[j] == Live
    ensures SlotOf(h.levels, i, k) <= SlotOf(h.levels, j, m)
    ensures SlotOf(h.levels, j, m) + Span(h.levels, m) <= SlotOf(h.levels, i, k) + Span(h.levels, k)
    decreases h.levels - k
  {
    if h.nodes[i] == Live {
      j, m := i, k;
    } else {
      assert NodeOk(h, i);
      assert k != h.levels;
      ChildrenHalve(h.levels, i, k);
      if h.nodes[2 * i + 1] == Free {
        j, m := InnerHasLive(h, 2 * i + 2, k + 1);
      } else {
        j, m := InnerHasLive(h, 2 * i + 1, k + 1);
      }
    }
  }
}
