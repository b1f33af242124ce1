/**
 * Which addresses the allocator touches: the address limit of "update_max_ptr"
 * bounds every link, every header and every block that is handed out.
 */
module BuddyLimits {
  import opened Wrappers
  import opened BuddyIndex
  import opened BuddyHeap
  import opened BuddyBits
  import opened BuddyAlloc
  import opened BuddyCover
  import opened BuddyState
  import opened BuddyTheorems

  // ---------------------------------------------------------------- growth

  /** The upper half of the arena can hold a list link below the address limit. */
  ghost predicate HalfAddressable(h: Heap) {
    h.levels > 0 ==> AddressOk(h, MIN_ALLOC * Pow2(h.levels - 1) + LINK_SIZE)
  }

  /** The limits of the shipped kernel: 2^31 bytes from 0x1000000 on, in 2^19 slots. */
  lemma ShippedArena(h: Heap)
    requires h.levels == 19 && h.base == 0x1000000
    ensures HalfAddressable(h) && ArenaBytes(h.levels) == 0x8000_0000
  {
    PowAdd(9, 10);
    assert Pow2(9) == 512 && Pow2(10) == 1024;
  }

  lemma {:induction false} GrowthNeverRefused(h: Heap, k: nat)
    requires Inv(h) && HalfAddressable(h)
    ensures GrowTo(h, k).1
    decreases h.bottom
  {
    if h.bottom > k {
      if h.nodes[Root(h)] == Free {
        GrowUnusedKeeps(h);
        GrowthNeverRefused(GrowUnused(h), k);
      } else {
        NewRoot(h);
        GrowUsedKeeps(h);
        RightHalf(h);
        GrowthNeverRefused(GrowUsed(h), k);
      }
    }
  }

  lemma RightHalf(h: Heap)
    requires Inv(h) && h.bottom > 0 && HalfAddressable(h)
    ensures AddressOk(h, GrowthReach(h))
  {
    ReachOfGrowth(h);
    PowMonotone(h.levels - h.bottom, h.levels - 1);
  }

  // ---------------------------------------------------------------- addresses

  /** The link or header at the start of block i of bucket k is addressable. */
  ghost predicate StartOk(h: Heap, i: nat, k: nat)
    requires IsBlock(h, i, k)
  {
    AddressOk(h, MIN_ALLOC * SlotOf(h.levels, i, k) + LINK_SIZE)
  }

  ghost predicate StartsOk(h: Heap) {
    forall i, k | IsBlock(h, i, k) :: StartOk(h, i, k)
  }

  lemma TakeStarts(h: Heap, k: nat)
    requires Inv(h) && k <= h.levels && h.lists[k] != [] && StartsOk(h)
    ensures StartsOk(Take(h, k))
  {
    var g := Take(h, k);
    assert ListOk(h, k) && Last(h.lists[k]) in h.lists[k];
    forall i, m | IsBlock(g, i, m) ensures StartOk(g, i, m) {
      assert IsBlock(h, i, m) && StartOk(h, i, m);
    }
  }

  lemma SplitStarts(h: Heap, i: nat, k: nat)
    requires Held(h, i, k) && k < h.levels && Internal(h, i) && StartsOk(h)
    requires AddressOk(h, MIN_ALLOC * (SlotOf(h.levels, i, k) + Span(h.levels, k + 1)) + LINK_SIZE)
    ensures StartsOk(Split(h, i, k))
  {
    var g := Split(h, i, k);
    ChildrenHalve(h.levels, i, k);
    assert IsBlock(h, i, k) && StartOk(h, i, k);
    forall j, m | IsBlock(g, j, m) ensures StartOk(g, j, m) {
      if j == 2 * i + 1 || j == 2 * i + 2 {
        LevelUnique(j, k + 1, m);
      } else {
        assert IsBlock(h, j, m) && StartOk(h, j, m);
      }
    }
  }

  lemma {:induction false} SplitDownStarts(h: Heap, i: nat, k: nat, want: nat)
    requires Held(h, i, k) && k <= want <= h.levels && StartsOk(h)
    requires k < want ==>
               AddressOk(h, MIN_ALLOC * (SlotOf(h.levels, i, k) + Span(h.levels, k + 1)) + LINK_SIZE)
    ensures StartsOk(SplitDown(h, i, k, want).0)
    decreases want - k
  {
    hide NodeOk;
    hide ListOk;
    hide StartsOk;
    if k < want {
      InArena(h.levels, i, k);
      SplitKeeps(h, i, k);
      SplitStarts(h, i, k);
      ChildrenHalve(h.levels, i, k);
      if k + 1 < want {
        PowMonotone(h.levels - (k + 2), h.levels - (k + 1));
      }
      SplitDownStarts(Split(h, i, k), 2 * i + 1, k + 1, want);
    }
  }

  /** A block that malloc hands out lies entirely below the address limit. */
  ghost predicate EndOk(h: Heap, i: nat, k: nat)
    requires k <= h.levels && AtLevel(i, k)
  {
    AddressOk(h, MIN_ALLOC * (SlotOf(h.levels, i, k) + Span(h.levels, k)))
  }

  /** The first half of a block, with a link behind it, is more than any smaller block takes. */
  lemma ReachCovers(h: Heap, k: nat, want: nat)
    requires Inv(h) && k <= want <= h.levels && h.lists[k] != [] && AddressOk(h, BlockReach(h, k, want))
    ensures AtLevel(Last(h.lists[k]), k)
    ensures var s := SlotOf(h.levels, Last(h.lists[k]), k);
            && AddressOk(h, MIN_ALLOC * (s + Span(h.levels, want)))
            && (k < want ==> AddressOk(h, MIN_ALLOC * (s + Span(h.levels, k + 1)) + LINK_SIZE))
  {
    TakeKeeps(h, k);
    hide NodeOk;
    hide ListOk;
    if k < want {
      SpanDoubles(h.levels, k);
      SpanMonotone(h.levels, k + 1, want);
    }
    hide Span;
    hide SlotOf;
  }

  lemma CarveBounds(h: Heap, k: nat, want: nat)
    requires Inv(h) && k <= want <= h.levels && h.lists[k] != [] && StartsOk(h)
    ensures StartsOk(Carve(h, k, want).0)
    ensures Carve(h, k, want).1.Some? ==> EndOk(h, Carve(h, k, want).1.value, want)
  {
    hide NodeOk;
    hide ListOk;
    TakeKeeps(h, k);
    if AddressOk(h, BlockReach(h, k, want)) {
      TakeStarts(h, k);
      ReachCovers(h, k, want);
      SplitDownStarts(Take(h, k), Last(h.lists[k]), k, want);
    }
  }

  lemma GrowUsedStarts(h: Heap)
    requires Inv(h) && h.bottom > 0 && h.nodes[Root(h)] != Free && Root(h) + 1 < |h.nodes| && StartsOk(h)
    requires AddressOk(h, GrowthReach(h))
    ensures StartsOk(GrowUsed(h))
  {
    NewRoot(h);
    var g := GrowUsed(h);
    forall j, m | IsBlock(g, j, m) ensures StartOk(g, j, m) {
      if j == Root(h) + 1 {
        LevelUnique(j, h.bottom, m);
      } else {
        assert IsBlock(h, j, m) && StartOk(h, j, m);
      }
    }
  }

  lemma GrowUnusedStarts(h: Heap)
    requires Inv(h) && h.bottom > 0 && h.nodes[Root(h)] == Free && StartsOk(h)
    ensures StartsOk(GrowUnused(h))
  {
    var g := GrowUnused(h);
    NewRoot(h);
    GrowUnusedTree(h);
    RootSlot(h);
    RootSlot(g);
    assert IsBlock(h, Root(h), h.bottom) && StartOk(h, Root(h), h.bottom);
    assert StartOk(g, Root(g), g.bottom);
    forall j, m | IsBlock(g, j, m) ensures StartOk(g, j, m) {
      OnlyTheRoot(g, j, m);
    }
  }

  lemma {:induction false} GrowToStarts(h: Heap, k: nat)
    requires Inv(h) && StartsOk(h)
    ensures StartsOk(GrowTo(h, k).0)
    decreases h.bottom
  {
    if h.bottom > k {
      if h.nodes[Root(h)] == Free {
        GrowUnusedKeeps(h);
        GrowUnusedStarts(h);
        GrowToStarts(GrowUnused(h), k);
      } else if AddressOk(h, GrowthReach(h)) {
        NewRoot(h);
        GrowUsedKeeps(h);
        GrowUsedStarts(h);
        GrowToStarts(GrowUsed(h), k);
      }
    }
  }

  lemma {:induction false} MallocFromBounds(h: Heap, want: nat, k: nat)
    requires Inv(h) && k <= want <= h.levels && StartsOk(h)
    ensures StartsOk(MallocFrom(h, want, k).0)
    ensures MallocFrom(h, want, k).1.Some? ==> EndOk(h, MallocFrom(h, want, k).1.value, want)
    decreases k
  {
    GrowToStarts(h, k);
    var (g, grown) := GrowTo(h, k);
    if grown {
      if g.lists[k] != [] {
        CarveBounds(g, k, want);
      } else if k != g.bottom || k == 0 {
        if k > 0 {
          MallocFromBounds(g, want, k - 1);
        }
      } else {
        GrowToStarts(g, k - 1);
        if GrowTo(g, k - 1).1 {
          GrownHalf(g);
          CarveBounds(GrowTo(g, k - 1).0, k, want);
        }
      }
    }
  }

  lemma MergeStarts(h: Heap, i: nat, k: nat)
    requires Held(h, i, k) && BuddyFree(h, i, k) && StartsOk(h)
    ensures StartsOk(Merge(h, i, k))
  {
    var g, p, s := Merge(h, i, k), Parent(i), Sibling(i);
    FamilyLevels(i, k);
    ChildrenHalve(h.levels, p, k - 1);
    assert IsBlock(h, i, k) && StartOk(h, i, k) && IsBlock(h, s, k) && StartOk(h, s, k);
    forall j, m | IsBlock(g, j, m) ensures StartOk(g, j, m) {
      if j == p {
        LevelUnique(j, k - 1, m);
      } else {
        assert IsBlock(h, j, m) && StartOk(h, j, m);
      }
    }
  }

  lemma {:induction false} FreeUpStarts(h: Heap, i: nat, k: nat)
    requires Held(h, i, k) && StartsOk(h)
    ensures StartsOk(FreeUp(h, i, k))
    decreases k
  {
    if BuddyFree(h, i, k) {
      MergeKeeps(h, i, k);
      MergeStarts(h, i, k);
      FreeUpStarts(Merge(h, i, k), Parent(i), k - 1);
    } else {
      ReleaseKeeps(h, i, k);
      var g := Release(h, i, k);
      forall j, m | IsBlock(g, j, m) ensures StartOk(g, j, m) {
        assert IsBlock(h, j, m) && StartOk(h, j, m);
      }
    }
  }

  /** Every link and header, and every live block as a whole, lies below the address limit. */
  ghost predicate Bounded(st: State) {
    && Valid(st)
    && StartsOk(st.heap)
    && forall a | a in st.live :: AddressOk(st.heap, MIN_ALLOC * (a + BlockSpan(st, a)))
  }

  lemma InitialBounded(levels: nat, base: nat)
    requires base + LINK_SIZE <= ArenaBytes(levels)
    ensures Bounded(Initial(levels, base))
  {
    InitialValid(levels, base);
    var h := Initial(levels, base).heap;
    forall i, k | IsBlock(h, i, k) ensures StartOk(h, i, k) {
      RootSlot(h);
      LevelUnique(i, levels, k);
    }
  }

  lemma MallocBounded(st: State, request: nat)
    requires Bounded(st)
    ensures Bounded(Malloc(st, request).0)
  {
    MallocValid(st, request);
    var (st', r) := Malloc(st, request);
    if request + HEADER_SIZE <= ArenaBytes(st.heap.levels) {
      var want := BucketOf(st.heap, request);
      MallocFromBounds(st.heap, want, want);
      forall a | a in st'.live ensures AddressOk(st'.heap, MIN_ALLOC * (a + BlockSpan(st', a))) {
        if a in st.live {
          assert r.Some? ==> r.value != a;
          assert BlockSpan(st', a) == BlockSpan(st, a);
        }
      }
    }
  }

  lemma FreeBounded(st: State, a: nat)
    requires Bounded(st) && a in st.live
    ensures Bounded(FreeBlock(st, a))
  {
    FreeValid(st, a);
    FreeUpStarts(st.heap, BlockNode(st, a), BlockBucket(st, a));
    var st' := FreeBlock(st, a);
    forall b | b in st'.live ensures AddressOk(st'.heap, MIN_ALLOC * (b + BlockSpan(st', b))) {
      assert BlockSpan(st', b) == BlockSpan(st, b);
    }
  }

  /** Over every run, nothing at or beyond the address limit is ever linked or handed out. */
  lemma {:induction false} RunsBounded(st: State, ops: seq<Op>, st': State)
    requires Bounded(st) && Runs(st, ops, st')
    ensures Bounded(st')
    decreases |ops|
  {
    if ops != [] {
      match ops[0] {
        case MallocOp(request) => MallocBounded(st, request);
        case FreeOp(a) => FreeBounded(st, a);
      }
      RunsBounded(Apply(st, ops[0]), ops[1..], st');
    }
  }

  /** The limit in bytes: what it means for the blocks handed out and for the links of the lists. */
  lemma BoundedBytes(st: State)
    requires Bounded(st)
    ensures forall a | a in st.live :: st.heap.base + 4096 * (a + BlockSpan(st, a)) <= 4096 * Pow2(st.heap.levels)
    ensures forall i, k: nat | k <= st.heap.levels && AtLevel(i, k) && i in st.heap.lists[k] ::
              st.heap.base + 4096 * SlotOf(st.heap.levels, i, k) + 16 <= 4096 * Pow2(st.heap.levels)
  {
    var h := st.heap;
    forall i, k: nat | k <= h.levels && AtLevel(i, k) && i in h.lists[k]
      ensures h.base + 4096 * SlotOf(h.levels, i, k) + 16 <= 4096 * Pow2(h.levels)
    {
      assert ListOk(h, k);
      assert IsBlock(h, i, k) && StartOk(h, i, k);
      hide SlotOf;
    }
    hide SlotOf;
  }

  /** The same from the first call on, whenever the first link is addressable at all. */
  lemma AlwaysBounded(levels: nat, base: nat, ops: seq<Op>, st: State)
    requires base + LINK_SIZE <= ArenaBytes(levels)
    requires (InitialValid(levels, base); Runs(Initial(levels, base), ops, st))
    ensures Bounded(st) && st.heap.levels == levels && st.heap.base == base
    ensures forall a | a in st.live :: base + 4096 * (a + BlockSpan(st, a)) <= 4096 * Pow2(levels)
    ensures forall i, k: nat | k <= levels && AtLevel(i, k) && i in st.heap.lists[k] ::
              base + 4096 * SlotOf(levels, i, k) + 16 <= 4096 * Pow2(levels)
  {
    InitialBounded(levels, base);
    RunsBounded(Initial(levels, base), ops, st);
    RunsValid(Initial(levels, base), ops, st);
    hide Bounded;
    BoundedBytes(st);
  }
}
