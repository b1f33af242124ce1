/**
 * Malloc, free and growth as functions on heaps, composed of the steps of
 * BuddyHeap in the order in which the allocator takes them.
 */
module BuddyAlloc {
  import opened Wrappers
  import opened BuddyIndex
  import opened BuddyHeap

  /** Bytes of the whole arena ("MAX_ALLOC"). */
  function ArenaBytes(levels: nat): nat {
    MIN_ALLOC * Pow2(levels)
  }

  /** "update_max_ptr" accepts the address that lies offset bytes into the arena. */
  ghost predicate AddressOk(h: Heap, offset: nat) {
    h.base + offset <= ArenaBytes(h.levels)
  }

  /** Only the nodes, the lists and the root may differ. */
  ghost predicate SameArena(h: Heap, g: Heap) {
    g.levels == h.levels && g.base == h.base
  }

  // ---------------------------------------------------------------- growth

  /** First byte, relative to the base, after the link that growth writes. */
  ghost function GrowthReach(h: Heap): nat
    requires Inv(h) && h.bottom > 0
  {
    NewRoot(h);
    MIN_ALLOC * SlotOf(h.levels, Root(h) + 1, h.bottom) + LINK_SIZE
  }

  lemma ReachOfGrowth(h: Heap)
    requires Inv(h) && h.bottom > 0
    ensures GrowthReach(h) == MIN_ALLOC * Span(h.levels, h.bottom) + LINK_SIZE
  {
    NewRoot(h);
    assert SlotOf(h.levels, Root(h) + 1, h.bottom) == 1 * Span(h.levels, h.bottom);
  }

  /** "lower_bucket_limit": double the tree until its root is at bucket k or lower. */
  ghost function GrowTo(h: Heap, k: nat): (r: (Heap, bool))
    requires Inv(h)
    ensures Inv(r.0) && SameArena(h, r.0) && LiveNodes(r.0) == LiveNodes(h)
    ensures r.0.bottom <= h.bottom && (h.bottom <= k ==> r == (h, true))
    ensures h.bottom > k ==> if r.1 then r.0.bottom == k else r.0.bottom > k
    decreases h.bottom
  {
    if h.bottom <= k then
      (h, true)
    else if h.nodes[Root(h)] == Free then
      GrowUnusedKeeps(h);
      GrowTo(GrowUnused(h), k)
    else if !AddressOk(h, GrowthReach(h)) then
      (h, false)
    else
      NewRoot(h);
      GrowUsedKeeps(h);
      GrowTo(GrowUsed(h), k)
  }

  // ---------------------------------------------------------------- malloc

  /** Split a held block down to bucket want, keeping the left halves. */
  ghost function SplitDown(h: Heap, i: nat, k: nat, want: nat): (r: (Heap, nat))
    requires Held(h, i, k) && k <= want <= h.levels
    ensures Held(r.0, r.1, want) && SameArena(h, r.0) && r.0.bottom == h.bottom
    ensures LiveNodes(r.0) == LiveNodes(h) - {i} + {r.1}
    ensures r.1 != i ==> r.1 !in LiveNodes(h)
    ensures SlotOf(h.levels, r.1, want) == SlotOf(h.levels, i, k)
    decreases want - k
  {
    if k == want then
      (h, i)
    else
      InArena(h.levels, i, k);
      SplitKeeps(h, i, k);
      ChildrenHalve(h.levels, i, k);
      SplitDown(Split(h, i, k), 2 * i + 1, k + 1, want)
  }

  /** Bytes, relative to the base, that must be addressable before the block is used. */
  ghost function BlockReach(h: Heap, k: nat, want: nat): nat
    requires Inv(h) && k <= want && k <= h.levels && h.lists[k] != []
  {
    TakeKeeps(h, k);
    var size := MIN_ALLOC * Span(h.levels, k);
    MIN_ALLOC * SlotOf(h.levels, Last(h.lists[k]), k) + (if k < want then size / 2 + LINK_SIZE else size)
  }

  /** Pop the last free block of bucket k and split it down to bucket want. */
  ghost function Carve(h: Heap, k: nat, want: nat): (r: (Heap, Option<nat>))
    requires Inv(h) && k <= want <= h.levels && h.lists[k] != []
    ensures Inv(r.0) && SameArena(h, r.0) && r.0.bottom == h.bottom
    ensures r.1.None? ==> r.0 == h
    ensures r.1.Some? ==> Held(r.0, r.1.value, want) && r.1.value !in LiveNodes(h)
                          && LiveNodes(r.0) == LiveNodes(h) + {r.1.value}
  {
    TakeKeeps(h, k);
    if !AddressOk(h, BlockReach(h, k, want)) then
      (h, None)
    else
      var (g, i) := SplitDown(Take(h, k), Last(h.lists[k]), k, want);
      (g, Some(i))
  }

  /** The search of "myMalloc", from bucket k downwards. */
  ghost function MallocFrom(h: Heap, want: nat, k: nat): (r: (Heap, Option<nat>))
    requires Inv(h) && k <= want <= h.levels
    ensures Inv(r.0) && SameArena(h, r.0) && r.0.bottom <= h.bottom
    ensures r.1.None? ==> LiveNodes(r.0) == LiveNodes(h)
    ensures r.1.Some? ==> Held(r.0, r.1.value, want) && r.1.value !in LiveNodes(h)
                          && LiveNodes(r.0) == LiveNodes(h) + {r.1.value}
    decreases k
  {
    var (g, grown) := GrowTo(h, k);
    if !grown then
      (g, None)
    else if g.lists[k] != [] then
      Carve(g, k, want)
    else if k != g.bottom || k == 0 then
      if k == 0 then (g, None) else MallocFrom(g, want, k - 1)
    else
      var (g', grown') := GrowTo(g, k - 1);
      if !grown' then
        (g', None)
      else
        GrownHalf(g);
        Carve(g', k, want)
  }

  /** Growing past a root whose list is empty puts the new right half on that list. */
  lemma GrownHalf(h: Heap)
    requires Inv(h) && h.bottom > 0 && h.lists[h.bottom] == [] && GrowTo(h, h.bottom - 1).1
    ensures Root(h) + 1 < |h.nodes| && h.nodes[Root(h)] != Free
    ensures GrowTo(h, h.bottom - 1) == (GrowUsed(h), true)
    ensures GrowTo(h, h.bottom - 1).0.lists[h.bottom] == [Root(h) + 1]
  {
    RootListAlone(h);
    NewRoot(h);
    GrowUsedKeeps(h);
    assert GrowTo(h, h.bottom - 1) == GrowTo(GrowUsed(h), h.bottom - 1);
  }

  ghost function MallocNode(h: Heap, request: nat): (r: (Heap, Option<nat>))
    requires Inv(h)
    ensures Inv(r.0) && SameArena(h, r.0) && r.0.bottom <= h.bottom
    ensures r.1.None? ==> LiveNodes(r.0) == LiveNodes(h)
    ensures r.1.Some? ==> request + HEADER_SIZE <= ArenaBytes(h.levels)
                          && Held(r.0, r.1.value, BucketFor(h.levels, request + HEADER_SIZE))
                          && r.1.value !in LiveNodes(h)
                          && LiveNodes(r.0) == LiveNodes(h) + {r.1.value}
  {
    if request + HEADER_SIZE > ArenaBytes(h.levels) then
      (h, None)
    else
      var want := BucketFor(h.levels, request + HEADER_SIZE);
      MallocFrom(h, want, want)
  }

  // ---------------------------------------------------------------- free

  /** "myFree" from node i of bucket k: merge while the buddy is free, then release. */
  ghost function FreeUp(h: Heap, i: nat, k: nat): (r: Heap)
    requires Held(h, i, k)
    ensures Inv(r) && SameArena(h, r) && r.bottom == h.bottom
    ensures LiveNodes(r) == LiveNodes(h) - {i}
    decreases k
  {
    if BuddyFree(h, i, k) then
      MergeKeeps(h, i, k);
      FreeUp(Merge(h, i, k), Parent(i), k - 1)
    else
      ReleaseKeeps(h, i, k);
      Release(h, i, k)
  }
}
