/**
 * When malloc fails: a condition on the free lists, the root and the address
 * limit that can be checked before the call.
 */
module BuddyFailure {
  import opened Wrappers
  import opened BuddyIndex
  import opened BuddyHeap
  import opened BuddyBits
  import opened BuddyAlloc
  import opened BuddyCover
  import opened BuddyState
  import opened BuddyTheorems

  // ---------------------------------------------------------------- the condition

  /** Bucket b is the first one, from want downwards, with a free block on its list. */
  ghost predicate Serves(h: Heap, b: nat, want: nat)
    requires Inv(h) && want <= h.levels
  {
    h.bottom <= b <= want && h.lists[b] != [] && forall m | b < m <= want :: h.lists[m] == []
  }

  ghost predicate NoneListed(h: Heap, want: nat)
    requires Inv(h) && want <= h.levels
  {
    forall m | h.bottom <= m <= want :: h.lists[m] == []
  }

  /** Bytes of a block of bucket b that must be addressable before it is used for bucket want. */
  function Used(levels: nat, b: nat, want: nat): (n: nat)
    requires b <= levels
    ensures n >= 16
  {
    var size := 4096 * Span(levels, b);
    if b < want then size / 2 + 16 else size
  }

  /** The address that lies offset bytes into the arena is greater than the size of the arena. */
  ghost predicate Past(h: Heap, offset: nat) {
    h.base + offset > 4096 * Pow2(h.levels)
  }

  /** The block that malloc would use, one listed or one that growth adds, reaches beyond the address limit. */
  ghost predicate BeyondLimit(h: Heap, want: nat)
    requires Inv(h) && want <= h.levels
  {
    if h.bottom > want then
      if h.nodes[Root(h)] == Free then
        Past(h, 4096 * Span(h.levels, want))
      else
        want > 0 && Past(h, 4096 * Span(h.levels, want) + 4096 * Span(h.levels, want))
    else if NoneListed(h, want) then
      h.bottom > 0 && Past(h, 4096 * Span(h.levels, h.bottom) + Used(h.levels, h.bottom, want))
    else
      exists b :: Serves(h, b, want)
                  && Past(h, 4096 * SlotOf(h.levels, ListedLast(h, b), b) + Used(h.levels, b, want))
  }

  /** The block that malloc pops off a list. */
  ghost function ListedLast(h: Heap, b: nat): (i: nat)
    requires Inv(h) && b <= h.levels && h.lists[b] != []
    ensures AtLevel(i, b) && i == Last(h.lists[b])
  {
    assert ListOk(h, b) && Last(h.lists[b]) in h.lists[b];
    Last(h.lists[b])
  }

  /** The tree cannot grow any more, and no list searched has a block. */
  ghost predicate Exhausted(h: Heap, want: nat)
    requires Inv(h) && want <= h.levels
  {
    if h.bottom > want then want == 0 && h.nodes[Root(h)] != Free else h.bottom == 0 && NoneListed(h, want)
  }

  // ---------------------------------------------------------------- growth

  /** When growth is refused, and what it leaves at the root. */
  lemma {:induction false} GrownTo(h: Heap, k: nat)
    requires Inv(h) && k < h.bottom
    ensures var (g, ok) := GrowTo(h, k);
            if h.nodes[Root(h)] == Free then
              ok && g.nodes[Root(g)] == Free
            else
              && (ok <==> AddressOk(h, MIN_ALLOC * Span(h.levels, k + 1) + LINK_SIZE))
              && (ok ==> g.nodes[Root(g)] != Free)
    decreases h.bottom
  {
    NewRoot(h);
    hide NodeOk;
    hide ListOk;
    PowMonotone(h.levels - h.bottom, h.levels - (k + 1));
    ReachOfGrowth(h);
    if h.nodes[Root(h)] == Free {
      GrowUnusedKeeps(h);
      assert GrowTo(h, k) == GrowTo(GrowUnused(h), k);
      if k < h.bottom - 1 {
        GrownTo(GrowUnused(h), k);
      }
    } else if AddressOk(h, GrowthReach(h)) {
      GrowUsedKeeps(h);
      assert GrowTo(h, k) == GrowTo(GrowUsed(h), k);
      if k < h.bottom - 1 {
        GrownTo(GrowUsed(h), k);
      }
    }
  }

  // ---------------------------------------------------------------- the search

  lemma CarveFailsIff(h: Heap, k: nat, want: nat)
    requires Inv(h) && k <= want <= h.levels && h.lists[k] != []
    ensures Carve(h, k, want).1 == None <==>
            Past(h, 4096 * SlotOf(h.levels, ListedLast(h, k), k) + Used(h.levels, k, want))
    ensures Carve(h, k, want).1 == None ==> Carve(h, k, want).0 == h
  {
  }

  /** A listed block at or above the root's bucket is found without growth. */
  lemma {:induction false} SearchServed(h: Heap, want: nat, k: nat, b: nat)
    requires Inv(h) && k <= want <= h.levels && Serves(h, b, k)
    ensures MallocFrom(h, want, k) == Carve(h, b, want)
    decreases k
  {
    if b < k {
      SearchServed(h, want, k - 1, b);
    }
  }

  /** Without a listed block the tree must grow by one level, and its new half is used. */
  lemma {:induction false} SearchGrows(h: Heap, want: nat, k: nat)
    requires Inv(h) && h.bottom <= k <= want <= h.levels && NoneListed(h, k)
    ensures MallocFrom(h, want, k).1 == None <==>
            h.bottom == 0 || Past(h, 4096 * Span(h.levels, h.bottom) + Used(h.levels, h.bottom, want))
    decreases k
  {
    if h.bottom < k {
      SearchGrows(h, want, k - 1);
    } else if h.bottom > 0 {
      RootListAlone(h);
      GrownTo(h, k - 1);
      if GrowTo(h, k - 1).1 {
        GrownHalf(h);
        HalfFailsIff(h, want);
      }
    }
  }

  lemma HalfFailsIff(h: Heap, want: nat)
    requires Inv(h) && 0 < h.bottom <= want <= h.levels && h.lists[h.bottom] == [] && GrowTo(h, h.bottom - 1).1
    ensures GrowTo(h, h.bottom - 1).0.lists[h.bottom] != []
    ensures Carve(GrowTo(h, h.bottom - 1).0, h.bottom, want).1 == None <==>
            Past(h, 4096 * Span(h.levels, h.bottom) + Used(h.levels, h.bottom, want))
  {
    hide Carve;
    hide SplitDown;
    GrownHalf(h);
    NewRoot(h);
    hide GrowTo;
    CarveFailsIff(GrowTo(h, h.bottom - 1).0, h.bottom, want);
    assert SlotOf(h.levels, Root(h) + 1, h.bottom) == 1 * Span(h.levels, h.bottom);
  }

  /** The search goes on in the grown tree as if it had started there. */
  lemma SearchGrown(h: Heap, want: nat)
    requires Inv(h) && want <= h.levels
    ensures var (g, ok) := GrowTo(h, want);
            if ok then MallocFrom(h, want, want) == MallocFrom(g, want, want)
            else MallocFrom(h, want, want) == (g, None)
  {
    hide NodeOk;
    hide ListOk;
    hide Carve;
  }

  lemma SearchBelowFree(h: Heap, want: nat)
    requires Inv(h) && want < h.bottom && h.nodes[Root(h)] == Free
    ensures MallocFrom(h, want, want).1 == None <==> BeyondLimit(h, want)
  {
    hide Carve;
    SearchGrown(h, want);
    GrownTo(h, want);
    var g := GrowTo(h, want).0;
    RootListAlone(g);
    RootSlot(g);
    SearchServed(g, want, want, want);
    CarveFailsIff(g, want, want);
  }

  lemma ReachMonotone(h: Heap, less: nat, more: nat)
    requires less <= more && AddressOk(h, more)
    ensures AddressOk(h, less)
  {
  }

  /** Growing a tree in use up to the bucket wanted, and one level more for a block, needs the whole of both halves. */
  lemma SearchBelowUsed(h: Heap, want: nat)
    requires Inv(h) && want < h.bottom && h.nodes[Root(h)] != Free
    ensures MallocFrom(h, want, want).1 == None <==> want == 0 || BeyondLimit(h, want)
  {
    SearchGrown(h, want);
    GrownTo(h, want);
    SpanDoubles(h.levels, want);
    var size := MIN_ALLOC * Span(h.levels, want);
    if AddressOk(h, size + size) {
      ReachMonotone(h, MIN_ALLOC * Span(h.levels, want + 1) + LINK_SIZE, size + size);
    }
    hide NodeOk;
    hide ListOk;
    hide MallocFrom;
    hide AddressOk;
    hide Past;
    hide Span;
    var (g, ok) := GrowTo(h, want);
    hide GrowTo;
    if ok {
      RootListAlone(g);
      SearchGrows(g, want, want);
      SameReach(h, g, size + size);
    }
  }

  lemma SameReach(h: Heap, g: Heap, n: nat)
    requires SameArena(h, g)
    ensures AddressOk(h, n) == AddressOk(g, n) && Past(h, n) == !AddressOk(h, n) && Past(g, n) == !AddressOk(g, n)
  {
  }

  lemma {:induction false} ServingBucket(h: Heap, k: nat) returns (b: nat)
    requires Inv(h) && h.bottom <= k <= h.levels && !NoneListed(h, k)
    ensures Serves(h, b, k)
    decreases k
  {
    if h.lists[k] != [] {
      b := k;
    } else {
      b := ServingBucket(h, k - 1);
    }
  }

  lemma ServedFailsIff(h: Heap, want: nat)
    requires Inv(h) && h.bottom <= want <= h.levels && !NoneListed(h, want)
    ensures MallocFrom(h, want, want).1 == None <==> BeyondLimit(h, want)
  {
    hide NodeOk;
    hide ListOk;
    var b := ServingBucket(h, want);
    SearchServed(h, want, want, b);
    CarveFailsIff(h, b, want);
    hide MallocFrom;
    hide Carve;
    hide AddressOk;
    hide Past;
    assert forall c | Serves(h, c, want) :: c == b;
  }

  /** The search fails exactly when the condition holds. */
  lemma SearchFailsIff(h: Heap, want: nat)
    requires Inv(h) && want <= h.levels
    ensures MallocFrom(h, want, want).1 == None <==> Exhausted(h, want) || BeyondLimit(h, want)
  {
    hide NodeOk;
    hide ListOk;
    hide MallocFrom;
    hide AddressOk;
    hide Past;
    if h.bottom > want {
      if h.nodes[Root(h)] == Free {
        SearchBelowFree(h, want);
      } else {
        SearchBelowUsed(h, want);
      }
    } else if NoneListed(h, want) {
      SearchGrows(h, want, want);
    } else {
      ServedFailsIff(h, want);
    }
  }

  // ---------------------------------------------------------------- what exhaustion means

  /** A free block of bucket b contains an unused node of every bucket from b on. */
  lemma FreeBlockHasUnused(st: State, b: nat, want: nat) returns (i: nat)
    requires Valid(st) && b <= want <= st.heap.levels && st.heap.lists[b] != []
    ensures AtLevel(i, want) && Unused(st, i, want)
  {
    var j := Last(st.heap.lists[b]);
    assert ListOk(st.heap, b) && j in st.heap.lists[b];
    var s := SlotOf(st.heap.levels, j, b);
    SlotInArena(st.heap.levels, j, b);
    SlotOfNode(st.heap.levels, s, want);
    i := NodeAt(st.heap.levels, s, want);
    AncestorAt(st.heap.levels, i, want, j, b, s);
    UnusedInside(st, i, want, j, b);
  }

  /** In a full-size tree an unused node lies in a listed block of its bucket or a lower one. */
  lemma UnusedIsListed(st: State, i: nat, want: nat)
    requires Valid(st) && st.heap.bottom == 0 && want <= st.heap.levels && AtLevel(i, want) && Unused(st, i, want)
    ensures exists m :: 0 <= m <= want && st.heap.lists[m] != []
  {
    var h := st.heap;
    InArena(h.levels, i, want);
    SlotInArena(h.levels, i, want);
    if h.nodes[i] == Inner {
      UsedNode(st, i, want);
    }
    var j, m := Surrounding(h, i, want);
    if h.nodes[j] == Live {
      UsedAround(st, i, want, j, m);
    }
    assert ListOk(h, m);
    assert h.lists[m] != [];
  }

  /** No aligned block of the bucket is unused, anywhere in the arena. */
  ghost predicate NothingUnused(st: State, k: nat)
    requires Valid(st) && k <= st.heap.levels
  {
    forall i: nat | AtLevel(i, k) :: !Unused(st, i, k)
  }

  lemma RootFreeNothingLive(st: State)
    requires Valid(st) && st.heap.nodes[Root(st.heap)] == Free
    ensures st.live == map[]
  {
    if a :| a in st.live {
      OnlyTheRoot(st.heap, BlockNode(st, a), BlockBucket(st, a));
    }
  }

  lemma FirstOutside(st: State, want: nat) returns (i: nat)
    requires Valid(st) && 0 < st.heap.bottom && 0 < want <= st.heap.levels
    ensures AtLevel(i, want) && Unused(st, i, want)
  {
    var h := st.heap;
    if want < h.bottom {
      i := Leftmost(want) + 1;
      PowMonotone(h.levels - h.bottom, h.levels - want);
      assert Pow2(want) == 2 * Pow2(want - 1);
      assert SlotOf(h.levels, i, want) == 1 * Span(h.levels, want);
      UnusedOutside(st, i, want);
    } else {
      NewRoot(h);
      var s := SlotOf(h.levels, Root(h) + 1, h.bottom);
      assert s == 1 * Span(h.levels, h.bottom);
      SlotInArena(h.levels, Root(h) + 1, h.bottom);
      SlotOfNode(h.levels, s, want);
      i := NodeAt(h.levels, s, want);
      AncestorAt(h.levels, i, want, Root(h) + 1, h.bottom, s);
      UnusedOutside(st, i, want);
    }
  }

  lemma ArenaUsed(st: State, i: nat)
    requires Valid(st) && st.heap.nodes[Root(st.heap)] != Free && AtLevel(i, 0)
    ensures !Unused(st, i, 0)
  {
    var h := st.heap;
    RootSlot(h);
    var j, m := InnerHasLive(h, Root(h), h.bottom);
    SlotInArena(h.levels, j, m);
    LeftmostSlot(h.levels, 0);
    UsedAround(st, i, 0, j, m);
  }

  /** Exhausted means that no aligned block of the size needed is unused, anywhere in the arena. */
  lemma ExhaustedIff(st: State, want: nat)
    requires Valid(st) && want <= st.heap.levels
    ensures Exhausted(st.heap, want) <==> NothingUnused(st, want)
  {
    var h := st.heap;
    if Exhausted(h, want) {
      forall i: nat | AtLevel(i, want) ensures !Unused(st, i, want) {
        if h.bottom > want {
          ArenaUsed(st, i);
        } else if Unused(st, i, want) {
          UnusedIsListed(st, i, want);
        }
      }
    } else if h.bottom > want && h.nodes[Root(h)] == Free {
      RootFreeNothingLive(st);
      assert Unused(st, Leftmost(want), want);
    } else if h.bottom <= want && !NoneListed(h, want) {
      var b := ServingBucket(h, want);
      var i := FreeBlockHasUnused(st, b, want);
    } else {
      var i := FirstOutside(st, want);
    }
  }

  /**
   * Malloc fails exactly when the request is larger than the arena, or no aligned block of the
   * size needed is unused anywhere in the arena, or the one block that it would use reaches
   * beyond the address limit, whatever other free blocks there are.
   */
  lemma MallocFailsIff(st: State, request: nat)
    requires Valid(st)
    ensures Malloc(st, request).1 == None <==>
            || request + 8 > 4096 * Pow2(st.heap.levels)
            || NothingUnused(st, BucketOf(st.heap, request))
            || BeyondLimit(st.heap, BucketOf(st.heap, request))
  {
    if request + HEADER_SIZE <= ArenaBytes(st.heap.levels) {
      SearchFailsIff(st.heap, BucketOf(st.heap, request));
      ExhaustedIff(st, BucketOf(st.heap, request));
    }
  }

  /** A malloc that fails without growing the tree changes nothing at all. */
  lemma FailedMallocChangesNothing(st: State, request: nat)
    requires Valid(st) && Malloc(st, request).1 == None
    ensures Malloc(st, request).0.live == st.live
    ensures Malloc(st, request).0.heap.bottom == st.heap.bottom ==> Malloc(st, request).0 == st
  {
    if request + HEADER_SIZE <= ArenaBytes(st.heap.levels)
       && Malloc(st, request).0.heap.bottom == st.heap.bottom
    {
      var want := BucketOf(st.heap, request);
      FailedSearchChangesNothing(st.heap, want, want);
    }
  }

  lemma {:induction false} FailedSearchChangesNothing(h: Heap, want: nat, k: nat)
    requires Inv(h) && k <= want <= h.levels
    requires MallocFrom(h, want, k).1 == None && MallocFrom(h, want, k).0.bottom == h.bottom
    ensures MallocFrom(h, want, k).0 == h
    decreases k
  {
    GrowthWithoutEffect(h, k);
    if GrowTo(h, k).1 && h.lists[k] == [] {
      if k != h.bottom && k > 0 {
        FailedSearchChangesNothing(h, want, k - 1);
      } else if k > 0 {
        GrowthWithoutEffect(h, k - 1);
      }
    }
  }

  /** Growth that leaves the root where it was leaves the heap as it was. */
  lemma GrowthWithoutEffect(h: Heap, k: nat)
    requires Inv(h)
    ensures GrowTo(h, k).0.bottom == h.bottom ==> GrowTo(h, k).0 == h
  {
    if h.bottom > k && h.nodes[Root(h)] == Free {
      GrowUnusedKeeps(h);
      assert GrowTo(h, k) == GrowTo(GrowUnused(h), k);
    } else if h.bottom > k && AddressOk(h, GrowthReach(h)) {
      NewRoot(h);
      GrowUsedKeeps(h);
      assert GrowTo(h, k) == GrowTo(GrowUsed(h), k);
    }
  }

  /**
   * A listed block beyond the limit shuts out every request that leads to it: each is refused, and
   * the state stays as it is, so that the next one is refused as well.
   */
  lemma UnreachableBlockBlocks(st: State, b: nat, request: nat)
    requires Valid(st) && request + HEADER_SIZE <= ArenaBytes(st.heap.levels)
    requires Serves(st.heap, b, BucketOf(st.heap, request))
    requires Past(st.heap, 4096 * SlotOf(st.heap.levels, ListedLast(st.heap, b), b)
                           + 4096 * Span(st.heap.levels, b) / 2 + 16)
    ensures Malloc(st, request) == (st, None)
  {
    var want := BucketOf(st.heap, request);
    SearchServed(st.heap, want, want, b);
    CarveFailsIff(st.heap, b, want);
  }

  // ---------------------------------------------------------------- where a block is handed out

  /** If the search succeeds, its block begins at slot a, and the root is then at the given bucket. */
  ghost predicate Lands(levels: nat, r: (Heap, Option<nat>), want: nat, a: nat, bottom: nat)
    requires want <= levels
  {
    r.1.Some? ==> AtLevel(r.1.value, want) && SlotOf(levels, r.1.value, want) == a && r.0.bottom == bottom
  }

  lemma CarveLands(h: Heap, k: nat, want: nat)
    requires Inv(h) && k <= want <= h.levels && h.lists[k] != []
    ensures Lands(h.levels, Carve(h, k, want), want, SlotOf(h.levels, ListedLast(h, k), k), h.bottom)
  {
  }

  lemma {:induction false} GrowthLands(h: Heap, want: nat, k: nat)
    requires Inv(h) && h.bottom <= k <= want <= h.levels && NoneListed(h, k) && h.bottom > 0
    ensures Lands(h.levels, MallocFrom(h, want, k), want, Span(h.levels, h.bottom), h.bottom - 1)
    decreases k
  {
    if h.bottom < k {
      GrowthLands(h, want, k - 1);
    } else if GrowTo(h, k - 1).1 {
      HalfLands(h, want);
    }
  }

  lemma HalfLands(h: Heap, want: nat)
    requires Inv(h) && 0 < h.bottom <= want <= h.levels && h.lists[h.bottom] == [] && GrowTo(h, h.bottom - 1).1
    ensures GrowTo(h, h.bottom - 1).0.lists[h.bottom] != []
    ensures Lands(h.levels, Carve(GrowTo(h, h.bottom - 1).0, h.bottom, want), want, Span(h.levels, h.bottom), h.bottom - 1)
  {
    hide Carve;
    hide SplitDown;
    GrownHalf(h);
    NewRoot(h);
    hide GrowTo;
    CarveLands(GrowTo(h, h.bottom - 1).0, h.bottom, want);
    assert SlotOf(h.levels, Root(h) + 1, h.bottom) == 1 * Span(h.levels, h.bottom);
  }

  /** A free tree grows to the bucket wanted, and is handed out as a whole. */
  lemma FreeTreeLands(h: Heap, want: nat)
    requires Inv(h) && want < h.bottom && h.nodes[Root(h)] == Free
    ensures Lands(h.levels, MallocFrom(h, want, want), want, 0, want)
  {
    SearchGrown(h, want);
    GrownTo(h, want);
    var g := GrowTo(h, want).0;
    RootListAlone(g);
    RootSlot(g);
    hide NodeOk;
    hide ListOk;
    hide GrowTo;
    hide Carve;
    hide Lands;
    SearchServed(g, want, want, want);
    CarveLands(g, want, want);
  }

  /** A tree in use that has grown to the bucket wanted has nothing on its lists up to there. */
  lemma UsedTreeGrown(h: Heap, want: nat)
    requires Inv(h) && want < h.bottom && h.nodes[Root(h)] != Free && GrowTo(h, want).1
    ensures var g := GrowTo(h, want).0;
            g.levels == h.levels && g.bottom == want && NoneListed(g, want)
  {
    GrownTo(h, want);
    RootListAlone(GrowTo(h, want).0);
  }

  /** It grows by one more level. */
  lemma UsedTreeLands(h: Heap, want: nat)
    requires Inv(h) && want < h.bottom && h.nodes[Root(h)] != Free
    ensures if want == 0 then MallocFrom(h, want, want).1 == None
            else Lands(h.levels, MallocFrom(h, want, want), want, Span(h.levels, want), want - 1)
  {
    hide NodeOk;
    hide ListOk;
    hide Past;
    hide AddressOk;
    hide Span;
    SearchGrown(h, want);
    hide MallocFrom;
    var (g, ok) := GrowTo(h, want);
    hide GrowTo;
    if ok {
      UsedTreeGrown(h, want);
      if want > 0 {
        GrowthLands(g, want, want);
      } else {
        SearchGrows(g, want, want);
      }
    }
  }

  /**
   * Where malloc hands out a block.  In a tree too small for it: at the start of the arena if nothing is live,
   * otherwise right behind a first block of the same size.  Without a listed block: at the start of the half
   * that one doubling adds.  Otherwise: at the start of the last block of the first bucket, from the tightest one
   * on, that has one.
   */
  lemma MallocLands(st: State, request: nat)
    requires Valid(st) && Malloc(st, request).1.Some?
    ensures request + 8 <= 4096 * Pow2(st.heap.levels)
    ensures var h, want := st.heap, BucketOf(st.heap, request);
            var (st', r) := Malloc(st, request);
            if want < h.bottom then
              if st.live == map[] then r.value == 0 && st'.heap.bottom == want
              else r.value == Span(h.levels, want) && st'.heap.bottom == want - 1
            else if NoneListed(h, want) then
              r.value == Span(h.levels, h.bottom) && st'.heap.bottom == h.bottom - 1
            else
              exists b :: Serves(h, b, want) && r.value == SlotOf(h.levels, ListedLast(h, b), b)
                          && st'.heap.bottom == h.bottom
  {
    hide NodeOk;
    hide ListOk;
    var h, want := st.heap, BucketOf(st.heap, request);
    if want < h.bottom {
      if h.nodes[Root(h)] == Free {
        FreeTreeLands(h, want);
        RootFreeNothingLive(st);
      } else {
        UsedTreeLands(h, want);
        if st.live == map[] {
          NothingLive(st);
        }
      }
    } else if NoneListed(h, want) {
      SearchGrows(h, want, want);
      GrowthLands(h, want, want);
    } else {
      var b := ServingBucket(h, want);
      SearchServed(h, want, want, b);
      CarveLands(h, b, want);
    }
  }
}
