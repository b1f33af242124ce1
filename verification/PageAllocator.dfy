/**
 * The buddy allocator of the kernel (Kernel/pageAllocator.c) on its own data:
 * packed split flags, circular lists threaded through the free memory, and the
 * lazily growing root.  Every method is proved against the heap steps of
 * BuddyHeap and the functions of BuddyAlloc and BuddyState.
 *
 * Memory is seen as the first two words of every slot of MIN_ALLOC bytes: in a
 * free block they are its list links, in a live block the first is the header.
 */
module PageAllocator {
  import opened Wrappers
  import opened BuddyIndex
  import opened BuddyHeap
  import opened BuddyBits
  import opened BuddyAlloc
  import opened BuddyCover
  import opened BuddyState
  import opened BuddyTheorems
  import opened SplitBits
  import opened FreeLists

  /** The packed flags are the bits of the heap. */
  ghost predicate BitsAre(bytes: seq<bv8>, h: Heap)
    requires Shape(h)
  {
    && 8 * |bytes| == Pow2(h.levels)
    && forall j: nat | Internal(h, j) :: Bit(bytes, j) == BitOf(h, j)
  }

  lemma FlippedBits(bytes: seq<bv8>, h: Heap, h': Heap, p: nat)
    requires Shape(h) && Shape(h') && h.levels == h'.levels && Internal(h, p)
    requires BitsAre(bytes, h) && FlipsOnly(h, h', p)
    ensures BitsAre(bytes[p / 8 := Toggle(bytes[p / 8], Shift(p))], h')
  {
    forall j: nat | Internal(h', j)
      ensures Bit(bytes[p / 8 := Toggle(bytes[p / 8], Shift(p))], j) == BitOf(h', j)
    {
      FlipOneFlag(bytes, p, j);
    }
  }

  /** Cell c is a slot of one of the nodes. */
  ghost predicate Covered(levels: nat, nodes: set<nat>, c: nat) {
    exists i, k: nat :: i in nodes && k <= levels && AtLevel(i, k) && Contains(levels, i, k, c)
  }

  /** The words of every slot of the nodes are the same. */
  ghost predicate SameOn(prev: seq<nat>, next: seq<nat>, p: seq<nat>, n: seq<nat>, levels: nat, nodes: set<nat>) {
    && |p| == |prev| && |n| == |next| && |prev| == |next|
    && forall c: nat | c < |prev| && Covered(levels, nodes, c) :: p[c] == prev[c] && n[c] == next[c]
  }

  /** Changing the ring of a bucket writes into no live block. */
  lemma RingOutsideLive(prev: seq<nat>, next: seq<nat>, p: seq<nat>, n: seq<nat>, h: Heap, k: nat, nodes: set<nat>)
    requires Inv(h) && k <= h.levels && ChangesOnly(prev, next, p, n, h, k) && nodes <= LiveNodes(h)
    ensures SameOn(prev, next, p, n, h.levels, nodes)
  {
    forall c: nat | c < |prev| && Covered(h.levels, nodes, c) ensures !RingNeighbour(h, k, c) {
      var i, m: nat :| i in nodes && m <= h.levels && AtLevel(i, m) && Contains(h.levels, i, m, c);
      SlotInArena(h.levels, i, m);
      if RingNeighbour(h, k, c) {
        var j :| j in h.lists[k] && AtLevel(j, k) && c == SlotOf(h.levels, j, k);
        assert ListOk(h, k);
        BlocksDisjoint(h, i, m, j, k, c);
      }
    }
  }

  /** Writing into a block of a heap touches no other live block. */
  lemma StartOutsideLive(h: Heap, i: nat, k: nat, nodes: set<nat>)
    requires Held(h, i, k) && nodes <= LiveNodes(h) && i !in nodes
    ensures !Covered(h.levels, nodes, SlotOf(h.levels, i, k))
  {
    var c := SlotOf(h.levels, i, k);
    if Covered(h.levels, nodes, c) {
      var j, m: nat :| j in nodes && m <= h.levels && AtLevel(j, m) && Contains(h.levels, j, m, c);
      BlocksDisjoint(h, i, k, j, m, c);
    }
  }

  /** The entry pushed is neither the head nor the entry before it. */
  lemma PushTarget(prev: seq<nat>, next: seq<nat>, bottom: nat, lists: seq<seq<nat>>, h: Heap, k: nat, i: nat)
    requires Inv(h) && bottom <= k <= h.levels && AtLevel(i, k)
    requires Rings(prev, next, h.levels, bottom, lists) && h.lists == lists[k := lists[k] + [i]]
    ensures Head(h.levels, k) < |prev|
    ensures SlotOf(h.levels, i, k) != Head(h.levels, k) && SlotOf(h.levels, i, k) != prev[Head(h.levels, k)]
  {
    var cells := Cells(h.levels, lists[k], k);
    PushedCells(lists[k], h, k, i);
    assert LinkAt(prev, next, Head(h.levels, k), cells, |cells|);
  }

  /** The word before a list head leads to its last entry. */
  lemma BackCell(prev: seq<nat>, next: seq<nat>, h: Heap, k: nat)
    requires Inv(h) && h.bottom <= k <= h.levels && Rings(prev, next, h.levels, h.bottom, h.lists)
    ensures Head(h.levels, k) < |prev|
    ensures h.lists[k] == [] <==> prev[Head(h.levels, k)] == Head(h.levels, k)
    ensures h.lists[k] != [] ==> AtLevel(Last(h.lists[k]), k) && prev[Head(h.levels, k)] == SlotOf(h.levels, Last(h.lists[k]), k)
  {
    var cells := Cells(h.levels, h.lists[k], k);
    ListApart(h, k);
    assert LinkAt(prev, next, Head(h.levels, k), cells, |cells|);
    if cells != [] {
      assert cells[|cells| - 1] in cells;
      assert Last(h.lists[k]) in h.lists[k];
    }
  }

  lemma CellsInArena(levels: nat, lists: seq<seq<nat>>)
    requires |lists| == levels + 1 && forall k: nat | k <= levels :: AllAtLevel(lists[k], k)
    ensures forall k: nat | k <= levels :: forall c | c in Cells(levels, lists[k], k) :: c < Pow2(levels)
  {
    forall k: nat, x | k <= levels && 0 <= x < |lists[k]| ensures Cells(levels, lists[k], k)[x] < Pow2(levels) {
      assert lists[k][x] in lists[k];
      SlotInArena(levels, lists[k][x], k);
    }
  }

  lemma CoveredInArena(levels: nat, nodes: set<nat>)
    ensures forall c: nat | Covered(levels, nodes, c) :: c < Pow2(levels)
  {
    forall c: nat | Covered(levels, nodes, c) ensures c < Pow2(levels) {
      var i, k: nat :| i in nodes && k <= levels && AtLevel(i, k) && Contains(levels, i, k, c);
      SlotInArena(levels, i, k);
    }
  }

  /** The lists of the grown tree, before and after the new root's list is cleared. */
  lemma GrownLists(h: Heap)
    requires Inv(h) && h.bottom > 0 && h.nodes[Root(h)] != Free && Root(h) + 1 < |h.nodes|
    ensures GrowUsed(h).lists == h.lists[h.bottom := h.lists[h.bottom] + [Root(h) + 1]]
    ensures GrowUsed(h).lists == GrowUsed(h).lists[h.bottom - 1 := []]
  {
    NoListAbove(h, h.bottom - 1);
    assert GrowUsed(h).lists == h.lists[h.bottom := h.lists[h.bottom] + [Root(h) + 1]];
  }

  /** Buckets above the root have empty lists. */
  lemma NoListAbove(h: Heap, k: nat)
    requires Inv(h) && k < h.bottom
    ensures h.lists[k] == []
  {
    assert ListOk(h, k);
    if h.lists[k] != [] {
      assert h.lists[k][0] in h.lists[k];
      RootOnlyAtBottom(h, k);
      OutsideRoot(h, h.lists[k][0], k);
    }
  }

  /** The root, its parent's bit, and the slot of its right neighbour. */
  lemma RootNode(h: Heap)
    requires Inv(h) && h.bottom > 0
    ensures NodeAt(h.levels, 0, h.bottom) == Root(h) && Root(h) > 0
    ensures Internal(h, Parent(Root(h))) && BitOf(h, Parent(Root(h))) == (h.nodes[Root(h)] != Free)
  {
    NewRoot(h);
    RootSlot(h);
    NodeOfSlot(h.levels, Root(h), h.bottom, 0);
    assert Parent(Root(h)) == Leftmost(h.bottom - 1);
  }

  lemma HeldUnderRoot(h: Heap, i: nat, k: nat)
    requires Held(h, i, k)
    ensures k >= h.bottom
  {
    BlockPlace(h, i, k, SlotOf(h.levels, i, k));
  }

  /** Splitting the held node down to bucket want gives the goal. */
  ghost predicate SplitsTo(h: Heap, i: nat, k: nat, want: nat, goal: (Heap, nat)) {
    Held(h, i, k) && k <= want <= h.levels && SplitDown(h, i, k, want) == goal
  }

  /** What one split does, in the terms of the loop that performs it. */
  lemma SplitFacts(h: Heap, i: nat, k: nat, left: nat, right: nat, below: nat, want: nat,
                   goal: (Heap, nat), keep: set<nat>)
    returns (g: Heap)
    requires SplitsTo(h, i, k, want, goal) && k < want
    requires left == 2 * i + 1 && right == left + 1 && below == k + 1
    requires keep <= LiveNodes(h) && i !in keep
    ensures SplitsTo(g, left, below, want, goal) && g.levels == h.levels && g.base == h.base && g.bottom == h.bottom
    ensures Internal(h, Parent(left)) && FlipsOnly(h, g, Parent(left))
    ensures h.bottom <= below <= h.levels && AtLevel(right, below)
    ensures g.lists == h.lists[below := h.lists[below] + [right]]
    ensures keep <= LiveNodes(g) && left !in keep
  {
    InArena(h.levels, i, k);
    g := Split(h, i, k);
    SplitKeeps(h, i, k);
    SplitFlips(h, i, k);
    ChildLevels(i, k);
    HeldUnderRoot(h, i, k);
    assert Parent(left) == i;
    assert SplitDown(h, i, k, want) == SplitDown(g, 2 * i + 1, k + 1, want);
  }

  /** Searching from bucket k gives the goal. */
  ghost predicate SearchesTo(h: Heap, want: nat, k: nat, goal: (Heap, Option<nat>)) {
    Inv(h) && k <= want <= h.levels && MallocFrom(h, want, k) == goal
  }

  /** One round of the search, case by case; below is the next bucket, if there is one. */
  lemma SearchRound(h: Heap, want: nat, k: nat, below: int, goal: (Heap, Option<nat>))
    requires SearchesTo(h, want, k, goal) && below == k - 1
    ensures var (g, grown) := GrowTo(h, k);
            if !grown then goal == (g, None)
            else if g.lists[k] != [] then goal == Carve(g, k, want)
            else if k != g.bottom || k == 0 then if below == -1 then goal == (g, None) else SearchesTo(g, want, below, goal)
            else below >= 0 &&
                 var (g', grown') := GrowTo(g, below);
                 if !grown' then goal == (g', None) else g'.lists[k] != [] && goal == Carve(g', k, want)
  {
    var (g, grown) := GrowTo(h, k);
    if grown && g.lists[k] == [] && k == g.bottom && k > 0 && GrowTo(g, k - 1).1 {
      GrownHalf(g);
    }
  }

  /** Freeing node i of bucket k gives the goal. */
  ghost predicate FreesTo(h: Heap, i: nat, k: nat, goal: Heap) {
    Held(h, i, k) && FreeUp(h, i, k) == goal
  }

  /** Merging node i with its free buddy, in the terms of the loop that performs it. */
  lemma MergeFacts(bytes: seq<bv8>, h: Heap, i: nat, k: nat, goal: Heap, buddy: nat, above: nat, parent: nat, keep: set<nat>)
    returns (g: Heap)
    requires FreesTo(h, i, k, goal) && BuddyFree(h, i, k) && BitsAre(bytes, h)
    requires buddy == Sibling(i) && above == k - 1 && parent == Parent(i)
    requires keep <= LiveNodes(h) && i !in keep
    ensures FreesTo(g, parent, above, goal) && g.levels == h.levels && g.base == h.base && g.bottom == h.bottom
    ensures h.bottom <= k <= h.levels && AtLevel(buddy, k) && buddy in h.lists[k]
    ensures g.lists == h.lists[k := Without(h.lists[k], buddy)]
    ensures parent / 8 < |bytes| && BitsAre(bytes[parent / 8 := Toggle(bytes[parent / 8], Shift(parent))], g)
    ensures keep <= LiveNodes(g) && parent !in keep
  {
    g := Merge(h, i, k);
    MergeKeeps(h, i, k);
    MergeFlips(h, i, k);
    MergeParent(h, i, k);
    FlippedBits(bytes, h, g, parent);
    assert ListOk(h, k);
  }

  /** Releasing node i, whose buddy is not free, in the terms of the end of the loop. */
  lemma ReleaseFacts(bytes: seq<bv8>, h: Heap, i: nat, k: nat, goal: Heap)
    requires FreesTo(h, i, k, goal) && !BuddyFree(h, i, k) && BitsAre(bytes, h)
    ensures Inv(goal) && goal == Release(h, i, k) && k >= h.bottom
    ensures goal.lists == h.lists[k := h.lists[k] + [i]]
    ensures if i == 0 then BitsAre(bytes, goal)
            else var p := Parent(i);
                 p / 8 < |bytes| && BitsAre(bytes[p / 8 := Toggle(bytes[p / 8], Shift(p))], goal)
  {
    ReleaseKeeps(h, i, k);
    ReleaseFlips(h, i, k);
    HeldUnderRoot(h, i, k);
    if i > 0 {
      ParentBit(h, i, k);
      FlippedBits(bytes, h, goal, Parent(i));
    }
  }

  /** The flag above node i, once flipped, tells whether to go on merging. */
  lemma FlagAfterFlip(bytes: seq<bv8>, h: Heap, i: nat, k: nat)
    requires Held(h, i, k) && i > 0 && BitsAre(bytes, h)
    ensures var p := Parent(i);
            p / 8 < |bytes|
            && (Bit(bytes[p / 8 := Toggle(bytes[p / 8], Shift(p))], p) || k == h.bottom <==> !BuddyFree(h, i, k))
  {
    HeldParentBit(h, i, k);
    HeldUnderRoot(h, i, k);
    FlipOneFlag(bytes, Parent(i), Parent(i));
  }

  lemma RootNotMergeable(h: Heap, i: nat, k: nat)
    requires Held(h, i, k) && i == 0
    ensures !BuddyFree(h, i, k)
  {
  }

  /** Freeing the block at a: its node, and the blocks that stay. */
  lemma FreeFacts(st: State, a: nat)
    requires BuddyState.Valid(st) && a in st.live
    ensures BuddyState.Valid(FreeBlock(st, a))
    ensures forall b | b in st.live && b != a :: BlockNode(st, b) != BlockNode(st, a)
    ensures forall b | b in st.live :: BlockNode(st, b) in LiveNodes(st.heap)
  {
    FreeValid(st, a);
    forall b | b in st.live && b != a ensures BlockNode(st, b) != BlockNode(st, a) {
      if BlockNode(st, b) == BlockNode(st, a) {
        LevelUnique(BlockNode(st, a), BlockBucket(st, a), BlockBucket(st, b));
      }
    }
  }

  lemma ZeroByte(s: bv8)
    requires s < 8
    ensures !BitIn(0, s)
  {
  }

  /** Initially no flag is set, as the root is free. */
  lemma InitialBits(bytes: seq<bv8>, levels: nat, base: nat)
    requires 8 * |bytes| == Pow2(levels) && forall x | 0 <= x < |bytes| :: bytes[x] == 0
    ensures BitsAre(bytes, Initial(levels, base).heap)
  {
    var h := Initial(levels, base).heap;
    RootLevel(h, levels);
    forall j: nat | Internal(h, j) ensures Bit(bytes, j) == BitOf(h, j) {
      ZeroByte(Shift(j));
    }
  }

  /** No cell of a live block is on a list, and none but its first is a header. */
  lemma StoreFacts(st: State, a: nat, c: nat)
    requires BuddyState.Valid(st) && a in st.live && a <= c < a + BlockSpan(st, a)
    ensures c < Pow2(st.heap.levels)
    ensures forall i, k: nat | k <= st.heap.levels && i in st.heap.lists[k] && AtLevel(i, k) ::
              SlotOf(st.heap.levels, i, k) != c
    ensures forall b | b in st.live && b == c :: b == a
  {
    var j, m := BlockNode(st, a), BlockBucket(st, a);
    SlotInArena(st.heap.levels, j, m);
    forall i, k: nat | k <= st.heap.levels && i in st.heap.lists[k] && AtLevel(i, k)
      ensures SlotOf(st.heap.levels, i, k) != c
    {
      assert ListOk(st.heap, k);
      if SlotOf(st.heap.levels, i, k) == c {
        BlocksDisjoint(st.heap, i, k, j, m, c);
      }
    }
    if c in st.live {
      BlocksDisjoint(st.heap, BlockNode(st, c), BlockBucket(st, c), j, m, c);
    }
  }

  lemma SameOnStep(prev: seq<nat>, next: seq<nat>, q: seq<nat>, m: seq<nat>, p: seq<nat>, n: seq<nat>,
                   levels: nat, nodes: set<nat>)
    requires SameOn(prev, next, q, m, levels, nodes) && SameOn(q, m, p, n, levels, nodes)
    ensures SameOn(prev, next, p, n, levels, nodes)
  {
  }

  /** Headers hold the requests of the live blocks. */
  ghost predicate HeadersAre(prev: seq<nat>, live: map<nat, nat>) {
    forall a | a in live :: a < |prev| && prev[a] == live[a]
  }

  /** Headers of blocks whose words have not changed still hold their requests. */
  lemma HeadersKept(st: State, prev: seq<nat>, next: seq<nat>, p: seq<nat>, n: seq<nat>, live: map<nat, nat>, nodes: set<nat>)
    requires BuddyState.Valid(st) && HeadersAre(prev, st.live)
    requires forall a | a in live :: a in st.live && live[a] == st.live[a] && BlockNode(st, a) in nodes
    requires SameOn(prev, next, p, n, st.heap.levels, nodes)
    ensures HeadersAre(p, live)
  {
    forall a | a in live ensures a < |p| && p[a] == live[a] {
      assert Contains(st.heap.levels, BlockNode(st, a), BlockBucket(st, a), a);
      assert Covered(st.heap.levels, nodes, a);
    }
  }

  /** Writing the header of held node i leaves the lists and all other live blocks alone. */
  lemma HeaderFacts(prev: seq<nat>, next: seq<nat>, h: Heap, i: nat, k: nat, a: nat, request: nat, keep: set<nat>)
    requires Held(h, i, k) && a == SlotOf(h.levels, i, k) && keep <= LiveNodes(h) && i !in keep
    requires Rings(prev, next, h.levels, h.bottom, h.lists)
    ensures a < |prev| && Rings(prev[a := request], next, h.levels, h.bottom, h.lists)
    ensures SameOn(prev, next, prev[a := request], next, h.levels, keep)
  {
    SlotInArena(h.levels, i, k);
    StartOutsideLive(h, i, k, keep);
    forall j, m: nat | m <= h.levels && j in h.lists[m] && AtLevel(j, m) ensures SlotOf(h.levels, j, m) != a {
      assert ListOk(h, m);
      if SlotOf(h.levels, j, m) == a {
        SameStart(h, i, k, j, m);
      }
    }
    RingsAfterWrite(prev, next, prev[a := request], next, h, a);
  }

  /** The node that malloc hands out, and the state it leads to. */
  lemma GrantFacts(st: State, request: nat) returns (st': State, r: Option<nat>, i: nat)
    requires BuddyState.Valid(st) && request + HEADER_SIZE <= ArenaBytes(st.heap.levels)
    ensures (st', r) == Malloc(st, request) && BuddyState.Valid(st')
    ensures var (g, n) := MallocFrom(st.heap, BucketOf(st.heap, request), BucketOf(st.heap, request));
            && st'.heap == g && (r.None? <==> n.None?) && (r.None? ==> st'.live == st.live)
            && (r.Some? ==>
                  && n == Some(i) && Held(g, i, BucketOf(st.heap, request)) && i !in LiveNodes(st.heap)
                  && LiveNodes(st.heap) <= LiveNodes(g)
                  && r.value == SlotOf(st.heap.levels, i, BucketOf(st.heap, request))
                  && r.value !in st.live && st'.live == st.live[r.value := request])
  {
    MallocValid(st, request);
    st', r := Malloc(st, request).0, Malloc(st, request).1;
    i := match MallocNode(st.heap, request).1 case Some(j) => j case None => 0;
  }

  /** The address eight bytes into slot a leads back to the slot. */
  lemma SlotOfAddress(base: nat, a: nat)
    ensures (base + 4096 * a + 8 - HEADER_SIZE - base) / MIN_ALLOC == a
  {
  }

  /** What a client asked for lies in its block, behind the first eight bytes. */
  lemma RequestInBlock(st: State, base: nat, a: nat)
    requires BuddyState.Valid(st) && a in st.live
    ensures base + MIN_ALLOC * a + HEADER_SIZE - 8 == base + 4096 * a
    ensures base + MIN_ALLOC * a + HEADER_SIZE + st.live[a] <= base + 4096 * (a + BlockSpan(st, a))
  {
    LiveBlockFits(st, a);
    hide BuddyState.Valid;
    hide BlockSpan;
  }

  class Allocator {
    const levels: nat
    const base: nat
    const bits: array<bv8>
    const prev: array<nat>
    const next: array<nat>
    var firstCall: bool
    var bucketLimit: nat
    ghost var heap: Heap
    ghost var live: map<nat, nat>

    /** The data structure holds the heap, after the first call. */
    ghost predicate Linked()
      reads this, bits, prev, next
    {
      && prev != next
      && Inv(heap) && heap.levels == levels && heap.base == base && bucketLimit == heap.bottom
      && Rings(prev[..], next[..], levels, heap.bottom, heap.lists)
    }

    ghost predicate Consistent()
      reads this, bits, prev, next
    {
      Linked() && BitsAre(bits[..], heap)
    }

    ghost function Abs(): State
      reads this
    {
      State(heap, live)
    }

    /** Between calls: the data structure holds a valid state, and headers hold the requests. */
    ghost predicate Valid()
      reads this, bits, prev, next
    {
      && prev != next
      && prev.Length == next.Length == Pow2(levels) + levels + 1
      && 8 * bits.Length == Pow2(levels)
      && heap.levels == levels && heap.base == base
      && BuddyState.Valid(Abs())
      && BitsAre(bits[..], heap)
      && (if firstCall then Linked() else Abs() == Initial(levels, base))
      && HeadersAre(prev[..], live)
    }

    constructor (levels: nat, base: nat)
      requires levels >= 3
      ensures Valid() && this.levels == levels && this.base == base
      ensures Abs() == Initial(levels, base)
      ensures fresh(bits) && fresh(prev) && fresh(next)
    {
      this.levels := levels;
      this.base := base;
      bits := new bv8[Pow2(levels) / 8](_ => 0);
      prev := new nat[Pow2(levels) + levels + 1];
      next := new nat[Pow2(levels) + levels + 1];
      firstCall := false;
      bucketLimit := 0;
      heap := Initial(levels, base).heap;
      live := map[];
      new;
      InitialValid(levels, base);
      EighthOf(levels);
      InitialBits(bits[..], levels, base);
    }

    // ---------------------------------------------------------------- address limit

    /** Both sides of the comparison carry the base, so that the absolute address is bounded. */
    method UpdateMaxPtr(newValue: nat) returns (ok: bool)
      ensures ok <==> newValue <= ArenaBytes(levels)
    {
      var maxPtr := base + ArenaBytes(levels);
      if base + newValue > maxPtr {
        return false;
      }
      return true;
    }

    // ---------------------------------------------------------------- lists

    method ListInit(list: nat)
      requires prev != next && list < prev.Length && list < next.Length
      modifies prev, next
      ensures prev[..] == old(prev[..])[list := list] && next[..] == old(next[..])[list := list]
    {
      prev[list] := list;
      next[list] := list;
    }

    method ListPush(list: nat, entry: nat)
      requires prev != next && prev.Length == next.Length && list < prev.Length && entry < prev.Length
      requires prev[list] < prev.Length && list != entry && prev[list] != entry
      modifies prev, next
      ensures prev[..] == PushedPrev(old(prev[..]), list, entry)
      ensures next[..] == PushedNext(old(prev[..]), old(next[..]), list, entry)
    {
      var last := prev[list];
      prev[entry] := last;
      next[entry] := list;
      next[last] := entry;
      prev[list] := entry;
    }

    method ListRemove(entry: nat)
      requires prev != next && prev.Length == next.Length && entry < prev.Length
      requires prev[entry] < prev.Length && next[entry] < prev.Length
      modifies prev, next
      ensures prev[..] == RemovedPrev(old(prev[..]), old(next[..]), entry)
      ensures next[..] == RemovedNext(old(prev[..]), old(next[..]), entry)
    {
      var before, after := prev[entry], next[entry];
      next[before] := after;
      prev[after] := before;
    }

    // ---------------------------------------------------------------- split flags

    method ParentIsSplit(i: nat) returns (split: bool)
      requires i > 0 && Parent(i) / 8 < bits.Length
      ensures split == Bit(bits[..], Parent(i))
    {
      var index := (i - 1) / 2;
      split := (bits[index / 8] >> Shift(index)) & 1 == 1;
    }

    method FlipParentIsSplit(i: nat)
      requires i > 0 && Parent(i) / 8 < bits.Length
      modifies bits
      ensures bits[..] == old(bits[..])[Parent(i) / 8 := Toggle(old(bits[..])[Parent(i) / 8], Shift(Parent(i)))]
    {
      var index := (i - 1) / 2;
      bits[index / 8] := bits[index / 8] ^ (1 << Shift(index));
    }

    /** Flip the flag above node i, which is what leads from heap h to heap g. */
    method FlipAbove(ghost h: Heap, ghost g: Heap, i: nat)
      requires Shape(h) && Shape(g) && g.levels == h.levels && BitsAre(bits[..], h)
      requires i > 0 && Internal(h, Parent(i)) && FlipsOnly(h, g, Parent(i))
      modifies bits
      ensures BitsAre(bits[..], g)
    {
      FlippedBits(bits[..], h, g, Parent(i));
      FlipParentIsSplit(i);
    }

    // ---------------------------------------------------------------- buckets

    method BucketForRequest(request: nat) returns (bucket: nat)
      requires request <= ArenaBytes(levels)
      ensures bucket == BucketFor(levels, request)
    {
      bucket := levels;
      var size := MIN_ALLOC;
      while size < request
        invariant bucket <= levels && size == MIN_ALLOC * Span(levels, bucket)
        invariant BucketFrom(levels, request, bucket) == BucketFor(levels, request)
        decreases bucket
      {
        bucket := bucket - 1;
        size := size * 2;
      }
    }

    // ---------------------------------------------------------------- list entries

    /** list_push of node i onto the list of bucket k; h is the heap that results. */
    method PushNode(ghost bottom: nat, ghost lists: seq<seq<nat>>, ghost h: Heap, k: nat, i: nat, ghost keep: set<nat>)
      requires prev != next && Inv(h) && h.levels == levels && bottom <= k <= levels && AtLevel(i, k)
      requires Rings(prev[..], next[..], levels, bottom, lists) && h.lists == lists[k := lists[k] + [i]]
      requires keep <= LiveNodes(h)
      modifies prev, next
      ensures Rings(prev[..], next[..], levels, bottom, h.lists)
      ensures SameOn(old(prev[..]), old(next[..]), prev[..], next[..], levels, keep)
    {
      ghost var p, n := prev[..], next[..];
      RingsAfterPush(p, n, bottom, lists, h, k, i);
      PushTarget(p, n, bottom, lists, h, k, i);
      ListPush(Head(levels, k), SlotOf(levels, i, k));
      RingOutsideLive(p, n, prev[..], next[..], h, k, keep);
    }

    /** list_remove of node x from the list of bucket k of heap h. */
    method RemoveNode(ghost h: Heap, k: nat, x: nat, ghost keep: set<nat>)
      requires prev != next && Inv(h) && h.levels == levels && h.bottom <= k <= levels
      requires AtLevel(x, k) && x in h.lists[k]
      requires Rings(prev[..], next[..], levels, h.bottom, h.lists)
      requires keep <= LiveNodes(h)
      modifies prev, next
      ensures Rings(prev[..], next[..], levels, h.bottom, h.lists[k := Without(h.lists[k], x)])
      ensures SameOn(old(prev[..]), old(next[..]), prev[..], next[..], levels, keep)
    {
      ghost var p, n := prev[..], next[..];
      RingsAfterRemove(p, n, h, k, x);
      ListRemove(SlotOf(levels, x, k));
      RingOutsideLive(p, n, prev[..], next[..], h, k, keep);
    }

    /** list_pop on bucket k: the last free node becomes a held block. */
    method PopNode(k: nat, ghost keep: set<nat>) returns (ptr: Option<nat>)
      requires Linked() && heap.bottom <= k <= levels && keep <= LiveNodes(heap)
      modifies this`heap, prev, next
      ensures Linked()
      ensures SameOn(old(prev[..]), old(next[..]), prev[..], next[..], levels, keep)
      ensures old(heap.lists[k]) == [] ==> ptr == None && heap == old(heap)
      ensures old(heap.lists[k]) != [] ==>
                && heap == Take(old(heap), k)
                && AtLevel(Last(old(heap.lists[k])), k)
                && ptr == Some(SlotOf(levels, Last(old(heap.lists[k])), k))
    {
      BackCell(prev[..], next[..], heap, k);
      var back := prev[Head(levels, k)];
      if back == Head(levels, k) {
        return None;
      }
      ghost var h, x := heap, Last(heap.lists[k]);
      TakeKeeps(h, k);
      assert ListOk(h, k);
      ButLastMembers(h.lists[k]);
      WithoutLast(ButLast(h.lists[k]), x);
      RingsAfterRemove(prev[..], next[..], h, k, x);
      ghost var p, n := prev[..], next[..];
      ListRemove(back);
      RingOutsideLive(p, n, prev[..], next[..], h, k, keep);
      heap := Take(h, k);
      return Some(back);
    }

    // ---------------------------------------------------------------- growth

    /** One doubling while the tree is free: the single block takes the new root's place. */
    method GrowUnusedStep(ghost keep: set<nat>)
      requires Consistent() && heap.bottom > 0 && heap.nodes[Root(heap)] == Free && keep <= LiveNodes(heap)
      modifies this`heap, this`bucketLimit, prev, next
      ensures heap == GrowUnused(old(heap)) && Consistent()
      ensures SameOn(old(prev[..]), old(next[..]), prev[..], next[..], levels, keep)
    {
      ghost var h := heap;
      ghost var g := GrowUnused(h);
      GrowUnusedKeeps(h);
      GrowUnusedBits(h);
      RootSlot(h);
      LeftmostSlot(levels, h.bottom - 1);
      RemoveNode(h, bucketLimit, Leftmost(bucketLimit), keep);
      ghost var lists := h.lists[h.bottom := Without(h.lists[h.bottom], Root(h))];
      bucketLimit := bucketLimit - 1;
      InitBucket(h, lists, keep);
      ghost var cleared := lists[g.bottom := []];
      assert cleared[g.bottom] + [Leftmost(g.bottom)] == [Leftmost(g.bottom)];
      assert g.lists == cleared[g.bottom := [Leftmost(g.bottom)]];
      PushNode(g.bottom, cleared, g, bucketLimit, Leftmost(bucketLimit), keep);
      heap := g;
    }

    /** list_init of the bucket just above the root of heap h. */
    method InitBucket(ghost h: Heap, ghost lists: seq<seq<nat>>, ghost keep: set<nat>)
      requires prev != next && Inv(h) && h.levels == levels && h.bottom > 0 && bucketLimit == h.bottom - 1
      requires Rings(prev[..], next[..], levels, h.bottom, lists)
      requires keep <= LiveNodes(h)
      modifies prev, next
      ensures Rings(prev[..], next[..], levels, h.bottom - 1, lists[h.bottom - 1 := []])
      ensures SameOn(old(prev[..]), old(next[..]), prev[..], next[..], levels, keep)
    {
      ghost var p, n := prev[..], next[..];
      CellsInArena(levels, lists);
      RingsAfterInit(p, n, levels, h.bottom, lists);
      ListInit(Head(levels, bucketLimit));
      CoveredInArena(levels, keep);
    }

    /** One doubling while the tree is in use: the new right half becomes a free block. */
    method GrowUsedStep(ghost keep: set<nat>)
      requires Consistent() && heap.bottom > 0 && heap.nodes[Root(heap)] != Free && keep <= LiveNodes(heap)
      requires Root(heap) + 1 < |heap.nodes|
      modifies this`heap, this`bucketLimit, prev, next, bits
      ensures heap == GrowUsed(old(heap)) && Consistent()
      ensures SameOn(old(prev[..]), old(next[..]), prev[..], next[..], levels, keep)
    {
      ghost var h := heap;
      ghost var g := GrowUsed(h);
      GrowUsedKeeps(h);
      GrowUsedBits(h);
      NewRoot(h);
      var root := Leftmost(bucketLimit);
      GrownLists(h);
      PushNode(h.bottom, h.lists, g, bucketLimit, root + 1, keep);
      bucketLimit := bucketLimit - 1;
      InitBucket(h, g.lists, keep);
      root := (root - 1) / 2;
      if root != 0 {
        FlipAbove(h, g, root);
      }
      heap := g;
    }

    /** lower_bucket_limit */
    method LowerBucketLimit(bucket: nat, ghost keep: set<nat>) returns (ok: bool)
      requires Consistent() && keep <= LiveNodes(heap)
      modifies this`heap, this`bucketLimit, prev, next, bits
      ensures (heap, ok) == GrowTo(old(heap), bucket) && Consistent()
      ensures SameOn(old(prev[..]), old(next[..]), prev[..], next[..], levels, keep)
    {
      while bucket < bucketLimit
        invariant Consistent() && keep <= LiveNodes(heap)
        invariant GrowTo(heap, bucket) == GrowTo(old(heap), bucket)
        invariant SameOn(old(prev[..]), old(next[..]), prev[..], next[..], levels, keep)
        decreases bucketLimit
      {
        var root := NodeAt(levels, 0, bucketLimit);
        RootNode(heap);
        var split := ParentIsSplit(root);
        if !split {
          GrowUnusedKeeps(heap);
          GrowUnusedStep(keep);
          continue;
        }
        NewRoot(heap);
        var reachable := UpdateMaxPtr(base + MIN_ALLOC * SlotOf(levels, root + 1, bucketLimit) + LINK_SIZE);
        if !reachable {
          return false;
        }
        GrowUsedKeeps(heap);
        GrowUsedStep(keep);
      }
      return true;
    }

    // ---------------------------------------------------------------- malloc

    /** One round of the splitting loop: the right half of the block goes on its free list. */
    method SplitStep(i: nat, bucket: nat, want: nat, ghost goal: (Heap, nat), ghost keep: set<nat>)
      returns (left: nat, below: nat)
      requires Consistent() && SplitsTo(heap, i, bucket, want, goal) && bucket < want <= levels
      requires keep <= LiveNodes(heap) && i !in keep
      modifies this`heap, prev, next, bits
      ensures Consistent() && below == bucket + 1 && SplitsTo(heap, left, below, want, goal)
      ensures keep <= LiveNodes(heap) && left !in keep
      ensures SameOn(old(prev[..]), old(next[..]), prev[..], next[..], levels, keep)
    {
      left, below := i * 2 + 1, bucket + 1;
      var right := left + 1;
      ghost var g := SplitFacts(heap, i, bucket, left, right, below, want, goal, keep);
      FlipAbove(heap, g, left);
      PushNode(heap.bottom, heap.lists, g, below, right, keep);
      heap := g;
    }

    /** The splitting loop of myMalloc: the node of the popped bucket is split down to bucket want. */
    method SplitLoop(node: nat, popped: nat, want: nat, ghost keep: set<nat>) returns (i: nat)
      requires Consistent() && Held(heap, node, popped) && popped <= want <= levels
      requires keep <= LiveNodes(heap) && node !in keep
      modifies this`heap, prev, next, bits
      ensures Consistent() && (heap, i) == SplitDown(old(heap), node, popped, want)
      ensures SameOn(old(prev[..]), old(next[..]), prev[..], next[..], levels, keep)
    {
      ghost var goal, p, n := SplitDown(heap, node, popped, want), prev[..], next[..];
      i := node;
      var bucket := popped;
      while bucket < want
        invariant popped <= bucket <= want && Consistent()
        invariant SplitsTo(heap, i, bucket, want, goal)
        invariant keep <= LiveNodes(heap) && i !in keep
        invariant SameOn(p, n, prev[..], next[..], levels, keep)
        decreases want - bucket
      {
        ghost var q, m := prev[..], next[..];
        i, bucket := SplitStep(i, bucket, want, goal, keep);
        SameOnStep(p, n, q, m, prev[..], next[..], levels, keep);
      }
    }

    /** The block popped from the bucket is put back: the address limit refuses it. */
    method PutBack(i: nat, bucket: nat, ghost h: Heap, ghost keep: set<nat>)
      requires Inv(h) && bucket <= levels && h.levels == levels && h.lists[bucket] != []
      requires Linked() && heap == Take(h, bucket) && BitsAre(bits[..], h) && keep <= LiveNodes(h)
      requires h.bottom <= bucket && i == Last(h.lists[bucket])
      modifies this`heap, prev, next
      ensures Consistent() && heap == h
      ensures SameOn(old(prev[..]), old(next[..]), prev[..], next[..], levels, keep)
    {
      ReleaseUndoesTake(h, bucket);
      PushNode(heap.bottom, heap.lists, h, bucket, i, keep);
      heap := h;
    }

    /** The bit above the popped block follows it from free to used. */
    method MarkUsed(i: nat, bucket: nat, ghost h: Heap)
      requires Inv(h) && bucket <= levels && h.levels == levels && h.lists[bucket] != []
      requires Linked() && heap == Take(h, bucket) && BitsAre(bits[..], h)
      requires i == Last(h.lists[bucket])
      modifies bits
      ensures Consistent()
    {
      TakeFlips(h, bucket);
      if i != 0 {
        assert ListOk(h, bucket) && i in h.lists[bucket];
        ParentBit(h, i, bucket);
        FlipAbove(h, heap, i);
      }
    }

    /** The end of myMalloc: the block at ptr was popped off the list of the bucket. */
    method FinishBlock(ptr: nat, bucket: nat, want: nat, ghost h: Heap, ghost keep: set<nat>) returns (r: Option<nat>)
      requires Inv(h) && bucket <= want <= levels && h.levels == levels && h.lists[bucket] != []
      requires Linked() && heap == Take(h, bucket) && BitsAre(bits[..], h) && keep <= LiveNodes(h)
      requires h.bottom <= bucket && AtLevel(Last(h.lists[bucket]), bucket)
      requires ptr == SlotOf(levels, Last(h.lists[bucket]), bucket)
      modifies this`heap, prev, next, bits
      ensures Consistent() && heap == Carve(h, bucket, want).0
      ensures match Carve(h, bucket, want).1
              case None => r == None
              case Some(n) => AtLevel(n, want) && r == Some(SlotOf(levels, n, want))
      ensures SameOn(old(prev[..]), old(next[..]), prev[..], next[..], levels, keep)
    {
      var size := MIN_ALLOC * Span(levels, bucket);
      var bytesNeeded := if bucket < want then size / 2 + LINK_SIZE else size;
      var i := NodeAt(levels, ptr, bucket);
      NodeOfSlot(levels, Last(h.lists[bucket]), bucket, ptr);
      TakeKeeps(h, bucket);
      var reachable := UpdateMaxPtr(base + MIN_ALLOC * ptr + bytesNeeded);
      if !reachable {
        PutBack(i, bucket, h, keep);
        return None;
      }
      MarkUsed(i, bucket, h);
      i := SplitLoop(i, bucket, want, keep);
      return Some(ptr);
    }

    /** The search loop of myMalloc. */
    method FindBlock(want: nat, ghost keep: set<nat>) returns (r: Option<nat>)
      requires Consistent() && want <= levels && keep <= LiveNodes(heap)
      modifies this`heap, this`bucketLimit, prev, next, bits
      ensures Consistent() && heap == MallocFrom(old(heap), want, want).0
      ensures match MallocFrom(old(heap), want, want).1
              case None => r == None
              case Some(n) => AtLevel(n, want) && r == Some(SlotOf(levels, n, want))
      ensures SameOn(old(prev[..]), old(next[..]), prev[..], next[..], levels, keep)
    {
      ghost var goal, p, n := MallocFrom(heap, want, want), prev[..], next[..];
      var bucket: int := want;
      while bucket + 1 != 0
        invariant -1 <= bucket <= want && Consistent() && keep <= LiveNodes(heap)
        invariant bucket >= 0 ==> SearchesTo(heap, want, bucket, goal)
        invariant bucket == -1 ==> goal == (heap, None)
        invariant SameOn(p, n, prev[..], next[..], levels, keep)
        decreases bucket + 1
      {
        ghost var q, m := prev[..], next[..];
        var done;
        done, bucket, r := TryBucket(bucket, want, goal, keep);
        SameOnStep(p, n, q, m, prev[..], next[..], levels, keep);
        if done {
          return;
        }
      }
      return None;
    }

    /** One round of the search loop of myMalloc. */
    method TryBucket(bucket: nat, want: nat, ghost goal: (Heap, Option<nat>), ghost keep: set<nat>)
      returns (done: bool, below: int, r: Option<nat>)
      requires Consistent() && SearchesTo(heap, want, bucket, goal) && keep <= LiveNodes(heap)
      modifies this`heap, this`bucketLimit, prev, next, bits
      ensures Consistent() && keep <= LiveNodes(heap) && below == bucket - 1
      ensures SameOn(old(prev[..]), old(next[..]), prev[..], next[..], levels, keep)
      ensures done ==> heap == goal.0
                       && match goal.1
                          case None => r == None
                          case Some(n) => AtLevel(n, want) && r == Some(SlotOf(levels, n, want))
      ensures !done && below >= 0 ==> SearchesTo(heap, want, below, goal)
      ensures !done && below == -1 ==> goal == (heap, None)
    {
      done, below, r := true, bucket - 1, None;
      SearchRound(heap, want, bucket, below, goal);
      var grown := LowerBucketLimit(bucket, keep);
      if !grown {
        return;
      }
      ghost var h := heap;
      var ptr := PopNode(bucket, keep);
      if ptr == None {
        if bucket != bucketLimit || bucket == 0 {
          done := false;
          return;
        }
        grown := LowerBucketLimit(below, keep);
        if !grown {
          return;
        }
        h := heap;
        ptr := PopNode(bucket, keep);
      }
      r := FinishBlock(ptr.value, bucket, want, h, keep);
      CarveKeeps(h, bucket, want, keep);
    }

    static lemma CarveKeeps(h: Heap, k: nat, want: nat, keep: set<nat>)
      requires Inv(h) && k <= want <= h.levels && h.lists[k] != [] && keep <= LiveNodes(h)
      ensures keep <= LiveNodes(Carve(h, k, want).0)
    {
    }

    /** The first call puts the one block of the initial tree on its list. */
    method FirstInit()
      requires Valid() && !firstCall
      modifies this`firstCall, this`bucketLimit, prev, next
      ensures Valid() && firstCall && Consistent() && LiveNodes(heap) == {}
    {
      firstCall := true;
      bucketLimit := levels;
      ghost var none := seq(levels + 1, k => []);
      ghost var p, n := prev[..], next[..];
      RingsAfterInit(p, n, levels, levels + 1, none);
      ListInit(Head(levels, levels));
      RootLevel(heap, levels);
      assert none[levels := []] == none;
      assert none[levels] + [Leftmost(levels)] == [Leftmost(levels)];
      assert heap.lists == none[levels := [Leftmost(levels)]];
      PushNode(levels, none, heap, levels, Leftmost(levels), {});
    }

    /** The last step of myMalloc: the block found for the request gets its header. */
    method WriteHeader(a: nat, request: nat, ghost st: State, ghost st': State, ghost i: nat)
      requires firstCall && Consistent() && BuddyState.Valid(st) && BuddyState.Valid(st')
      requires st.heap.levels == levels && request + HEADER_SIZE <= ArenaBytes(levels)
      requires st'.heap == heap && st'.live == st.live[a := request] && a !in st.live
      requires Held(heap, i, BucketOf(st.heap, request)) && a == SlotOf(levels, i, BucketOf(st.heap, request))
      requires i !in LiveNodes(st.heap) && LiveNodes(st.heap) <= LiveNodes(heap)
      requires HeadersAre(prev[..], st.live)
      modifies this`live, prev
      ensures Valid() && Abs() == st'
      ensures SameOn(old(prev[..]), next[..], prev[..], next[..], levels, LiveNodes(st.heap))
    {
      ghost var q, keep := prev[..], LiveNodes(st.heap);
      HeaderFacts(q, next[..], heap, i, BucketOf(st.heap, request), a, request, keep);
      prev[a] := request;
      live := st'.live;
      assert prev[..] == q[a := request];
      HeadersKept(st, q, next[..], prev[..], next[..], st.live, keep);
    }

    /** The search and the header, once the request is known to fit the arena. */
    method GrantBlock(request: nat, bucket: nat, ghost st: State) returns (r: Option<nat>)
      requires Valid() && firstCall && st == Abs()
      requires request + HEADER_SIZE <= ArenaBytes(levels) && bucket == BucketOf(st.heap, request)
      modifies this`bucketLimit, this`heap, this`live, prev, next, bits
      ensures Valid() && (Abs(), r) == Malloc(st, request)
      ensures SameOn(old(prev[..]), old(next[..]), prev[..], next[..], levels, LiveNodes(st.heap))
    {
      ghost var keep, p, n := LiveNodes(heap), prev[..], next[..];
      ghost var st', granted, i := GrantFacts(st, request);
      r := FindBlock(bucket, keep);
      HeadersKept(st, p, n, prev[..], next[..], st.live, keep);
      if r != None {
        ghost var q, m := prev[..], next[..];
        WriteHeader(r.value, request, st, st', i);
        SameOnStep(p, n, q, m, prev[..], next[..], levels, keep);
      }
    }

    /** The test for the first call: the state stays what it is. */
    method EnsureInit()
      requires Valid()
      modifies this`firstCall, this`bucketLimit, prev, next
      ensures Valid() && firstCall
      ensures SameOn(old(prev[..]), old(next[..]), prev[..], next[..], levels, LiveNodes(heap))
    {
      if !firstCall {
        FirstInit();
      }
    }

    method MyMalloc(request: nat) returns (ptr: Option<nat>)
      requires Valid()
      modifies this`firstCall, this`bucketLimit, this`heap, this`live, prev, next, bits
      ensures Valid() && Abs() == Malloc(old(Abs()), request).0
      ensures ptr.Some? <==> Malloc(old(Abs()), request).1.Some?
      ensures match Malloc(old(Abs()), request).1
              case None => true
              case Some(a) =>
                && a in live && prev[a] == request && ptr.value - 8 == base + 4096 * a
                && ptr.value + request <= base + 4096 * (a + BlockSpan(Abs(), a))
      ensures SameOn(old(prev[..]), old(next[..]), prev[..], next[..], levels, LiveNodes(old(heap)))
    {
      if request + HEADER_SIZE > ArenaBytes(levels) {
        return None;
      }
      ghost var keep, p, n := LiveNodes(heap), prev[..], next[..];
      EnsureInit();
      ghost var q, m := prev[..], next[..];
      var bucket := BucketForRequest(request + HEADER_SIZE);
      var r := GrantBlock(request, bucket, Abs());
      SameOnStep(p, n, q, m, prev[..], next[..], levels, keep);
      if r == None {
        return None;
      }
      RequestInBlock(Abs(), base, r.value);
      return Some(base + MIN_ALLOC * r.value + HEADER_SIZE);
    }

    // ---------------------------------------------------------------- free

    /** One round of the merging loop: leave the buddy's list and move to the parent. */
    method MergeStep(i: nat, bucket: nat, ghost bytes: seq<bv8>, ghost goal: Heap, ghost keep: set<nat>)
      returns (parent: nat, above: nat)
      requires Linked() && FreesTo(heap, i, bucket, goal) && BuddyFree(heap, i, bucket) && BitsAre(bytes, heap)
      requires Parent(i) / 8 < |bytes|
      requires bits[..] == bytes[Parent(i) / 8 := Toggle(bytes[Parent(i) / 8], Shift(Parent(i)))]
      requires keep <= LiveNodes(heap) && i !in keep
      modifies this`heap, prev, next
      ensures Consistent() && above == bucket - 1 && FreesTo(heap, parent, above, goal)
      ensures keep <= LiveNodes(heap) && parent !in keep
      ensures SameOn(old(prev[..]), old(next[..]), prev[..], next[..], levels, keep)
    {
      var buddy := Sibling(i);
      parent, above := (i - 1) / 2, bucket - 1;
      ghost var g := MergeFacts(bytes, heap, i, bucket, goal, buddy, above, parent, keep);
      RemoveNode(heap, bucket, buddy, keep);
      heap := g;
    }

    /** One round of the merging loop, with its exit. */
    method MergeRound(i: nat, bucket: nat, ghost goal: Heap, ghost keep: set<nat>)
      returns (done: bool, parent: nat, above: nat)
      requires Consistent() && FreesTo(heap, i, bucket, goal) && i != 0 && keep <= LiveNodes(heap) && i !in keep
      modifies this`heap, prev, next, bits
      ensures done ==> Linked() && heap == old(heap) && parent == i && above == bucket && ReadyToRelease(i, bucket, goal)
      ensures !done ==> Consistent() && above == bucket - 1 && FreesTo(heap, parent, above, goal)
      ensures keep <= LiveNodes(heap) && parent !in keep
      ensures SameOn(old(prev[..]), old(next[..]), prev[..], next[..], levels, keep)
    {
      ghost var bytes := bits[..];
      FlagAfterFlip(bytes, heap, i, bucket);
      FlipParentIsSplit(i);
      var split := ParentIsSplit(i);
      if split || bucket == bucketLimit {
        ReleaseFacts(bytes, heap, i, bucket, goal);
        return true, i, bucket;
      }
      done := false;
      parent, above := MergeStep(i, bucket, bytes, goal, keep);
    }

    /** Putting node i on the list of its bucket completes the free. */
    ghost predicate ReadyToRelease(i: nat, bucket: nat, goal: Heap)
      reads this, bits
    {
      && Held(heap, i, bucket) && Inv(goal) && goal == Release(heap, i, bucket) && bucket >= heap.bottom
      && BitsAre(bits[..], goal)
    }

    /** The merging loop of myFree and the push that ends it. */
    method FreeLoop(node: nat, lowest: nat, ghost keep: set<nat>)
      requires Consistent() && Held(heap, node, lowest) && keep <= LiveNodes(heap) && node !in keep
      modifies this`heap, prev, next, bits
      ensures Consistent() && heap == FreeUp(old(heap), node, lowest)
      ensures SameOn(old(prev[..]), old(next[..]), prev[..], next[..], levels, keep)
    {
      ghost var goal, p, n := FreeUp(heap, node, lowest), prev[..], next[..];
      var i, bucket, done := node, lowest, false;
      while i != 0 && !done
        invariant Linked() && keep <= LiveNodes(heap) && i !in keep
        invariant !done ==> Consistent() && FreesTo(heap, i, bucket, goal)
        invariant done ==> ReadyToRelease(i, bucket, goal)
        invariant SameOn(p, n, prev[..], next[..], levels, keep)
        decreases !done, bucket
      {
        ghost var q, m := prev[..], next[..];
        done, i, bucket := MergeRound(i, bucket, goal, keep);
        SameOnStep(p, n, q, m, prev[..], next[..], levels, keep);
      }
      if !done {
        RootNotMergeable(heap, i, bucket);
        ReleaseFacts(bits[..], heap, i, bucket, goal);
      }
      ghost var q, m := prev[..], next[..];
      PushNode(heap.bottom, heap.lists, goal, bucket, i, keep);
      heap := goal;
      SameOnStep(p, n, q, m, prev[..], next[..], levels, keep);
    }

    /** The merging loop on the block at slot a, which thereby stops being live. */
    method FreeNode(i: nat, bucket: nat, ghost a: nat, ghost st: State)
      requires Valid() && firstCall && st == Abs() && a in live
      requires i == BlockNode(st, a) && bucket == BlockBucket(st, a)
      modifies this`heap, this`live, prev, next, bits
      ensures Valid() && Abs() == FreeBlock(st, a)
      ensures SameOn(old(prev[..]), old(next[..]), prev[..], next[..], levels, LiveNodes(st.heap) - {i})
    {
      hide NodeOk;
      hide ListOk;
      hide EntryOk;
      hide Recorded;
      hide Rings;
      hide BitsAre;
      hide FreeUp;
      hide SameOn;
      ghost var keep, p, n := LiveNodes(heap) - {i}, prev[..], next[..];
      FreeFacts(st, a);
      FreeLoop(i, bucket, keep);
      live := live - {a};
      HeadersKept(st, p, n, prev[..], next[..], live, keep);
    }

    /** myFree of the block at slot a, found through its header. */
    method MyFree(ptr: Option<nat>, ghost a: nat)
      requires Valid()
      requires ptr.Some? ==> a in live && ptr.value == base + 4096 * a + 8
      modifies this`heap, this`live, prev, next, bits
      ensures Valid()
      ensures ptr == None ==> Abs() == old(Abs()) && prev[..] == old(prev[..]) && next[..] == old(next[..])
      ensures ptr != None ==> Abs() == FreeBlock(old(Abs()), a)
      ensures ptr != None ==>
                SameOn(old(prev[..]), old(next[..]), prev[..], next[..], levels,
                       LiveNodes(old(heap)) - {BlockNode(old(Abs()), a)})
    {
      if ptr == None {
        return;
      }
      hide NodeOk;
      hide ListOk;
      hide Recorded;
      hide Rings;
      hide BitsAre;
      hide FreeUp;
      hide SameOn;
      SlotOfAddress(base, a);
      var slot := (ptr.value - HEADER_SIZE - base) / MIN_ALLOC;
      assert slot == a && EntryOk(heap, a, live[a]);
      var bucket := BucketForRequest(prev[slot] + HEADER_SIZE);
      var i := NodeAt(levels, slot, bucket);
      FreeNode(i, bucket, a, Abs());
    }

    /** A client may store into any word of a live block but its header. */
    method ClientStore(ghost a: nat, cell: nat, first: nat, second: nat)
      requires Valid() && a in live && a <= cell < a + BlockSpan(Abs(), a)
      requires cell < prev.Length && (cell == a ==> first == live[a])
      modifies prev, next
      ensures Valid() && Abs() == old(Abs()) && prev[cell] == first && next[cell] == second
    {
      ghost var p, n, st := prev[..], next[..], Abs();
      StoreFacts(st, a, cell);
      prev[cell] := first;
      next[cell] := second;
      RingsAfterWrite(p, n, prev[..], next[..], heap, cell);
    }
  }
}
