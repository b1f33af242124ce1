/**
 * A run after which malloc refuses small requests and serves a larger one: an
 * arena of eight slots whose last slot lies beyond the address limit.
 */
module BuddyExample {
  import opened Wrappers
  import opened BuddyIndex
  import opened BuddyHeap
  import opened BuddyBits
  import opened BuddyAlloc
  import opened BuddyCover
  import opened BuddyState
  import opened BuddyTheorems
  import opened BuddyFailure

  const BASE: nat := 4096

  lemma Powers()
    ensures Pow2(0) == 1 && Pow2(1) == 2 && Pow2(2) == 4 && Pow2(3) == 8
    ensures Span(3, 0) == 8 && Span(3, 1) == 4 && Span(3, 2) == 2 && Span(3, 3) == 1
    ensures ArenaBytes(3) == 32768
  {
    assert Pow2(2) == 2 * Pow2(1);
    assert Pow2(3) == 2 * Pow2(2);
  }

  /** Buckets of the requests below. */
  lemma Buckets()
    ensures BucketFor(3, 16384) == 1 && BucketFor(3, 8192) == 2 && BucketFor(3, 4096) == 3
  {
    Powers();
    BucketForTight(3, 16384, 1);
    BucketForTight(3, 8192, 2);
    BucketForTight(3, 4096, 3);
  }

  /** Slots 0 to 3 are live. */
  function First(): Heap {
    Heap(3, BASE, 1,
         [Absent, Live, Absent, Absent, Absent, Absent, Absent, Absent,
          Absent, Absent, Absent, Absent, Absent, Absent, Absent],
         [[], [], [], []])
  }

  /** Slots 4 and 5 are live as well, and 6 and 7 are a free block. */
  function Second(): Heap {
    Heap(3, BASE, 0,
         [Inner, Live, Inner, Absent, Absent, Live, Free, Absent,
          Absent, Absent, Absent, Absent, Absent, Absent, Absent],
         [[], [], [6], []])
  }

  /** Slots 0 to 3 are free again. */
  function Third(): Heap {
    Heap(3, BASE, 0,
         [Inner, Free, Inner, Absent, Absent, Live, Free, Absent,
          Absent, Absent, Absent, Absent, Absent, Absent, Absent],
         [[], [1], [6], []])
  }

  lemma FirstStep()
    ensures Valid(Initial(3, BASE)) && Malloc(Initial(3, BASE), 16376) == (State(First(), map[0 := 16376]), Some(0))
  {
    Powers();
    Buckets();
    InitialValid(3, BASE);
    var h := Initial(3, BASE).heap;
    GrowUnusedKeeps(h);
    var g := GrowUnused(h);
    GrowUnusedKeeps(g);
    var f := GrowUnused(g);
    assert GrowTo(h, 1) == GrowTo(g, 1) == GrowTo(f, 1) == (f, true);
    RootListAlone(f);
    assert f.lists[1] == [1];
    assert MallocFrom(h, 1, 1) == Carve(f, 1, 1);
    assert SlotOf(3, 1, 1) == 0;
    assert Take(f, 1).nodes == First().nodes;
    assert Take(f, 1).lists == First().lists;
    assert Carve(f, 1, 1) == (First(), Some(1));
  }

  /** The state after the first malloc. */
  function One(): State {
    State(First(), map[0 := 16376])
  }

  /** The state after the second malloc. */
  function Two(): State {
    State(Second(), map[0 := 16376, 4 := 8184])
  }

  /** The state after the free. */
  function Three(): State {
    State(Third(), map[4 := 8184])
  }

  /** The tree of the first state after it has grown by one level. */
  function Grown(): Heap {
    Heap(3, BASE, 0,
         [Inner, Live, Free, Absent, Absent, Absent, Absent, Absent,
          Absent, Absent, Absent, Absent, Absent, Absent, Absent],
         [[], [2], [], []])
  }

  lemma HasTree(h: Heap)
    requires Inv(h)
    ensures Tree(h)
  {
  }

  lemma GrowthStep()
    requires Inv(First())
    ensures Inv(Grown()) && GrowTo(First(), 0) == (Grown(), true)
  {
    hide Inv;
    Powers();
    var h := First();
    var none: seq<nat> := [];
    assert Root(h) == 1;
    assert none + [2] == [2];
    assert GrowUsed(h).nodes == Grown().nodes;
    assert GrowUsed(h).lists == Grown().lists;
    HasTree(h);
    NewRoot(h);
    GrowUsedKeeps(h);
    ReachOfGrowth(h);
    assert AddressOk(h, GrowthReach(h));
    assert GrowTo(h, 0) == GrowTo(Grown(), 0);
  }

  /** The search finds the new half, since there is no block of bucket 2. */
  lemma SearchStep()
    requires Inv(First())
    ensures Inv(Grown()) && MallocFrom(First(), 2, 2) == Carve(Grown(), 1, 2)
  {
    hide Inv;
    Powers();
    GrowthStep();
    assert MallocFrom(First(), 2, 2) == MallocFrom(First(), 2, 1);
  }

  /** Its right half is freed and its left half handed out. */
  lemma CarveStep()
    requires Inv(Grown())
    ensures Carve(Grown(), 1, 2) == (Second(), Some(5))
  {
    hide Inv;
    Powers();
    var g := Grown();
    var none: seq<nat> := [];
    assert ButLast([2]) == none && none + [6] == [6];
    TakeKeeps(g, 1);
    var t := Take(g, 1);
    assert t.nodes[2] == Live && t.lists == [[], [], [], []];
    HasTree(t);
    SplitKeeps(t, 2, 1);
    var f := Split(t, 2, 1);
    assert f.nodes == Second().nodes;
    assert f.lists == Second().lists;
    assert SplitDown(t, 2, 1, 2) == SplitDown(f, 5, 2, 2) == (f, 5);
    assert SlotOf(3, 2, 1) == 1 * 4;
  }

  lemma SecondStep()
    requires Valid(One())
    ensures Malloc(One(), 8184) == (Two(), Some(4))
  {
    hide Inv;
    Powers();
    Buckets();
    HasInv(One());
    SearchStep();
    CarveStep();
    assert MallocNode(First(), 8184) == (Second(), Some(5));
    assert SlotOf(3, 5, 2) == 2 * 2;
    assert map[0 := 16376][4 := 8184] == map[0 := 16376, 4 := 8184];
  }

  lemma HasInv(st: State)
    requires Valid(st)
    ensures Inv(st.heap)
  {
  }

  lemma ReleaseStep()
    requires Held(Second(), 1, 1)
    ensures FreeUp(Second(), 1, 1) == Third()
  {
    hide Inv;
    Powers();
    var h := Second();
    var none: seq<nat> := [];
    assert Sibling(1) == 2 && none + [1] == [1];
    assert Release(h, 1, 1).nodes == Third().nodes;
    assert Release(h, 1, 1).lists == Third().lists;
  }

  lemma BlockAt(st: State, a: nat, i: nat, k: nat)
    requires Valid(st) && a in st.live && k <= st.heap.levels && AtLevel(i, k) && SlotOf(st.heap.levels, i, k) == a
    requires st.live[a] + HEADER_SIZE <= ArenaBytes(st.heap.levels)
    requires BucketFor(st.heap.levels, st.live[a] + HEADER_SIZE) == k
    ensures BlockBucket(st, a) == k && BlockNode(st, a) == i
  {
    NodeOfSlot(st.heap.levels, i, k, a);
  }

  lemma ThirdStep()
    requires Valid(Two())
    ensures FreeBlock(Two(), 0) == Three()
  {
    hide Valid;
    hide Inv;
    hide FreeUp;
    hide BlockBucket;
    hide BlockNode;
    Powers();
    Buckets();
    assert SlotOf(3, 1, 1) == 0;
    BlockAt(Two(), 0, 1, 1);
    ReleaseStep();
    assert map[0 := 16376, 4 := 8184] - {0} == map[4 := 8184];
  }

  /** The run: two mallocs and a free lead to the last state. */
  lemma RunToThree()
    ensures Valid(Initial(3, BASE)) && Valid(Three())
    ensures Runs(Initial(3, BASE), [MallocOp(16376), MallocOp(8184), FreeOp(0)], Three())
  {
    hide Valid;
    hide Malloc;
    hide FreeBlock;
    FirstStep();
    MallocValid(Initial(3, BASE), 16376);
    SecondStep();
    MallocValid(One(), 8184);
    ThirdStep();
    FreeValid(Two(), 0);
    var ops := [MallocOp(16376), MallocOp(8184), FreeOp(0)];
    assert ops[1..] == [MallocOp(8184), FreeOp(0)] && ops[1..][1..] == [FreeOp(0)] && [FreeOp(0)][1..] == [];
    assert Runs(Three(), [], Three());
    assert Runs(Two(), [FreeOp(0)], Three());
    assert Runs(One(), ops[1..], Three());
  }

  /** The only free block of bucket 2 is out of reach. */
  lemma SmallRefused()
    requires Valid(Three())
    ensures Malloc(Three(), 8184) == (Three(), None)
    ensures Malloc(Three(), 4088) == (Three(), None)
  {
    hide Inv;
    hide Malloc;
    Powers();
    Buckets();
    HasInv(Three());
    assert SlotOf(3, 6, 2) == 3 * 2;
    UnreachableBlockBlocks(Three(), 2, 8184);
    UnreachableBlockBlocks(Three(), 2, 4088);
  }

  lemma LargeServed()
    requires Valid(Three())
    ensures Malloc(Three(), 16376).1 == Some(0)
  {
    hide Inv;
    hide MallocFrom;
    Powers();
    Buckets();
    HasInv(Three());
    SearchServed(Third(), 1, 1, 1);
    TakeKeeps(Third(), 1);
    assert SlotOf(3, 1, 1) == 0;
    assert Carve(Third(), 1, 1) == (Take(Third(), 1), Some(1));
  }

  /**
   * After this run malloc refuses 8184 bytes and 4088 bytes, again and again, although slots 0 to 3
   * are a free block below the limit, which serves 16376 bytes: the block of slots 6 and 7 comes first.
   */
  lemma SmallRefusedLargeServed()
    ensures Valid(Initial(3, BASE)) && Valid(Three())
    ensures Runs(Initial(3, BASE), [MallocOp(16376), MallocOp(8184), FreeOp(0)], Three())
    ensures Malloc(Three(), 8184) == (Three(), None)
    ensures Malloc(Three(), 4088) == (Three(), None)
    ensures Malloc(Three(), 16376).1 == Some(0)
  {
    hide Valid;
    RunToThree();
    SmallRefused();
    LargeServed();
  }
}
