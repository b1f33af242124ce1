/**
 * The allocator as a client sees it: a heap and the live blocks, each given by
 * its first slot and the request it was handed out for.  Runs are sequences of
 * malloc and free.
 */
module BuddyState {
  import opened Wrappers
  import opened BuddyIndex
  import opened BuddyHeap
  import opened BuddyAlloc
  import opened BuddyCover

  datatype State = State(heap: Heap, live: map<nat, nat>)

  /** Bucket of a block handed out for the request. */
  ghost function BucketOf(h: Heap, request: nat): (k: nat)
    requires request + HEADER_SIZE <= ArenaBytes(h.levels)
    ensures k <= h.levels
  {
    BucketFor(h.levels, request + HEADER_SIZE)
  }

  /** The node of the live block at slot a is the one that its request leads to. */
  ghost predicate EntryOk(h: Heap, a: nat, request: nat)
    requires Shape(h)
  {
    && request + HEADER_SIZE <= ArenaBytes(h.levels)
    && var k := BucketOf(h, request);
       var i := NodeAt(h.levels, a, k);
       AtLevel(i, k) && SlotOf(h.levels, i, k) == a && i in LiveNodes(h)
  }

  /** Node i of bucket k is recorded in the table of live blocks, under its own bucket. */
  ghost predicate Recorded(st: State, i: nat, k: nat)
    requires k <= st.heap.levels && AtLevel(i, k)
  {
    var a := SlotOf(st.heap.levels, i, k);
    && a in st.live
    && st.live[a] + HEADER_SIZE <= ArenaBytes(st.heap.levels)
    && BucketOf(st.heap, st.live[a]) == k
  }

  ghost predicate Valid(st: State) {
    && Inv(st.heap)
    && (forall a | a in st.live :: EntryOk(st.heap, a, st.live[a]))
    && (forall i, k: nat | k <= st.heap.levels && AtLevel(i, k) && i in LiveNodes(st.heap) :: Recorded(st, i, k))
  }

  ghost function BlockBucket(st: State, a: nat): (k: nat)
    requires Valid(st) && a in st.live
    ensures k <= st.heap.levels
  {
    assert EntryOk(st.heap, a, st.live[a]);
    BucketOf(st.heap, st.live[a])
  }

  ghost function BlockNode(st: State, a: nat): (i: nat)
    requires Valid(st) && a in st.live
    ensures Held(st.heap, i, BlockBucket(st, a))
    ensures SlotOf(st.heap.levels, i, BlockBucket(st, a)) == a
  {
    assert EntryOk(st.heap, a, st.live[a]);
    NodeAt(st.heap.levels, a, BlockBucket(st, a))
  }

  /** Number of slots of the live block at a. */
  ghost function BlockSpan(st: State, a: nat): nat
    requires Valid(st) && a in st.live
  {
    Span(st.heap.levels, BlockBucket(st, a))
  }

  // ---------------------------------------------------------------- operations

  ghost function Malloc(st: State, request: nat): (State, Option<nat>)
    requires Valid(st)
  {
    match MallocNode(st.heap, request)
    case (g, None) => (State(g, st.live), None)
    case (g, Some(i)) =>
      var a := SlotOf(g.levels, i, BucketOf(g, request));
      (State(g, st.live[a := request]), Some(a))
  }

  ghost function FreeBlock(st: State, a: nat): State
    requires Valid(st) && a in st.live
  {
    State(FreeUp(st.heap, BlockNode(st, a), BlockBucket(st, a)), st.live - {a})
  }

  datatype Op = MallocOp(request: nat) | FreeOp(a: nat)

  /** A free must name a live block. */
  ghost predicate Enabled(st: State, op: Op) {
    op.FreeOp? ==> op.a in st.live
  }

  ghost function Apply(st: State, op: Op): State
    requires Valid(st) && Enabled(st, op)
  {
    match op
    case MallocOp(request) => Malloc(st, request).0
    case FreeOp(a) => FreeBlock(st, a)
  }

  /** The allocator before its first call: one free block of the last bucket. */
  ghost function Initial(levels: nat, base: nat): State {
    State(Heap(levels, base, levels,
               seq(2 * Pow2(levels) - 1, i => if i == Leftmost(levels) then Free else Absent),
               seq(levels + 1, k => if k == levels then [Leftmost(levels)] else [])),
          map[])
  }

  // ---------------------------------------------------------------- validity

  lemma InitialValid(levels: nat, base: nat)
    ensures Valid(Initial(levels, base))
  {
    var h := Initial(levels, base).heap;
    forall i: nat | i < |h.nodes| ensures NodeOk(h, i) {
    }
    forall k: nat | k <= levels ensures ListOk(h, k) {
      if AtLevel(Leftmost(levels), k) {
        LevelUnique(Leftmost(levels), levels, k);
      }
    }
  }

  /** A live node of the heap lies in no recorded block but its own. */
  lemma LiveElsewhere(st: State, g: Heap, i: nat, k: nat)
    requires Valid(st) && Held(g, i, k) && SameArena(st.heap, g) && i !in LiveNodes(st.heap)
    requires LiveNodes(g) == LiveNodes(st.heap) + {i}
    ensures SlotOf(g.levels, i, k) !in st.live
  {
    var a := SlotOf(g.levels, i, k);
    if a in st.live {
      SameStart(g, i, k, BlockNode(st, a), BlockBucket(st, a));
    }
  }

  /** Handing out node i of the request's bucket keeps the table of live blocks exact. */
  lemma GrantValid(st: State, g: Heap, i: nat, request: nat)
    requires Valid(st) && SameArena(st.heap, g) && request + HEADER_SIZE <= ArenaBytes(g.levels)
    requires Held(g, i, BucketOf(g, request)) && i !in LiveNodes(st.heap)
    requires LiveNodes(g) == LiveNodes(st.heap) + {i}
    ensures Valid(State(g, st.live[SlotOf(g.levels, i, BucketOf(g, request)) := request]))
  {
    var k := BucketOf(g, request);
    var a := SlotOf(g.levels, i, k);
    var st' := State(g, st.live[a := request]);
    LiveElsewhere(st, g, i, k);
    NodeOfSlot(g.levels, i, k, a);
    forall b | b in st'.live ensures EntryOk(g, b, st'.live[b]) {
      if b != a {
        assert EntryOk(st.heap, b, st.live[b]);
      }
    }
    forall j, m: nat | m <= g.levels && AtLevel(j, m) && j in LiveNodes(g) ensures Recorded(st', j, m) {
      if j == i {
        LevelUnique(i, k, m);
      } else {
        assert Recorded(st, j, m);
      }
    }
  }

  /** Changing only free blocks keeps the table of live blocks exact. */
  lemma SameLiveValid(st: State, g: Heap)
    requires Valid(st) && SameArena(st.heap, g) && Inv(g) && LiveNodes(g) == LiveNodes(st.heap)
    ensures Valid(State(g, st.live))
  {
    forall b | b in st.live ensures EntryOk(g, b, st.live[b]) {
      assert EntryOk(st.heap, b, st.live[b]);
    }
    forall j, m: nat | m <= g.levels && AtLevel(j, m) && j in LiveNodes(g)
      ensures Recorded(State(g, st.live), j, m)
    {
      assert Recorded(st, j, m);
    }
  }

  lemma MallocValid(st: State, request: nat)
    requires Valid(st)
    ensures Valid(Malloc(st, request).0)
    ensures Malloc(st, request).1.Some? ==> Malloc(st, request).1.value !in st.live
  {
    var (g, n) := MallocNode(st.heap, request);
    match n {
      case Some(i) =>
        LiveElsewhere(st, g, i, BucketOf(g, request));
        GrantValid(st, g, i, request);
      case None =>
        SameLiveValid(st, g);
    }
  }

  lemma FreeValid(st: State, a: nat)
    requires Valid(st) && a in st.live
    ensures Valid(FreeBlock(st, a))
  {
    var i, k, st' := BlockNode(st, a), BlockBucket(st, a), FreeBlock(st, a);
    var g := st'.heap;
    forall b | b in st'.live ensures EntryOk(g, b, st'.live[b]) {
      assert EntryOk(st.heap, b, st.live[b]);
      if BlockNode(st, b) == i {
        LevelUnique(i, k, BlockBucket(st, b));
      }
    }
    forall j, m: nat | m <= g.levels && AtLevel(j, m) && j in LiveNodes(g) ensures Recorded(st', j, m) {
      assert Recorded(st, j, m);
      if SlotOf(g.levels, j, m) == a {
        SameStart(st.heap, i, k, j, m);
      }
    }
  }

  /** Every call leads from a valid state to a valid one. */
  lemma StepValid(st: State, op: Op)
    requires Valid(st) && Enabled(st, op)
    ensures Valid(Apply(st, op))
    ensures SameArena(st.heap, Apply(st, op).heap) && Apply(st, op).heap.bottom <= st.heap.bottom
  {
    match op {
      case MallocOp(request) => MallocValid(st, request);
      case FreeOp(a) => FreeValid(st, a);
    }
  }

  /** st' is reached from st by the operations; StepValid makes sure that each of them has a result. */
  ghost predicate Runs(st: State, ops: seq<Op>, st': State)
    requires Valid(st)
    decreases |ops|
  {
    if ops == [] then
      st' == st
    else
      Enabled(st, ops[0]) && (StepValid(st, ops[0]); Runs(Apply(st, ops[0]), ops[1..], st'))
  }

  /** Every run of malloc and free stays valid. */
  lemma {:induction false} RunsValid(st: State, ops: seq<Op>, st': State)
    requires Valid(st) && Runs(st, ops, st')
    ensures Valid(st') && SameArena(st.heap, st'.heap) && st'.heap.bottom <= st.heap.bottom
    decreases |ops|
  {
    if ops != [] {
      StepValid(st, ops[0]);
      RunsValid(Apply(st, ops[0]), ops[1..], st');
    }
  }

  /** No call ever gets stuck: after every run, any request and the free of any live block go on with it. */
  lemma {:induction false} RunsGoOn(st: State, ops: seq<Op>, st': State, op: Op)
    requires Valid(st) && Runs(st, ops, st') && Enabled(st', op)
    ensures Valid(st') && Runs(st, ops + [op], Apply(st', op))
    decreases |ops|
  {
    hide Valid;
    hide Apply;
    hide Enabled;
    RunsValid(st, ops, st');
    StepValid(st', op);
    if ops == [] {
      assert Runs(Apply(st, op), [], Apply(st, op));
      assert (ops + [op])[1..] == [];
    } else {
      StepValid(st, ops[0]);
      RunsGoOn(Apply(st, ops[0]), ops[1..], st', op);
      assert (ops + [op])[1..] == ops[1..] + [op];
    }
  }
}
