/**
 * Whole runs of the scheduler: ticks, yields, new processes, kills, and changes
 * of status and priority from outside, in any order.
 */
module SchedulerRuns {
  import opened Processes
  import opened SchedulerSpec
  import opened SchedulerTheorems
  import opened SchedulerPids

  /**
   * "alive" records who was added and has been neither killed nor deleted since; "linked" is
   * whether prev is the node before the current one, as Scheduler.Linked has it.
   */
  datatype System = System(s: Sched, alive: set<nat>, linked: bool)

  datatype Step =
    | TickStep
    | YieldStep
    | AddStep(pid: nat)
    | KillStep
    | StatusStep(place: nat, status: Status)
    | PriorityStep(place: nat, priority: nat)

  /**
   * Only the scheduler makes a process running, and a deleted process stays deleted;
   * a switch needs some process that can run, and a kill also needs prev to be in place.  A new
   * process gets the first free slot of the process table, if there is one.
   */
  ghost predicate Enabled(y: System, step: Step) {
    match step
    case TickStep => TickEnds(y.s)
    case YieldStep => SomeRunnable(y.s.ring)
    case AddStep(pid) => FirstFree(y.s.ring, pid)
    case KillStep => y.linked && |y.s.ring| >= 2 && SomeRunnable(y.s.ring[1..])
    case StatusStep(place, status) =>
      place < |y.s.ring| && y.s.ring[place].status != Deleted && status != Running
    case PriorityStep(place, priority) => place < |y.s.ring| && 1 <= priority <= LOWEST_PRIORITY
  }

  /** A process as it is created. */
  function Created(pid: nat): Entry {
    Entry(pid, Ready, LOWEST_PRIORITY, 0, QUANTUM)
  }

  /** Creating a process counts it before it is added; prev stays behind when a second node follows the first. */
  ghost function Apply(y: System, step: Step): System
    requires Enabled(y, step)
  {
    var s := y.s;
    match step
    case TickStep => y.(s := Tick(s), linked := y.linked || (s.ring != [] && Expires(s)))
    case YieldStep => y.(s := Tick(Donate(s)), linked := true)
    case AddStep(pid) =>
      System(Added(s, pid), y.alive + {pid},
             s.ring == [] || (|s.ring| >= 2 && y.linked))
    case KillStep => System(Kill(s), y.alive - (if s.ring[0].status == Deleted then {} else {s.ring[0].pid}), true)
    case StatusStep(place, status) =>
      y.(s := s.(ring := s.ring[place := s.ring[place].(status := status)]),
         alive := y.alive - (if status == Deleted then {s.ring[place].pid} else {}))
    case PriorityStep(place, priority) => y.(s := s.(ring := s.ring[place := s.ring[place].(priority := priority)]))
  }

  ghost predicate Runs(y: System, steps: seq<Step>, z: System)
    decreases |steps|
  {
    if steps == [] then z == y else Enabled(y, steps[0]) && Runs(Apply(y, steps[0]), steps[1..], z)
  }

  function Initial(): System {
    System(Sched([], 0, 1, 0, 0), {}, false)
  }

  /** How often a process occurs. */
  ghost function Count(pids: seq<nat>, pid: nat): nat {
    if pids == [] then 0 else (if pids[0] == pid then 1 else 0) + Count(pids[1..], pid)
  }

  lemma {:induction false} CountAppend(a: seq<nat>, b: seq<nat>, pid: nat)
    ensures Count(a + b, pid) == Count(a, pid) + Count(b, pid)
  {
    if a == [] {
      assert a + b == b;
    } else {
      CountAppend(a[1..], b, pid);
      assert (a + b)[1..] == a[1..] + b;
    }
  }

  function Once(alive: set<nat>, pid: nat): nat {
    if pid in alive then 1 else 0
  }

  /** Exactly the processes of the set occur, once each. */
  ghost predicate Accounts(pids: seq<nat>, alive: set<nat>) {
    forall pid :: Count(pids, pid) == Once(alive, pid)
  }

  lemma AccountsTurned(a: seq<nat>, b: seq<nat>, alive: set<nat>)
    requires SameCycle(a, b) && Accounts(a, alive)
    ensures Accounts(b, alive)
  {
    var k: nat :| k <= |a| && b == Turn(a, k);
    assert a == a[..k] + a[k..];
    forall pid ensures Count(b, pid) == Once(alive, pid) {
      CountAppend(a[..k], a[k..], pid);
      CountAppend(a[k..], a[..k], pid);
    }
  }

  ghost predicate RingInv(y: System) {
    && Accounts(Kept(y.s.ring), y.alive)
    && OnlyCurrentRunning(y.s.ring)
    && NoneOverdue(y.s.ring)
    && |y.s.ring| == y.s.processNumber
  }

  lemma TickKeepsInv(y: System)
    requires RingInv(y) && TickEnds(y.s)
    ensures RingInv(Apply(y, TickStep))
  {
    hide Accounts;
    hide NoneOverdue;
    var s := y.s;
    if s.ring != [] {
      var t := UseQuantum(s);
      KeptOfPids(s.ring, t.ring);
      TickKeepsStarvation(s);
      if Expires(s) {
        SwitchSafety(t);
        AccountsTurned(Kept(t.ring), Kept(Switch(t).ring), y.alive);
      }
    }
  }

  lemma DonateKeepsInv(y: System)
    requires RingInv(y) && SomeRunnable(y.s.ring)
    ensures RingInv(y.(s := Donate(y.s)))
  {
    hide Accounts;
    KeptOfPids(y.s.ring, Donate(y.s).ring);
  }

  /** What the first entry of a ring contributes. */
  ghost function KeptFirst(e: Entry): seq<nat> {
    if e.status == Deleted then [] else [e.pid]
  }

  /** The ring without its first process. */
  lemma RestKeepsInv(y: System)
    requires RingInv(y) && y.s.ring != []
    ensures Accounts(Kept(y.s.ring[1..]), y.alive - (if y.s.ring[0].status == Deleted then {} else {y.s.ring[0].pid}))
    ensures NoneRunning(y.s.ring[1..]) && NoneOverdue(y.s.ring[1..])
  {
    var e, rest := y.s.ring[0], Kept(y.s.ring[1..]);
    var left := y.alive - (if e.status == Deleted then {} else {e.pid});
    assert Kept(y.s.ring) == KeptFirst(e) + rest;
    forall pid ensures Count(rest, pid) == Once(left, pid) {
      CountAppend(KeptFirst(e), rest, pid);
      assert Count(Kept(y.s.ring), pid) == Once(y.alive, pid);
      assert e.status != Deleted ==> KeptFirst(e)[1..] == [];
    }
  }

  lemma KillKeepsInv(y: System)
    requires RingInv(y) && Enabled(y, KillStep)
    ensures RingInv(Apply(y, KillStep))
  {
    hide Accounts;
    hide SameCycle;
    hide Kept;
    hide SetNext;
    var s, z := y.s, Apply(y, KillStep);
    var k := s.(ring := s.ring[1..], processNumber := s.processNumber - 1);
    RestKeepsInv(y);
    KillSafety(s);
    AccountsTurned(Kept(s.ring[1..]), Kept(Kill(s).ring), z.alive);
    SetNextKeepsCycle(k);
    SetNextKeepsStarvation(k);
  }

  lemma KeptInsert(ring: seq<Entry>, n: Entry, pid: nat)
    requires ring != [] && n.status != Deleted
    ensures Count(Kept([ring[0], n] + ring[1..]), pid) == Count(Kept(ring), pid) + if n.pid == pid then 1 else 0
  {
    var t, rest := [ring[0], n] + ring[1..], Kept(ring[1..]);
    assert t[1..] == [n] + ring[1..] && t[1..][1..] == ring[1..];
    assert ([n.pid] + rest)[1..] == rest;
    CountAppend(KeptFirst(ring[0]), rest, pid);
    CountAppend(KeptFirst(ring[0]), [n.pid] + rest, pid);
    assert Kept(t) == KeptFirst(ring[0]) + ([n.pid] + rest);
    assert Kept(ring) == KeptFirst(ring[0]) + rest;
  }

  lemma AddKeepsInv(y: System, pid: nat)
    requires RingInv(y) && Enabled(y, AddStep(pid)) && pid !in y.alive && |y.s.ring| < MAX_PROCESSES
    ensures RingInv(Apply(y, AddStep(pid)))
  {
    hide Kept;
    var n := Created(pid);
    var ring, t := y.s.ring, Apply(y, AddStep(pid)).s.ring;
    forall q ensures Count(Kept(t), q) == Once(y.alive + {pid}, q) {
      assert Count(Kept(ring), q) == Once(y.alive, q);
      if ring == [] {
        KeptOne(n);
        assert Count([pid][1..], q) == 0;
      } else {
        KeptInsert(ring, n, q);
      }
    }
  }

  lemma KeptOne(n: Entry)
    requires n.status != Deleted
    ensures Kept([n]) == [n.pid] && Kept([]) == []
  {
    assert [n][1..] == [];
  }

  lemma {:induction false} KeptWithout(ring: seq<Entry>, place: nat, q: nat)
    requires place < |ring| && ring[place].status != Deleted
    ensures Count(Kept(ring), q)
            == Count(Kept(ring[place := ring[place].(status := Deleted)]), q) + if ring[place].pid == q then 1 else 0
    decreases |ring|
  {
    var r := ring[place := ring[place].(status := Deleted)];
    CountAppend(KeptFirst(ring[0]), Kept(ring[1..]), q);
    CountAppend(KeptFirst(r[0]), Kept(r[1..]), q);
    assert Kept(ring) == KeptFirst(ring[0]) + Kept(ring[1..]);
    assert Kept(r) == KeptFirst(r[0]) + Kept(r[1..]);
    if place == 0 {
      assert r[1..] == ring[1..];
      assert [ring[0].pid][1..] == [];
    } else {
      KeptWithout(ring[1..], place - 1, q);
      assert r[1..] == ring[1..][place - 1 := r[place]];
    }
  }

  lemma DeleteKeepsInv(y: System, place: nat)
    requires RingInv(y) && Enabled(y, StatusStep(place, Deleted))
    ensures RingInv(Apply(y, StatusStep(place, Deleted)))
  {
    var z := Apply(y, StatusStep(place, Deleted));
    forall q ensures Count(Kept(z.s.ring), q) == Once(z.alive, q) {
      KeptWithout(y.s.ring, place, q);
      assert Count(Kept(y.s.ring), q) == Once(y.alive, q);
    }
  }

  /** A change of status or priority of one process. */
  lemma ChangeKeepsInv(y: System, place: nat, e: Entry)
    requires RingInv(y) && place < |y.s.ring| && e.pid == y.s.ring[place].pid && e.starvation == y.s.ring[place].starvation
    requires e.status == Deleted <==> y.s.ring[place].status == Deleted
    requires e.status == y.s.ring[place].status || e.status != Running
    ensures RingInv(y.(s := y.s.(ring := y.s.ring[place := e])))
  {
    hide Accounts;
    KeptOfPids(y.s.ring, y.s.ring[place := e]);
  }

  lemma StepKeepsRingInv(y: System, step: Step)
    requires Inv(y) && Enabled(y, step)
    ensures RingInv(Apply(y, step))
  {
    hide RingInv;
    hide Slots;
    hide FirstFree;
    match step {
      case TickStep => TickKeepsInv(y);
      case YieldStep =>
        DonateKeepsInv(y);
        TickKeepsInv(y.(s := Donate(y.s)));
      case AddStep(pid) =>
        FreeSlotIff(y.s.ring);
        FreeIsNew(y, pid);
        AddKeepsInv(y, pid);
      case KillStep => KillKeepsInv(y);
      case StatusStep(place, status) =>
        if status == Deleted {
          DeleteKeepsInv(y, place);
        } else {
          assert y.alive - {} == y.alive;
          ChangeKeepsInv(y, place, y.s.ring[place].(status := status));
        }
      case PriorityStep(place, priority) => ChangeKeepsInv(y, place, y.s.ring[place].(priority := priority));
    }
  }

  lemma {:induction false} KeptOccurs(ring: seq<Entry>, pid: nat)
    ensures Count(Kept(ring), pid) <= Occurs(ring, pid)
  {
    if ring != [] {
      KeptOccurs(ring[1..], pid);
      CountAppend(KeptFirst(ring[0]), Kept(ring[1..]), pid);
      assert Kept(ring) == KeptFirst(ring[0]) + Kept(ring[1..]);
      assert [ring[0].pid][1..] == [];
    }
  }

  /** A free slot belongs to nobody alive. */
  lemma FreeIsNew(y: System, pid: nat)
    requires RingInv(y) && FirstFree(y.s.ring, pid)
    ensures pid !in y.alive
  {
    KeptOccurs(y.s.ring, pid);
    assert Count(Kept(y.s.ring), pid) == Once(y.alive, pid);
  }

  lemma StepKeepsSlots(y: System, step: Step)
    requires Slots(y.s.ring) && Enabled(y, step)
    ensures Slots(Apply(y, step).s.ring)
  {
    var s, r := y.s, Apply(y, step).s.ring;
    forall pid: nat ensures Occurs(r, pid) <= if pid < MAX_PROCESSES then 1 else 0 {
      assert Occurs(s.ring, pid) <= if pid < MAX_PROCESSES then 1 else 0;
      match step {
        case TickStep => TickOccurs(s, pid);
        case YieldStep =>
          DonateOccurs(s, pid);
          TickOccurs(Donate(s), pid);
        case AddStep(p) => AddOccurs(Insert(s), Created(p), pid);
        case KillStep => KillOccurs(s, pid);
        case StatusStep(_, _) => OccursSame(s.ring, r, pid);
        case PriorityStep(_, _) => OccursSame(s.ring, r, pid);
      }
    }
  }

  ghost predicate Inv(y: System) {
    RingInv(y) && Slots(y.s.ring)
  }

  lemma StepKeepsInv(y: System, step: Step)
    requires Inv(y) && Enabled(y, step)
    ensures Inv(Apply(y, step))
  {
    hide RingInv;
    hide Slots;
    StepKeepsRingInv(y, step);
    StepKeepsSlots(y, step);
  }

  lemma {:induction false} RunKeepsInv(y: System, steps: seq<Step>, z: System)
    requires Inv(y) && Runs(y, steps, z)
    ensures Inv(z)
    decreases |steps|
  {
    if steps != [] {
      StepKeepsInv(y, steps[0]);
      RunKeepsInv(Apply(y, steps[0]), steps[1..], z);
    }
  }

  /**
   * Over every run: the ring holds every process that was added and neither killed nor
   * deleted exactly once, and no other that is not deleted; it is as long as the process table
   * counts, and at most 32 nodes long, each with a slot of its own; only the current process is
   * ever running; and no starvation counter exceeds its limit.
   */
  lemma RunsSafe(steps: seq<Step>, z: System)
    requires Runs(Initial(), steps, z)
    ensures forall pid :: Count(Kept(z.s.ring), pid) == if pid in z.alive then 1 else 0
    ensures |z.s.ring| == z.s.processNumber <= MAX_PROCESSES && Slots(z.s.ring)
    ensures z.s.processNumber < MAX_PROCESSES <==> exists pid: nat :: Enabled(z, AddStep(pid))
    ensures forall i | 1 <= i < |z.s.ring| :: z.s.ring[i].status != Running
    ensures forall i | 0 <= i < |z.s.ring| :: z.s.ring[i].starvation <= MAX_STARVATION
  {
    RunKeepsInv(Initial(), steps, z);
    FreeSlotIff(z.s.ring);
    assert forall pid: nat :: Enabled(z, AddStep(pid)) <==> FirstFree(z.s.ring, pid);
  }

  /** After the second addition, and until the next switch, a kill would not take its node out of the ring. */
  lemma KillComesTooEarly()
    ensures exists z :: Runs(Initial(), [AddStep(0), AddStep(1)], z) && |z.s.ring| == 2 && SomeRunnable(z.s.ring[1..])
                        && !z.linked && !Enabled(z, KillStep)
  {
    var y := Apply(Initial(), AddStep(0));
    var z := Apply(y, AddStep(1));
    assert Runs(z, [], z);
    assert [AddStep(0), AddStep(1)][1..] == [AddStep(1)] && [AddStep(1)][1..] == [];
    assert Runs(y, [AddStep(1)], z);
    assert z.s.ring[1..][0] == Created(1);
    assert Runnable(z.s.ring[1..][0]);
  }

  // ---------------------------------------------------------------- a full process table

  /** createProcess and addProcess for a process with the given number, whatever insertProcess finds. */
  function Added(s: Sched, pid: nat): Sched {
    Add(Insert(s), Created(pid))
  }

  /** An addition keeps the count of processes equal to the length of the ring exactly while a slot is free. */
  lemma AdditionCountsIff(y: System, pid: nat)
    requires Inv(y)
    ensures |Added(y.s, pid).ring| == Added(y.s, pid).processNumber <==> |y.s.ring| < MAX_PROCESSES
    ensures |y.s.ring| < MAX_PROCESSES <==> exists q: nat :: Enabled(y, AddStep(q))
  {
    FreeSlotIff(y.s.ring);
    assert forall q: nat :: Enabled(y, AddStep(q)) <==> FirstFree(y.s.ring, q);
  }

  lemma {:induction false} RunsLast(y: System, steps: seq<Step>, z: System, step: Step)
    requires Runs(y, steps, z) && Enabled(z, step)
    ensures Runs(y, steps + [step], Apply(z, step))
    decreases |steps|
  {
    if steps == [] {
      assert Runs(Apply(z, step), [], Apply(z, step));
      assert (steps + [step])[1..] == [];
    } else {
      RunsLast(Apply(y, steps[0]), steps[1..], z, step);
      assert (steps + [step])[1..] == steps[1..] + [step];
    }
  }

  lemma {:induction false} FillTo(n: nat) returns (steps: seq<Step>, z: System)
    requires n <= MAX_PROCESSES
    ensures Runs(Initial(), steps, z) && |steps| == n && |z.s.ring| == n
  {
    if n == 0 {
      steps, z := [], Initial();
    } else {
      var before, y := FillTo(n - 1);
      RunKeepsInv(Initial(), before, y);
      FreeSlotIff(y.s.ring);
      var pid: nat :| FirstFree(y.s.ring, pid);
      RunsLast(Initial(), before, y, AddStep(pid));
      steps, z := before + [AddStep(pid)], Apply(y, AddStep(pid));
    }
  }

  /** After 32 additions the next one would leave 33 nodes in the ring and 32 processes counted. */
  lemma FullTable() returns (steps: seq<Step>, z: System)
    ensures Runs(Initial(), steps, z) && |steps| == MAX_PROCESSES && |z.s.ring| == MAX_PROCESSES
    ensures forall pid: nat :: !Enabled(z, AddStep(pid))
    ensures forall pid: nat :: |Added(z.s, pid).ring| == 33 && Added(z.s, pid).processNumber == 32
  {
    steps, z := FillTo(MAX_PROCESSES);
    RunKeepsInv(Initial(), steps, z);
    AdditionCountsIff(z, 0);
  }
}
