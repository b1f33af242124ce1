/**
 * The philosophers on the kernel's mutexes: processes that find a mutex closed
 * are blocked, and run again only when they are unblocked.  S[i] is locked by one
 * process and unlocked by another, so nothing here relies on holders.
 */
module PhilosophersBlocking {
  import opened Wrappers
  import Processes
  import MutexSpec
  import opened PhilosophersSpec
  import opened PhilosophersTheorems

  /** The program and the kernel's view of its mutexes and processes. */
  datatype Machine = Machine(s: System, k: MutexSpec.System)

  datatype Step =
    | Go(a: Actor)       // a process takes its next step
    | Fail(a: Actor)     // a process finds the mutex it wants closed
    | Wake(pid: nat)     // a spurious unblock

  /** Numbers of processes and mutexes: the adder is process 0, "mutex" is mutex 0. */
  function Pid(a: Actor): nat {
    match a case Adder => 0 case Seat(i) => i + 1
  }

  /** The mutex that the next step of a process locks. */
  function Locks(s: System, a: Actor): Option<nat>
    requires Shaped(s) && (a.Seat? ==> a.i < N)
  {
    match a
    case Adder => if s.adder == Idle then Some(0) else if s.adder == Holding then Some(s.desk.n + 1) else None
    case Seat(i) =>
      if s.places[i] == Arriving || s.places[i] == Asking || s.places[i] == Dining then Some(0)
      else if s.places[i] == Awaiting then Some(i + 1)
      else None
  }

  /** The mutex that it unlocks. */
  function Unlocks(s: System, a: Actor): Option<nat>
    requires Shaped(s) && (a.Seat? ==> a.i < N)
    requires a.Seat? && (s.places[a.i] == ServingLeft || s.places[a.i] == ServingRight) ==> s.desk.n > 0
  {
    match a
    case Adder => if s.adder == Unlocking then Some(0) else None
    case Seat(i) =>
      (match s.places[i]
       case Admitted => Some(0)
       case Leaving => Some(0)
       case Releasing => Some(0)
       case Closing => Some(0)
       case Serving => Some(i + 1)
       case ServingLeft => Some(Left(i, s.desk.n) + 1)
       case ServingRight => Some(Right(i, s.desk.n) + 1)
       case _ => None)
  }

  predicate Creates(s: System, a: Actor) {
    a == Adder && s.adder == Making
  }

  /** Whether the value of mutex number m is not 0. */
  predicate Opens(s: System, m: nat)
    requires Shaped(s) && m <= N
  {
    if m == 0 then s.mutexOpen else s.desk.open[m - 1]
  }

  /** The value of mutex number m after a step of the program. */
  ghost predicate OpensNext(s: System, a: Actor, m: nat)
    requires Inv(s) && Enabled(s, a) && m <= N
  {
    if Locks(s, a) == Some(m) then false
    else if Unlocks(s, a) == Some(m) then true
    else if Creates(s, a) && m == s.desk.n + 1 then true
    else Opens(s, m)
  }

  lemma SeatOpens(s: System, i: nat, m: nat)
    requires Inv(s) && Enabled(s, Seat(i)) && m <= N
    ensures Opens(SeatStep(s, i), m) == OpensNext(s, Seat(i), m)
  {
    hide Left;
    hide Right;
    hide SeatsOk;
    hide Exclusive;
    hide Apart;
    hide SomeoneMoves;
    hide CanEat;
  }

  /** A step of the program opens and closes what it unlocks and locks, and nothing else. */
  lemma StepOpens(s: System, a: Actor, m: nat)
    requires Inv(s) && Enabled(s, a) && m <= N
    ensures Opens(Next(s, a), m) == OpensNext(s, a, m)
  {
    match a {
      case Adder =>
      case Seat(i) =>
        hide SeatStep;
        SeatOpens(s, i, m);
    }
  }

  /** A step that is possible finds the mutex open that it locks. */
  lemma LocksOpen(s: System, a: Actor)
    requires Inv(s) && Enabled(s, a)
    ensures Locks(s, a).Some? ==> Locks(s, a).value <= N && Opens(s, Locks(s, a).value)
  {
  }

  /** How many mutexes exist: one, and one for every seat. */
  function Created(s: System): nat {
    1 + s.desk.n + (if s.adder == Holding || s.adder == Seating || s.adder == Counting then 1 else 0)
  }

  predicate CanTry(y: Machine, a: Actor) {
    Shaped(y.s) && (a.Seat? ==> a.i < N) && MutexSpec.CanRun(y.k.table, Pid(a))
  }

  predicate StepEnabled(y: Machine, step: Step) {
    match step
    case Go(a) => CanTry(y, a) && Enabled(y.s, a)
    case Fail(a) =>
      CanTry(y, a) && Locks(y.s, a).Some? && Locks(y.s, a).value < |y.k.mutexes| && !y.k.mutexes[Locks(y.s, a).value].open
    case Wake(_) => true
  }

  /** The call that a step of the program makes, if any. */
  function Call(s: System, a: Actor): Option<MutexSpec.Step>
    requires Inv(s) && Enabled(s, a)
  {
    if Locks(s, a).Some? then Some(MutexSpec.LockStep(Pid(a), Locks(s, a).value))
    else if Unlocks(s, a).Some? then Some(MutexSpec.UnlockStep(Pid(a), Unlocks(s, a).value))
    else if Creates(s, a) then Some(MutexSpec.InitStep)
    else None
  }

  function ActorOf(pid: nat): (a: Actor)
    ensures Pid(a) == pid
  {
    if pid == 0 then Adder else Seat(pid - 1)
  }

  /** The values of the kernel's mutexes are those of the program. */
  ghost predicate SameValues(y: Machine)
    requires Shaped(y.s)
  {
    |y.k.mutexes| == Created(y.s) <= N + 1 && forall m: nat | m < |y.k.mutexes| :: y.k.mutexes[m].open == Opens(y.s, m)
  }

  /** Who is in the loop of "mutexLock" is there for the mutex that it is about to lock. */
  ghost predicate RightLoops(y: Machine)
    requires Shaped(y.s)
  {
    forall p | p in y.k.waiting :: p <= N && Locks(y.s, ActorOf(p)) == Some(y.k.waiting[p])
  }

  /** No process is deleted, and none is blocked for anything else. */
  ghost predicate RightStatuses(k: MutexSpec.System) {
    && (forall p: nat :: p in k.table <==> p <= N)
    && (forall p | p in k.table :: k.table[p] != Processes.Deleted)
    && (forall p | p in k.table && k.table[p] == Processes.Blocked :: p in k.waiting)
  }

  ghost predicate Agree(y: Machine) {
    Inv(y.s) && SameValues(y) && RightLoops(y) && RightStatuses(y.k) && MutexSpec.WakeInv(y.k)
  }

  /** The calls that the program makes are possible in the kernel. */
  lemma CallPossible(y: Machine, a: Actor)
    requires Agree(y) && CanTry(y, a) && Enabled(y.s, a)
    ensures match Call(y.s, a)
            case None => Pid(a) !in y.k.waiting
            case Some(call) =>
              && MutexSpec.Enabled(y.k, call)
              && (call.LockStep? ==> y.k.mutexes[call.m].open)
              && (!call.LockStep? ==> Pid(a) !in y.k.waiting)
  {
    hide Left;
    hide Right;
    hide Exclusive;
    hide Apart;
    hide SomeoneMoves;
    assert ActorOf(Pid(a)) == a;
    if a.Seat? {
      assert PlaceOk(y.s, a.i);
      if a.i < y.s.desk.n {
        Neighbours(a.i, y.s.desk.n);
      }
    }
  }

  ghost function Apply(y: Machine, step: Step): Machine
    requires Agree(y) && StepEnabled(y, step)
  {
    match step
    case Go(a) =>
      CallPossible(y, a);
      Machine(Next(y.s, a),
              match Call(y.s, a) case None => y.k case Some(call) => MutexSpec.Apply(y.k, call))
    case Fail(a) =>
      assert ActorOf(Pid(a)) == a;
      y.(k := MutexSpec.Apply(y.k, MutexSpec.LockStep(Pid(a), Locks(y.s, a).value)))
    case Wake(pid) => y.(k := MutexSpec.Apply(y.k, MutexSpec.UnblockStep(pid)))
  }

  lemma GoKeepsValues(y: Machine, a: Actor)
    requires Agree(y) && StepEnabled(y, Go(a))
    ensures Shaped(Apply(y, Go(a)).s) && SameValues(Apply(y, Go(a)))
  {
    hide Left;
    hide Right;
    CallPossible(y, a);
    LocksOpen(y.s, a);
    StepKeepsInv(y.s, a);
    var z := Apply(y, Go(a));
    CreatedNext(y.s, a);
    assert |z.k.mutexes| == Created(z.s);
    forall m: nat | m < |z.k.mutexes| ensures z.k.mutexes[m].open == Opens(z.s, m) {
      StepOpens(y.s, a, m);
      assert m < |y.k.mutexes| ==> y.k.mutexes[m].open == Opens(y.s, m);
    }
  }

  lemma CreatedNext(s: System, a: Actor)
    requires Inv(s) && Enabled(s, a)
    ensures Created(s) <= N + 1 && Created(Next(s, a)) <= N + 1
    ensures Created(Next(s, a)) == Created(s) + (if Creates(s, a) then 1 else 0)
    ensures Creates(s, a) ==> Created(s) == s.desk.n + 1
  {
    StepKeepsInv(s, a);
  }

  /** Other processes still want what they wanted. */
  lemma OthersWantTheSame(s: System, a: Actor, b: Actor)
    requires Inv(s) && Enabled(s, a) && a != b && (b.Seat? ==> b.i < N)
    ensures Locks(s, b).Some? ==> Locks(Next(s, a), b) == Locks(s, b)
  {
    hide Left;
    hide Right;
    hide Apart;
    hide SomeoneMoves;
    if b.Seat? {
      assert PlaceOk(s, b.i);
    }
  }

  lemma GoKeepsLoops(y: Machine, a: Actor)
    requires Agree(y) && StepEnabled(y, Go(a))
    ensures Shaped(Apply(y, Go(a)).s) && RightLoops(Apply(y, Go(a)))
  {
    CallPossible(y, a);
    var z := Apply(y, Go(a));
    forall p | p in z.k.waiting ensures p <= N && Locks(z.s, ActorOf(p)) == Some(z.k.waiting[p]) {
      assert p in y.k.waiting && p != Pid(a) && z.k.waiting[p] == y.k.waiting[p];
      OthersWantTheSame(y.s, a, ActorOf(p));
    }
  }

  lemma GoKeepsAgree(y: Machine, a: Actor)
    requires Agree(y) && StepEnabled(y, Go(a))
    ensures Agree(Apply(y, Go(a)))
  {
    hide Inv;
    hide SameValues;
    hide RightLoops;
    GoKeepsValues(y, a);
    GoKeepsLoops(y, a);
    GoKeepsStatuses(y, a);
  }

  lemma GoKeepsStatuses(y: Machine, a: Actor)
    requires Agree(y) && StepEnabled(y, Go(a))
    ensures var z := Apply(y, Go(a)); Inv(z.s) && RightStatuses(z.k) && MutexSpec.WakeInv(z.k)
  {
    CallPossible(y, a);
    StepKeepsInv(y.s, a);
    match Call(y.s, a) {
      case None =>
      case Some(call) => MutexSpec.StepKeepsWakeInv(y.k, call);
    }
  }

  /** A failed attempt changes the record, the waiting process and its status, and no value. */
  lemma FailedLock(k: MutexSpec.System, pid: nat, m: nat)
    requires MutexSpec.Enabled(k, MutexSpec.LockStep(pid, m)) && !k.mutexes[m].open
    requires k.table[pid] != Processes.Deleted
    ensures var l := MutexSpec.Apply(k, MutexSpec.LockStep(pid, m));
            && |l.mutexes| == |k.mutexes| && (forall j: nat | j < |k.mutexes| :: l.mutexes[j].open == k.mutexes[j].open)
            && l.waiting == k.waiting[pid := m] && l.table == k.table[pid := Processes.Blocked]
  {
  }

  lemma FailKeepsAgree(y: Machine, a: Actor)
    requires Agree(y) && StepEnabled(y, Fail(a))
    ensures Agree(Apply(y, Fail(a)))
  {
    hide Inv;
    hide MutexSpec.WakeInv;
    hide MutexSpec.Apply;
    var m := Locks(y.s, a).value;
    assert ActorOf(Pid(a)) == a;
    MutexSpec.StepKeepsWakeInv(y.k, MutexSpec.LockStep(Pid(a), m));
    FailedLock(y.k, Pid(a), m);
  }

  lemma StepKeepsAgree(y: Machine, step: Step)
    requires Agree(y) && StepEnabled(y, step)
    ensures Agree(Apply(y, step))
  {
    match step {
      case Go(a) => GoKeepsAgree(y, a);
      case Fail(a) => FailKeepsAgree(y, a);
      case Wake(pid) => MutexSpec.StepKeepsWakeInv(y.k, MutexSpec.UnblockStep(pid));
    }
  }

  ghost predicate MachineRuns(y: Machine, steps: seq<Step>, z: Machine)
    requires Agree(y)
    decreases |steps|
  {
    if steps == [] then
      z == y
    else
      StepEnabled(y, steps[0]) && (StepKeepsAgree(y, steps[0]); MachineRuns(Apply(y, steps[0]), steps[1..], z))
  }

  function AllReady(n: nat): (t: Processes.Table)
    ensures forall p: nat :: p in t <==> p <= n
    ensures forall p | p in t :: t[p] == Processes.Ready
  {
    if n == 0 then map[0 := Processes.Ready] else AllReady(n - 1)[n := Processes.Ready]
  }

  /** The program has created "mutex" and nobody has been added; all processes are ready. */
  function Start(): Machine {
    Machine(Initial(),
            MutexSpec.System([MutexSpec.Mutex(true, {})], AllReady(N), map[], {}))
  }

  lemma StartAgrees()
    ensures Agree(Start())
  {
    InitialInv();
  }

  lemma {:induction false} RunKeepsAgree(y: Machine, steps: seq<Step>, z: Machine)
    requires Agree(y) && MachineRuns(y, steps, z)
    ensures Agree(z)
    decreases |steps|
  {
    if steps != [] {
      StepKeepsAgree(y, steps[0]);
      RunKeepsAgree(Apply(y, steps[0]), steps[1..], z);
    }
  }

  /** A process whose next step is possible is not blocked. */
  lemma PossibleMeansRunning(y: Machine, a: Actor)
    requires Agree(y) && Enabled(y.s, a)
    ensures StepEnabled(y, Go(a))
  {
    hide SeatsOk;
    hide Exclusive;
    hide Apart;
    hide SomeoneMoves;
    assert ActorOf(Pid(a)) == a;
    LocksOpen(y.s, a);
  }

  /**
   * No deadlock on the kernel's mutexes, over every run with blocked processes, failed attempts and
   * spurious unblocks: once somebody sits at the table some process that is not blocked can take its
   * next step, and every process whose next step is possible has been unblocked.
   */
  lemma SomebodyRuns(steps: seq<Step>, y: Machine)
    requires (StartAgrees(); MachineRuns(Start(), steps, y))
    ensures Shaped(y.s)
    ensures forall a | Enabled(y.s, a) :: StepEnabled(y, Go(a))
    ensures y.s.desk.n > 0 ==> exists a :: StepEnabled(y, Go(a)) && (a == Adder ==> y.s.adder != Idle)
  {
    StartAgrees();
    RunKeepsAgree(Start(), steps, y);
    forall a | Enabled(y.s, a) ensures StepEnabled(y, Go(a)) {
      PossibleMeansRunning(y, a);
    }
    if y.s.desk.n > 0 {
      var a := SomeStep(y.s);
      assert StepEnabled(y, Go(a));
    }
  }
}
