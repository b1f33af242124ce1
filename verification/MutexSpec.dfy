/**
 * Mutexes on values, and the protocol of processes that lock and unlock them
 * (Kernel/mutex.c).  A mutex is a value that is exchanged atomically and a
 * record of the processes that ever had to wait for it, which is never cleared.
 */
module MutexSpec {
  import opened Processes

  datatype Mutex = Mutex(open: bool, recorded: set<nat>)

  /** Every recorded process is unblocked, whatever it is blocked for. */
  function UnblockAll(t: Table, recorded: set<nat>): Table {
    map pid | pid in t :: if pid in recorded && t[pid] != Deleted then Ready else t[pid]
  }

  /** One pass of "mutexLock" by a process: the lock, or a place in the record. */
  function Lock(m: Mutex, t: Table, pid: nat): (Mutex, Table, bool) {
    if !m.open then (m.(recorded := m.recorded + {pid}), Block(t, pid), false)
    else (m.(open := false), t, true)
  }

  /** "mutexUnlock" */
  function Unlock(m: Mutex, t: Table): (Mutex, Table) {
    (m.(open := true), UnblockAll(t, m.recorded))
  }

  // ---------------------------------------------------------------- exact effects

  /**
   * One pass of "mutexLock", exactly: an open mutex is closed, and nothing else changes; a closed one only
   * records the process and blocks it, unless it is deleted.
   */
  lemma LockEffect(m: Mutex, t: Table, pid: nat)
    ensures var (x, u, locked) := Lock(m, t, pid);
            if m.open then
              locked && x == Mutex(false, m.recorded) && u == t
            else
              && !locked && x == Mutex(false, m.recorded + {pid}) && u.Keys == t.Keys
              && forall k | k in t :: u[k] == if k == pid && t[k] != Deleted then Blocked else t[k]
  {
  }

  /**
   * "mutexUnlock": the mutex is open, with the same record; who is recorded can run afterwards unless it is
   * deleted, and then it still is; who is not recorded keeps its status.
   */
  lemma UnlockEffect(m: Mutex, t: Table)
    ensures var (x, u) := Unlock(m, t);
            && x == Mutex(true, m.recorded) && u.Keys == t.Keys
            && (forall k | k in t && k !in m.recorded :: u[k] == t[k])
            && (forall k | k in t && k in m.recorded && t[k] != Deleted :: u[k] == Ready)
            && (forall k | k in t && t[k] == Deleted :: u[k] == Deleted)
  {
  }

  // ---------------------------------------------------------------- the protocol

  /**
   * All mutexes; the processes inside the loop of "mutexLock", each with its mutex; and
   * who has come out of "mutexLock" without having unlocked.
   */
  datatype System = System(mutexes: seq<Mutex>, table: Table, waiting: map<nat, nat>, holds: set<(nat, nat)>)

  datatype Step =
    | InitStep
    | LockStep(pid: nat, m: nat)
    | UnlockStep(pid: nat, m: nat)
    | UnblockStep(pid: nat)
    | DeleteStep(pid: nat)
    | OtherStep(pid: nat, status: Status)

  predicate CanRun(t: Table, pid: nat) {
    pid in t && t[pid] != Blocked && t[pid] != Deleted
  }

  /**
   * Only processes that can run act; one that waits tries its mutex again.  Anybody may unlock,
   * as when a mutex serves as a semaphore.
   */
  predicate Enabled(s: System, step: Step) {
    match step
    case InitStep => true
    case LockStep(pid, m) => m < |s.mutexes| && CanRun(s.table, pid) && (pid in s.waiting ==> s.waiting[pid] == m)
    case UnlockStep(pid, m) => m < |s.mutexes| && CanRun(s.table, pid) && pid !in s.waiting
    case UnblockStep(pid) => true
    case DeleteStep(pid) => true
    case OtherStep(pid, status) => pid in s.table && pid !in s.waiting
  }

  /** Mutexes that are used as mutexes: only a holder unlocks. */
  predicate ByHolder(s: System, step: Step) {
    step.UnlockStep? ==> (step.pid, step.m) in s.holds
  }

  function Apply(s: System, step: Step): System
    requires Enabled(s, step)
  {
    match step
    case InitStep => s.(mutexes := s.mutexes + [Mutex(true, {})])
    case LockStep(pid, m) =>
      var (x, t, locked) := Lock(s.mutexes[m], s.table, pid);
      if locked then
        System(s.mutexes[m := x], t, s.waiting - {pid}, s.holds + {(pid, m)})
      else
        System(s.mutexes[m := x], t, s.waiting[pid := m], s.holds)
    case UnlockStep(pid, m) =>
      var (x, t) := Unlock(s.mutexes[m], s.table);
      System(s.mutexes[m := x], t, s.waiting, s.holds - {(pid, m)})
    case UnblockStep(pid) => s.(table := Unblock(s.table, pid))
    case DeleteStep(pid) => s.(table := Delete(s.table, pid))
    case OtherStep(pid, status) => s.(table := s.table[pid := status])
  }

  ghost predicate Runs(s: System, steps: seq<Step>, t: System)
    decreases |steps|
  {
    if steps == [] then t == s else Enabled(s, steps[0]) && Runs(Apply(s, steps[0]), steps[1..], t)
  }

  // ---------------------------------------------------------------- wake-ups, whoever unlocks

  /** Who is in the loop of "mutexLock" is recorded there, and is blocked only while the value is 0. */
  ghost predicate WakeInv(s: System) {
    && (forall pid | pid in s.waiting :: s.waiting[pid] < |s.mutexes| && pid in s.mutexes[s.waiting[pid]].recorded)
    && (forall pid | pid in s.waiting && pid in s.table && s.table[pid] == Blocked :: !s.mutexes[s.waiting[pid]].open)
  }

  lemma StepKeepsWakeInv(s: System, step: Step)
    requires WakeInv(s) && Enabled(s, step)
    ensures WakeInv(Apply(s, step))
  {
    var t := Apply(s, step);
    forall pid | pid in t.waiting
      ensures t.waiting[pid] < |t.mutexes| && pid in t.mutexes[t.waiting[pid]].recorded
      ensures pid in t.table && t.table[pid] == Blocked ==> !t.mutexes[t.waiting[pid]].open
    {
    }
  }

  /**
   * No lost wake-ups, over every interleaving in which anybody may unlock and be unblocked: a
   * process blocked in the loop of "mutexLock" waits for a value of 0, and is recorded there, so
   * that the next unlock wakes it.
   */
  lemma {:induction false} RunsWake(s: System, steps: seq<Step>, t: System)
    requires WakeInv(s) && Runs(s, steps, t)
    ensures forall pid | pid in t.waiting ::
              t.waiting[pid] < |t.mutexes| && pid in t.mutexes[t.waiting[pid]].recorded
    ensures forall pid | pid in t.waiting && pid in t.table && t.table[pid] == Blocked ::
              !t.mutexes[t.waiting[pid]].open
    decreases |steps|
  {
    if steps != [] {
      StepKeepsWakeInv(s, steps[0]);
      RunsWake(Apply(s, steps[0]), steps[1..], t);
    }
  }

  /** After an unlock nobody is left blocked in the loop of that mutex. */
  lemma UnlockWakesAll(s: System, pid: nat, m: nat, p: nat)
    requires WakeInv(s) && Enabled(s, UnlockStep(pid, m))
    requires p in s.waiting && s.waiting[p] == m && p in s.table && s.table[p] != Deleted
    ensures CanRun(Apply(s, UnlockStep(pid, m)).table, p)
  {
    assert p in s.mutexes[m].recorded;
  }

  /**
   * While the value is not 0, a process in the loop can run, and its next pass gets the lock;
   * while it is 0, a pass only blocks its process again.
   */
  lemma LockWhileOpen(table: Table, steps: seq<Step>, t: System, pid: nat)
    requires Runs(System([], table, map[], {}), steps, t)
    requires pid in t.waiting && pid in t.table && t.table[pid] != Deleted
    ensures t.waiting[pid] < |t.mutexes|
    ensures var m := t.waiting[pid];
            if t.mutexes[m].open then
              && Enabled(t, LockStep(pid, m))
              && pid !in Apply(t, LockStep(pid, m)).waiting && (pid, m) in Apply(t, LockStep(pid, m)).holds
            else
              Enabled(t, LockStep(pid, m)) ==>
                && Apply(t, LockStep(pid, m)).waiting == t.waiting && Apply(t, LockStep(pid, m)).holds == t.holds
                && Apply(t, LockStep(pid, m)).table == t.table[pid := Blocked]
  {
    RunsWake(System([], table, map[], {}), steps, t);
  }

  // ---------------------------------------------------------------- exclusion, when holders unlock

  ghost predicate RunsByHolders(s: System, steps: seq<Step>, t: System)
    decreases |steps|
  {
    if steps == [] then t == s
    else Enabled(s, steps[0]) && ByHolder(s, steps[0]) && RunsByHolders(Apply(s, steps[0]), steps[1..], t)
  }

  ghost predicate HeldBySome(s: System, m: nat) {
    exists pid :: (pid, m) in s.holds
  }

  ghost predicate Inv(s: System) {
    && (forall pid, m | (pid, m) in s.holds :: m < |s.mutexes| && !s.mutexes[m].open)
    && (forall p, q, m | (p, m) in s.holds && (q, m) in s.holds :: p == q)
    && (forall m: nat | m < |s.mutexes| && !s.mutexes[m].open :: HeldBySome(s, m))
    && WakeInv(s)
  }

  lemma LockKeepsInv(s: System, pid: nat, m: nat)
    requires Inv(s) && Enabled(s, LockStep(pid, m))
    ensures Inv(Apply(s, LockStep(pid, m)))
  {
    StepKeepsWakeInv(s, LockStep(pid, m));
    var t := Apply(s, LockStep(pid, m));
    forall k: nat | k < |t.mutexes| && !t.mutexes[k].open ensures HeldBySome(t, k) {
      if k == m && s.mutexes[m].open {
        assert (pid, m) in t.holds;
      } else {
        assert HeldBySome(s, k);
        var p :| (p, k) in s.holds;
        assert (p, k) in t.holds;
      }
    }
  }

  lemma UnlockKeepsInv(s: System, pid: nat, m: nat)
    requires Inv(s) && Enabled(s, UnlockStep(pid, m)) && (pid, m) in s.holds
    ensures Inv(Apply(s, UnlockStep(pid, m)))
  {
    StepKeepsWakeInv(s, UnlockStep(pid, m));
    var t := Apply(s, UnlockStep(pid, m));
    forall k: nat | k < |t.mutexes| && !t.mutexes[k].open ensures HeldBySome(t, k) {
      assert HeldBySome(s, k);
      var p :| (p, k) in s.holds;
      assert (p, k) in t.holds;
    }
  }

  lemma StepKeepsInv(s: System, step: Step)
    requires Inv(s) && Enabled(s, step) && ByHolder(s, step)
    ensures Inv(Apply(s, step))
  {
    StepKeepsWakeInv(s, step);
    match step {
      case LockStep(pid, m) => LockKeepsInv(s, pid, m);
      case UnlockStep(pid, m) => UnlockKeepsInv(s, pid, m);
      case _ =>
        var t := Apply(s, step);
        forall k: nat | k < |t.mutexes| && !t.mutexes[k].open ensures HeldBySome(t, k) {
          assert HeldBySome(s, k);
        }
    }
  }

  lemma InitialInv(table: Table)
    ensures Inv(System([], table, map[], {}))
  {
  }

  /**
   * Over every interleaving in which holders unlock, spurious unblocks included: at most one
   * process is past "mutexLock" of a mutex, and there is one exactly while its value is 0.
   */
  lemma {:induction false} RunsSafe(s: System, steps: seq<Step>, t: System)
    requires Inv(s) && RunsByHolders(s, steps, t)
    ensures forall p, q, m | (p, m) in t.holds && (q, m) in t.holds :: p == q
    ensures forall m: nat | m < |t.mutexes| :: !t.mutexes[m].open <==> HeldBySome(t, m)
    ensures forall pid | pid in t.waiting && pid in t.table && t.table[pid] == Blocked ::
              t.waiting[pid] < |t.mutexes| && HeldBySome(t, t.waiting[pid])
    decreases |steps|
  {
    if steps != [] {
      StepKeepsInv(s, steps[0]);
      RunsSafe(Apply(s, steps[0]), steps[1..], t);
    }
  }

  // ---------------------------------------------------------------- whom an unlock touches

  /** Over every run a deleted process stays deleted, unless somebody outside this protocol changes its status. */
  lemma {:induction false} DeletedStaysDeleted(s: System, steps: seq<Step>, t: System, pid: nat)
    requires Runs(s, steps, t) && pid in s.table && s.table[pid] == Deleted
    requires forall step | step in steps :: step.OtherStep? ==> step.pid != pid
    ensures pid in t.table && t.table[pid] == Deleted
    decreases |steps|
  {
    if steps != [] {
      assert steps[0] in steps;
      match steps[0] {
        case UnlockStep(_, m) => UnlockEffect(s.mutexes[m], s.table);
        case _ =>
      }
      DeletedStaysDeleted(Apply(s, steps[0]), steps[1..], t, pid);
    }
  }

  lemma {:induction false} RecordedHaveTried(s: System, steps: seq<Step>, t: System, m: nat, p: nat)
    requires Runs(s, steps, t) && m < |t.mutexes| && p in t.mutexes[m].recorded
    requires m < |s.mutexes| ==> p !in s.mutexes[m].recorded
    ensures LockStep(p, m) in steps
    decreases |steps|
  {
    var step, next := steps[0], Apply(s, steps[0]);
    if m < |next.mutexes| && p in next.mutexes[m].recorded {
      assert step == LockStep(p, m);
    } else {
      RecordedHaveTried(next, steps[1..], t, m, p);
      assert forall x | x in steps[1..] :: x in steps;
    }
  }

  /**
   * Over every run: an unlock leaves the status of every process as it was that has not tried to lock this
   * mutex before, whatever it is blocked for.
   */
  lemma UnlockSparesStrangers(table: Table, steps: seq<Step>, t: System, pid: nat, m: nat, p: nat)
    requires Runs(System([], table, map[], {}), steps, t) && Enabled(t, UnlockStep(pid, m))
    requires p in t.table && LockStep(p, m) !in steps
    ensures p in Apply(t, UnlockStep(pid, m)).table && Apply(t, UnlockStep(pid, m)).table[p] == t.table[p]
  {
    if p in t.mutexes[m].recorded {
      RecordedHaveTried(System([], table, map[], {}), steps, t, m, p);
    }
    UnlockEffect(t.mutexes[m], t.table);
  }
}
