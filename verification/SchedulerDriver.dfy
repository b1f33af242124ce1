/**
 * Any run of SchedulerRuns, performed on the scheduler's own data: every enabled
 * step is a call that the scheduler accepts, and the views stay the same.
 */
module SchedulerDriver {
  import opened SchedulerSpec
  import opened SchedulerRuns
  import Scheduler

  /** The data are in the state of the run; prev is in place exactly when the run says so. */
  ghost predicate Matches(sch: Scheduler.Scheduler, y: System)
    reads sch, sch.nodes, sch.procs
  {
    sch.Valid() && sch.view == y.s && (sch.Linked() <==> y.linked)
  }

  method Perform(sch: Scheduler.Scheduler, step: Step, ghost y: System)
    requires Matches(sch, y) && Enabled(y, step)
    modifies sch, sch.nodes, sch.procs
    ensures Matches(sch, Apply(y, step))
    ensures fresh(sch.nodes - old(sch.nodes)) && fresh(sch.procs - old(sch.procs))
  {
    match step {
      case TickStep => sch.NextProcess();
      case YieldStep => sch.YieldProcess();
      case AddStep(pid) => Join(sch, pid, y);
      case KillStep => sch.KillProcess();
      case StatusStep(place, status) =>
        var p := sch.ProcessAt(place);
        sch.ChangeStatus(p, status, place);
      case PriorityStep(place, priority) =>
        var p := sch.ProcessAt(place);
        sch.ChangePriority(p, priority, place);
    }
  }

  /** createProcess and addProcess */
  method Join(sch: Scheduler.Scheduler, pid: nat, ghost y: System)
    requires Matches(sch, y) && Enabled(y, AddStep(pid))
    modifies sch, sch.nodes
    ensures Matches(sch, Apply(y, AddStep(pid)))
    ensures fresh(sch.nodes - old(sch.nodes)) && fresh(sch.procs - old(sch.procs))
  {
    var p := new Scheduler.Process(pid);
    sch.InsertProcess();
    sch.AddProcess(p);
  }

  /** All steps of a run, one after the other, from an empty scheduler. */
  method Execute(steps: seq<Step>, ghost z: System) returns (sch: Scheduler.Scheduler)
    requires Runs(Initial(), steps, z)
    ensures Matches(sch, z)
  {
    sch := new Scheduler.Scheduler();
    ghost var y := Initial();
    var i := 0;
    while i < |steps|
      invariant i <= |steps| && fresh(sch) && fresh(sch.nodes) && fresh(sch.procs)
      invariant Matches(sch, y) && Runs(y, steps[i..], z)
    {
      assert steps[i..][0] == steps[i] && steps[i..][1..] == steps[i + 1..];
      Perform(sch, steps[i], y);
      y := Apply(y, steps[i]);
      i := i + 1;
    }
  }
}
