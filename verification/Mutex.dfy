/**
 * The mutex on its own data (Kernel/mutex.c): the exchanged value and the array
 * of recorded processes.  A pass of mutexLock and mutexUnlock run without a
 * switch up to the yield that ends them.
 */
module Mutex {
  import opened Processes
  import MutexSpec

  ghost function Recorded(flags: seq<bool>): set<nat> {
    set pid: nat | pid < |flags| && flags[pid]
  }

  class Mutex {
    var value: int
    const blockedProcesses: array<bool>
    const table: ProcessTable

    constructor (table: ProcessTable)
      ensures Valid() && this.table == table && Abs() == MutexSpec.Mutex(true, {})
      ensures fresh(blockedProcesses)
    {
      value := 1;
      blockedProcesses := new bool[MAX_PROCESSES](_ => false);
      this.table := table;
    }

    ghost predicate Valid()
      reads this
    {
      blockedProcesses.Length == MAX_PROCESSES && (value == 0 || value == 1)
    }

    ghost function Abs(): MutexSpec.Mutex
      reads this, blockedProcesses
      requires Valid()
    {
      MutexSpec.Mutex(value != 0, Recorded(blockedProcesses[..]))
    }

    /** One pass of mutexLock by process pid. */
    method LockPass(pid: nat) returns (locked: bool)
      requires Valid() && pid < MAX_PROCESSES
      modifies this, blockedProcesses, table
      ensures Valid() && (Abs(), table.status, locked) == MutexSpec.Lock(old(Abs()), old(table.status), pid)
    {
      if value == 0 {
        table.BlockProcess(pid);
        blockedProcesses[pid] := true;
        assert Recorded(blockedProcesses[..]) == old(Recorded(blockedProcesses[..])) + {pid};
        return false;
      }
      value := 0;
      return true;
    }

    /** mutexUnlock, whoever calls it. */
    method MutexUnlock()
      requires Valid()
      modifies this, table
      ensures Valid() && (Abs(), table.status) == MutexSpec.Unlock(old(Abs()), old(table.status))
    {
      ghost var t := table.status;
      var i := 0;
      while i < MAX_PROCESSES
        invariant i <= MAX_PROCESSES && Valid()
        invariant table.status == MutexSpec.UnblockAll(t, Recorded(blockedProcesses[..i]))
      {
        if blockedProcesses[i] {
          table.UnblockProcess(i);
        }
        i := i + 1;
      }
      assert blockedProcesses[..i] == blockedProcesses[..];
      value := 1;
    }
  }
}
