/**
 * Process statuses and the table of processes, as far as the scheduler and the
 * communication primitives rely on them (Kernel/processes.c).
 */
module Processes {

  const MAX_PROCESSES: nat := 32

  datatype Status = Running | Ready | Blocked | Deleted

  /** Status of every process in the table. */
  type Table = map<nat, Status>

  /** A deleted process, or one that is not in the table, is left alone. */
  function Block(t: Table, pid: nat): Table {
    if pid in t && t[pid] != Deleted then t[pid := Blocked] else t
  }

  function Unblock(t: Table, pid: nat): Table {
    if pid in t && t[pid] != Deleted then t[pid := Ready] else t
  }

  function Delete(t: Table, pid: nat): Table {
    if pid in t then t[pid := Deleted] else t
  }

  class ProcessTable {
    var status: Table

    constructor ()
      ensures status == map[]
    {
      status := map[];
    }

    method BlockProcess(pid: nat)
      modifies this
      ensures status == Block(old(status), pid)
    {
      if pid in status && status[pid] != Deleted {
        status := status[pid := Blocked];
      }
    }

    method UnblockProcess(pid: nat)
      modifies this
      ensures status == Unblock(old(status), pid)
    {
      if pid in status && status[pid] != Deleted {
        status := status[pid := Ready];
      }
    }
  }
}
