/**
 * The byte pipe on values, and the protocol by which its readers wait
 * (Kernel/pipesADT.c).
 */
module PipeSpec {
  import opened Wrappers
  import opened Processes
  import opened Waiters

  datatype Pipe = Pipe(buffer: seq<bv8>, waiters: seq<Waiter>, table: Table)

  /** "unblockProcessesPipe" keeps the waiters that ask for more than there is. */
  function StillWaiting(available: nat, ws: seq<Waiter>): seq<Waiter> {
    if ws == [] then [] else
      StillWaiting(available, ws[..|ws| - 1])
      + (if ws[|ws| - 1].size <= available then [] else [ws[|ws| - 1]])
  }

  function WakeUp(available: nat, ws: seq<Waiter>, table: Table): Table {
    if ws == [] then table else
      var t := WakeUp(available, ws[..|ws| - 1], table);
      if ws[|ws| - 1].size <= available then Unblock(t, ws[|ws| - 1].pid) else t
  }

  lemma {:induction false} StillWaitingMembers(available: nat, ws: seq<Waiter>, w: Waiter)
    ensures w in StillWaiting(available, ws) <==> w in ws && w.size > available
  {
    if ws != [] {
      StillWaitingMembers(available, ws[..|ws| - 1], w);
      assert ws == ws[..|ws| - 1] + [ws[|ws| - 1]];
    }
  }

  /** Waking leaves no process blocked that had a waiter which is gone, and blocks nobody. */
  lemma {:induction false} WakeUpEffect(available: nat, ws: seq<Waiter>, table: Table, pid: nat)
    ensures var t := WakeUp(available, ws, table);
            && t.Keys == table.Keys
            && (pid in t && t[pid] == Blocked ==>
                  table[pid] == Blocked && forall w | w in ws && w.pid == pid :: w.size > available)
  {
    if ws != [] {
      WakeUpEffect(available, ws[..|ws| - 1], table, pid);
      assert ws == ws[..|ws| - 1] + [ws[|ws| - 1]];
    }
  }

  /** "sendMessagePipe" */
  function Send(p: Pipe, text: seq<bv8>): Pipe {
    var buffer := p.buffer + text;
    Pipe(buffer, StillWaiting(|buffer|, p.waiters), WakeUp(|buffer|, p.waiters, p.table))
  }

  /** One pass of "receiveMessagePipe" by a process: it gets its bytes, or it blocks. */
  function Receive(p: Pipe, pid: nat, n: nat): (Pipe, Option<seq<bv8>>) {
    if |p.buffer| < n then
      (Pipe(p.buffer, [Waiter(pid, 0, n)] + p.waiters, Block(p.table, pid)), None)
    else
      (p.(buffer := p.buffer[n..]), Some(p.buffer[..n]))
  }

  // ---------------------------------------------------------------- exact effects

  /** The waiters that ask for more than there is, in order. */
  ghost function Staying(ws: seq<Waiter>, available: nat): seq<Waiter> {
    if ws == [] then [] else (if ws[0].size > available then [ws[0]] else []) + Staying(ws[1..], available)
  }

  /** The process has a waiter that asks for no more than there is. */
  ghost predicate HasCovered(ws: seq<Waiter>, pid: nat, available: nat) {
    exists w :: w in ws && w.pid == pid && w.size <= available
  }

  lemma {:induction false} StayingLast(ws: seq<Waiter>, w: Waiter, available: nat)
    ensures Staying(ws + [w], available) == Staying(ws, available) + if w.size > available then [w] else []
  {
    if ws == [] {
      assert [w][1..] == [];
    } else {
      StayingLast(ws[1..], w, available);
      assert (ws + [w])[1..] == ws[1..] + [w];
    }
  }

  lemma CoveredLast(ws: seq<Waiter>, w: Waiter, pid: nat, available: nat)
    ensures HasCovered(ws + [w], pid, available) <==>
            HasCovered(ws, pid, available) || (w.pid == pid && w.size <= available)
  {
    assert forall x :: x in ws + [w] <==> x in ws || x == w;
  }

  lemma {:induction false} SweepWaiters(available: nat, ws: seq<Waiter>)
    ensures StillWaiting(available, ws) == Staying(ws, available)
  {
    if ws != [] {
      var front, w := ws[..|ws| - 1], ws[|ws| - 1];
      SweepWaiters(available, front);
      StayingLast(front, w, available);
      assert ws == front + [w];
    }
  }

  lemma {:induction false} SweepStatus(available: nat, ws: seq<Waiter>, table: Table, pid: nat)
    ensures WakeUp(available, ws, table).Keys == table.Keys
    ensures pid in table ==>
              WakeUp(available, ws, table)[pid]
              == if table[pid] != Deleted && HasCovered(ws, pid, available) then Ready else table[pid]
  {
    if ws != [] {
      var front, w := ws[..|ws| - 1], ws[|ws| - 1];
      SweepStatus(available, front, table, pid);
      CoveredLast(front, w, pid, available);
      assert ws == front + [w];
      hide HasCovered;
    }
  }

  /**
   * A send, exactly: the text comes last; the waiters that ask for more than there is then stay, in order; and
   * a process is made ready if it had another one, unless it is deleted, while every other status stays.
   */
  lemma SendEffect(p: Pipe, text: seq<bv8>)
    ensures var q := Send(p, text);
            var available := |p.buffer| + |text|;
            && q.buffer == p.buffer + text
            && q.waiters == Staying(p.waiters, available)
            && q.table.Keys == p.table.Keys
            && forall pid | pid in p.table ::
                 q.table[pid]
                 == if p.table[pid] != Deleted && HasCovered(p.waiters, pid, available) then Ready else p.table[pid]
  {
    var available := |p.buffer| + |text|;
    SweepWaiters(available, p.waiters);
    SweepStatus(available, p.waiters, p.table, 0);
    forall pid | pid in p.table
      ensures pid in Send(p, text).table
      ensures Send(p, text).table[pid]
              == if p.table[pid] != Deleted && HasCovered(p.waiters, pid, available) then Ready else p.table[pid]
    {
      SweepStatus(available, p.waiters, p.table, pid);
    }
  }

  /**
   * One pass of a receive, exactly: with enough bytes it takes the first ones and changes nothing else;
   * otherwise it only adds its process in front of the waiters and blocks it, unless it is deleted.
   */
  lemma ReceiveEffect(p: Pipe, pid: nat, n: nat)
    ensures var (q, bytes) := Receive(p, pid, n);
            if n <= |p.buffer| then
              q == Pipe(p.buffer[n..], p.waiters, p.table) && bytes == Some(p.buffer[..n])
            else
              && q.buffer == p.buffer && q.waiters == [Waiter(pid, 0, n)] + p.waiters && bytes == None
              && q.table.Keys == p.table.Keys
              && forall k | k in p.table ::
                   q.table[k] == if k == pid && p.table[k] != Deleted then Blocked else p.table[k]
  {
  }

  // ---------------------------------------------------------------- the protocol

  /**
   * The pipe with the processes that are inside "receiveMessagePipe" between blocking and
   * trying again, each with its request, and all bytes sent and delivered so far.
   */
  datatype System = System(p: Pipe, pending: map<nat, nat>, sent: seq<bv8>, delivered: seq<bv8>)

  datatype Step =
    | SendStep(text: seq<bv8>)
    | ReceiveStep(pid: nat, n: nat)
    | UnblockStep(pid: nat)
    | DeleteStep(pid: nat)
    | OtherStep(pid: nat, status: Status)

  predicate CanRun(t: Table, pid: nat) {
    pid in t && t[pid] != Blocked && t[pid] != Deleted
  }

  /** A waiting process tries again with its own request; a spurious unblock may hit anybody. */
  predicate Enabled(s: System, step: Step) {
    match step
    case SendStep(_) => true
    case ReceiveStep(pid, n) => CanRun(s.p.table, pid) && (pid in s.pending ==> s.pending[pid] == n)
    case UnblockStep(pid) => true
    case DeleteStep(pid) => true
    case OtherStep(pid, status) => pid in s.p.table && pid !in s.pending
  }

  function Apply(s: System, step: Step): System {
    match step
    case SendStep(text) => s.(p := Send(s.p, text), sent := s.sent + text)
    case ReceiveStep(pid, n) =>
      (match Receive(s.p, pid, n)
       case (p, None) => s.(p := p, pending := s.pending[pid := n])
       case (p, Some(bytes)) => s.(p := p, pending := s.pending - {pid}, delivered := s.delivered + bytes))
    case UnblockStep(pid) => s.(p := s.p.(table := Unblock(s.p.table, pid)))
    case DeleteStep(pid) => s.(p := s.p.(table := Delete(s.p.table, pid)))
    case OtherStep(pid, status) => s.(p := s.p.(table := s.p.table[pid := status]))
  }

  ghost predicate Runs(s: System, steps: seq<Step>, t: System)
    decreases |steps|
  {
    if steps == [] then t == s else Enabled(s, steps[0]) && Runs(Apply(s, steps[0]), steps[1..], t)
  }

  ghost predicate Inv(s: System) {
    && (forall w | w in s.p.waiters :: w.size > |s.p.buffer|)
    && (forall pid | pid in s.pending && pid in s.p.table && s.p.table[pid] == Blocked ::
          Waiter(pid, 0, s.pending[pid]) in s.p.waiters)
    && s.sent == s.delivered + s.p.buffer
  }

  lemma InitialInv(table: Table)
    ensures Inv(System(Pipe([], [], table), map[], [], []))
  {
  }

  lemma SendKeepsInv(s: System, text: seq<bv8>)
    requires Inv(s)
    ensures Inv(Apply(s, SendStep(text)))
  {
    var t := Apply(s, SendStep(text));
    var n := |t.p.buffer|;
    forall w | w in t.p.waiters ensures w.size > n {
      StillWaitingMembers(n, s.p.waiters, w);
    }
    forall pid | pid in t.pending && pid in t.p.table && t.p.table[pid] == Blocked
      ensures Waiter(pid, 0, t.pending[pid]) in t.p.waiters
    {
      WakeUpEffect(n, s.p.waiters, s.p.table, pid);
      StillWaitingMembers(n, s.p.waiters, Waiter(pid, 0, s.pending[pid]));
    }
    assert (s.delivered + s.p.buffer) + text == s.delivered + (s.p.buffer + text);
  }

  lemma ReceiveKeepsInv(s: System, pid: nat, n: nat)
    requires Inv(s) && Enabled(s, ReceiveStep(pid, n))
    ensures Inv(Apply(s, ReceiveStep(pid, n)))
  {
    var b := s.p.buffer;
    if n <= |b| {
      assert s.delivered + b == (s.delivered + b[..n]) + b[n..];
    }
  }

  lemma StepKeepsInv(s: System, step: Step)
    requires Inv(s) && Enabled(s, step)
    ensures Inv(Apply(s, step))
  {
    match step {
      case SendStep(text) => SendKeepsInv(s, text);
      case ReceiveStep(pid, n) => ReceiveKeepsInv(s, pid, n);
      case _ =>
    }
  }

  /**
   * Over every interleaving: the bytes received, followed by the buffered ones, are the
   * bytes sent; and a process blocked in "receiveMessagePipe" is queued for more bytes
   * than there are.
   */
  lemma {:induction false} RunsSafe(s: System, steps: seq<Step>, t: System)
    requires Inv(s) && Runs(s, steps, t)
    ensures t.sent == t.delivered + t.p.buffer
    ensures forall w | w in t.p.waiters :: w.size > |t.p.buffer|
    ensures forall pid | pid in t.pending && pid in t.p.table && t.p.table[pid] == Blocked ::
              Waiter(pid, 0, t.pending[pid]) in t.p.waiters && t.pending[pid] > |t.p.buffer|
    decreases |steps|
  {
    if steps != [] {
      StepKeepsInv(s, steps[0]);
      RunsSafe(Apply(s, steps[0]), steps[1..], t);
    }
  }

  /**
   * While there are enough bytes for it a process inside "receiveMessagePipe" can run, and its next
   * pass delivers the first bytes buffered and ends its wait; while there are not, a pass only blocks
   * it again.
   */
  lemma ReceiveWhileCovered(table: Table, steps: seq<Step>, t: System, pid: nat)
    requires Runs(System(Pipe([], [], table), map[], [], []), steps, t)
    requires pid in t.pending && pid in t.p.table && t.p.table[pid] != Deleted
    ensures var n := t.pending[pid];
            var next := Apply(t, ReceiveStep(pid, n));
            if n <= |t.p.buffer| then
              && Enabled(t, ReceiveStep(pid, n)) && pid !in next.pending
              && next.delivered == t.delivered + t.p.buffer[..n] && next.p.buffer == t.p.buffer[n..]
            else
              && next.pending == t.pending && next.delivered == t.delivered && next.p.buffer == t.p.buffer
              && next.p.table == t.p.table[pid := Blocked] && Waiter(pid, 0, n) in next.p.waiters
  {
    InitialInv(table);
    RunsSafe(System(Pipe([], [], table), map[], [], []), steps, t);
  }

  /** Over every run a deleted process stays deleted, unless somebody outside this protocol changes its status. */
  lemma {:induction false} DeletedStaysDeleted(s: System, steps: seq<Step>, t: System, pid: nat)
    requires Runs(s, steps, t) && pid in s.p.table && s.p.table[pid] == Deleted
    requires forall step | step in steps :: step.OtherStep? ==> step.pid != pid
    ensures pid in t.p.table && t.p.table[pid] == Deleted
    decreases |steps|
  {
    if steps != [] {
      assert steps[0] in steps;
      match steps[0] {
        case SendStep(text) => SendEffect(s.p, text);
        case _ =>
      }
      DeletedStaysDeleted(Apply(s, steps[0]), steps[1..], t, pid);
    }
  }
}
