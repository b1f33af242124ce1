/**
 * The scheduler on its own data (Kernel/scheduler.c): a circular list of nodes
 * with the pointers "current" and "prev", refining the ring of SchedulerSpec.
 */
module Scheduler {
  import opened Processes
  import opened SchedulerSpec

  class Process {
    const pid: nat
    var status: Status
    var priority: nat
    var starvation: nat

    constructor (pid: nat)
      ensures this.pid == pid && status == Ready && priority == 3 && starvation == 0
    {
      this.pid := pid;
      status := Ready;
      priority := 3;
      starvation := 0;
    }
  }

  class Node {
    const p: Process
    var quantum: int
    var next: Node?

    constructor (p: Process)
      ensures this.p == p && quantum == QUANTUM
    {
      this.p := p;
      quantum := QUANTUM;
      next := null;
    }
  }

  /** The node after node number i of the ring. */
  ghost function After(ring: seq<Node>, i: nat): Node
    requires i < |ring|
  {
    if i + 1 < |ring| then ring[i + 1] else ring[0]
  }

  /** No node and no process occurs twice. */
  ghost predicate Distinct(ring: seq<Node>) {
    forall i, j | 0 <= i < j < |ring| :: ring[i] != ring[j] && ring[i].p != ring[j].p
  }

  /** Node number i of the ring points to its successor and holds its entry. */
  ghost predicate NodeOk(ring: seq<Node>, entries: seq<Entry>, i: nat)
    requires |entries| == |ring| && i < |ring|
    reads ring[i], ring[i].p
  {
    && ring[i].next == After(ring, i)
    && entries[i] == Entry(ring[i].p.pid, ring[i].p.status, ring[i].p.priority, ring[i].p.starvation, ring[i].quantum)
  }

  /** The nodes form one cycle in the order of the ring, and hold the entries. */
  ghost predicate Cycle(ring: seq<Node>, entries: seq<Entry>, nodes: set<Node>, procs: set<Process>)
    requires |entries| == |ring|
    reads nodes, procs
  {
    && Distinct(ring)
    && (forall i | 0 <= i < |ring| :: ring[i] in nodes && ring[i].p in procs)
    && forall i: nat | i < |ring| :: NodeOk(ring, entries, i)
  }

  class Scheduler {
    var current: Node?
    var prev: Node?
    var counter: int
    var priorityHandling: int
    var processes: int
    var processNumber: int
    ghost var ring: seq<Node>
    ghost var view: Sched
    ghost var nodes: set<Node>
    ghost var procs: set<Process>

    constructor ()
      ensures Valid() && view == Sched([], 0, 1, 0, 0) && nodes == {} && procs == {}
    {
      current := null;
      prev := null;
      counter := 0;
      priorityHandling := 1;
      processes := 0;
      processNumber := 0;
      ring := [];
      view := Sched([], 0, 1, 0, 0);
      nodes := {};
      procs := {};
    }

    ghost predicate Valid()
      reads this, nodes, procs
    {
      && |view.ring| == |ring| && Cycle(ring, view.ring, nodes, procs)
      && (if ring == [] then current == null else current == ring[0])
      && view.counter == counter && view.priorityHandling == priorityHandling
      && view.processes == processes && view.processNumber == processNumber
    }

    /** prev is the node before the current one. */
    ghost predicate Linked()
      reads this, nodes, procs
    {
      Valid() && ring != [] && prev == ring[|ring| - 1]
    }

    // ---------------------------------------------------------------- ring moves

    /** prev = current; current = current->next */
    method Advance()
      requires Valid() && ring != []
      modifies this`current, this`prev, this`ring, this`view
      ensures Linked() && view == old(view).(ring := Rotate(old(view.ring)))
    {
      RotateCycle(ring, view.ring, nodes, procs);
      prev := current;
      current := current.next;
      ring := Rotate(ring);
      view := view.(ring := Rotate(view.ring));
    }

    static lemma RotateCycle(ring: seq<Node>, entries: seq<Entry>, nodes: set<Node>, procs: set<Process>)
      requires |entries| == |ring| && ring != [] && Cycle(ring, entries, nodes, procs)
      ensures Cycle(Rotate(ring), Rotate(entries), nodes, procs)
      ensures ring[0].next == Rotate(ring)[0]
    {
      var r, e := Rotate(ring), Rotate(entries);
      assert NodeOk(ring, entries, 0);
      forall i: nat | i < |r| ensures r[i] in nodes && r[i].p in procs && NodeOk(r, e, i) {
        assert NodeOk(ring, entries, if i + 1 < |ring| then i + 1 else 0);
      }
    }

    /** prev->next = next; the current node is freed and its process leaves the table. */
    method Unlink()
      requires Linked() && |ring| >= 2
      modifies this`current, this`ring, this`view, this`processNumber, nodes`next
      ensures Linked()
      ensures view == old(view).(ring := old(view.ring)[1..], processNumber := old(view.processNumber) - 1)
    {
      ghost var r, e := ring, view.ring;
      assert NodeOk(r, e, 0);
      var next := current.next;
      prev.next := next;
      processNumber := processNumber - 1;
      current := next;
      ring := ring[1..];
      view := view.(ring := view.ring[1..], processNumber := view.processNumber - 1);
      forall i: nat | i < |ring| ensures NodeOk(ring, view.ring, i) {
        assert ring[i] == r[i + 1] && old(NodeOk(r, e, i + 1));
      }
    }

    // ---------------------------------------------------------------- selection

    /** One round of the loop that skips blocked and deleted processes. */
    method PassOverCurrent()
      requires Linked() && SomeRunnable(view.ring) && !Runnable(view.ring[0])
      modifies this`current, this`prev, this`ring, this`view, this`processNumber, nodes`next
      ensures Linked() && view == PassOver(old(view))
    {
      hide Cycle;
      var deleted := IsDeleted();
      if deleted {
        AnotherEntry(view.ring);
        Unlink();
      } else {
        Advance();
      }
    }

    static lemma AnotherEntry(ring: seq<Entry>)
      requires SomeRunnable(ring) && !Runnable(ring[0])
      ensures |ring| >= 2
    {
      var i :| 0 <= i < |ring| && Runnable(ring[i]);
    }

    /** starvation++, or back to zero once it exceeds the limit. */
    method StarveCurrent() returns (passed: bool)
      requires Linked()
      modifies this`view, procs`starvation
      ensures Linked() && view == old(view).(ring := old(view.ring)[0 := Starve(old(view.ring)[0])])
      ensures passed <==> old(view.ring)[0].starvation + 1 <= MAX_STARVATION
    {
      hide Cycle;
      var starvation := GetStarvation();
      SetStarvation(starvation + 1);
      passed := starvation + 1 <= MAX_STARVATION;
      if !passed {
        SetStarvation(0);
      }
    }

    method GetStarvation() returns (n: nat)
      requires Valid() && ring != []
      ensures n == view.ring[0].starvation
    {
      assert ring[0] in nodes && ring[0].p in procs && NodeOk(ring, view.ring, 0);
      n := current.p.starvation;
    }

    method SetStarvation(n: nat)
      requires Valid() && ring != []
      modifies this`view, procs`starvation
      ensures Valid() && view == old(view).(ring := old(view.ring)[0 := old(view.ring)[0].(starvation := n)])
    {
      assert ring[0] in nodes && ring[0].p in procs && NodeOk(ring, view.ring, 0);
      ghost var e := view.ring;
      current.p.starvation := n;
      view := view.(ring := view.ring[0 := view.ring[0].(starvation := n)]);
      forall i: nat | i < |ring| ensures NodeOk(ring, view.ring, i) {
        assert old(NodeOk(ring, e, i));
      }
    }

    /** counter++, and the next lower priority once every process has been handled. */
    method CountOne()
      requires Linked()
      modifies this`counter, this`priorityHandling, this`view
      ensures Linked() && view == Count(old(view))
    {
      counter := counter + 1;
      if processes <= counter {
        if priorityHandling != LOWEST_PRIORITY {
          priorityHandling := priorityHandling + 1;
          counter := 0;
        }
      }
      view := Count(view);
    }

    /** A change in the number of processes restarts the priorities. */
    method RefreshProcesses()
      requires Linked()
      modifies this`processes, this`priorityHandling, this`view
      ensures Linked() && view == Refresh(old(view))
    {
      if processes != processNumber {
        processes := processNumber;
        priorityHandling := 1;
      }
      view := Refresh(view);
    }

    method HasServedPriority() returns (matches: bool)
      requires Valid() && ring != []
      ensures matches == Matches(view)
    {
      assert ring[0] in nodes && ring[0].p in procs && NodeOk(ring, view.ring, 0);
      matches := current.p.priority == priorityHandling;
    }

    method IsDeleted() returns (deleted: bool)
      requires Valid() && ring != []
      ensures deleted == (view.ring[0].status == Deleted)
    {
      assert ring[0] in nodes && ring[0].p in procs && NodeOk(ring, view.ring, 0);
      deleted := current.p.status == Deleted;
    }

    /** isProcessBlocked or isProcessDeleted, of the current process. */
    method MustSkip() returns (skip: bool)
      requires Valid() && ring != []
      ensures skip == !Runnable(view.ring[0])
    {
      assert ring[0] in nodes && ring[0].p in procs && NodeOk(ring, view.ring, 0);
      skip := current.p.status == Blocked || current.p.status == Deleted;
    }

    /** The current process does not match the priority: pass it, unless it starves. */
    method PassOrChoose() returns (passed: bool)
      requires Linked() && Runnable(view.ring[0]) && !Matches(view)
      modifies this`current, this`prev, this`counter, this`priorityHandling, this`ring, this`view, procs`starvation
      ensures Linked() && passed == !Starved(old(view))
      ensures view == if passed then Passed(old(view)) else Chosen(old(view))
    {
      hide Cycle;
      passed := StarveCurrent();
      if passed {
        Advance();
      }
      CountOne();
    }

    method HandlePriority()
      requires Linked() && SomeRunnable(view.ring) && Runnable(view.ring[0])
      modifies this`current, this`prev, this`counter, this`priorityHandling, this`processes, this`processNumber,
               this`ring, this`view, nodes`next, procs`starvation
      ensures Linked() && view == Handle(old(view))
      decreases TotalSlack(view.ring), 0
    {
      hide Cycle;
      RefreshProcesses();
      ghost var r := view;
      var matches := HasServedPriority();
      if matches {
        counter := 0;
        view := view.(counter := 0);
      } else {
        var passed := PassOrChoose();
        if passed {
          PassedFacts(r);
          SetNextCurrent();
        }
      }
    }

    method SetNextCurrent()
      requires Linked() && SomeRunnable(view.ring)
      modifies this`current, this`prev, this`counter, this`priorityHandling, this`processes, this`processNumber,
               this`ring, this`view, nodes`next, procs`starvation
      ensures Linked() && view == SetNext(old(view))
      decreases TotalSlack(view.ring), 1
    {
      hide Cycle;
      ghost var goal := Skip(view);
      var skip := MustSkip();
      while skip
        invariant Linked() && SomeRunnable(view.ring) && skip == !Runnable(view.ring[0])
        invariant Skip(view) == goal
        decreases Distance(view.ring)
      {
        PassOverFacts(view);
        PassOverCurrent();
        skip := MustSkip();
      }
      HandlePriority();
    }

    // ---------------------------------------------------------------- entry points

    /** nextProcess: one tick, or one yield when the quantum has been cleared. */
    method NextProcess()
      requires Valid() && TickEnds(view)
      modifies this`current, this`prev, this`counter, this`priorityHandling, this`processes, this`processNumber,
               this`ring, this`view, nodes, procs`starvation, procs`status
      ensures Valid()
      ensures view == Tick(old(view)) && (old(ring) == [] ==> view == old(view))
      ensures Linked() <==> old(Linked()) || (old(ring) != [] && Expires(old(view)))
    {
      if current == null {
        return;
      }
      assert ring[0] in nodes && ring[0].p in procs && NodeOk(ring, view.ring, 0);
      ghost var t := UseQuantum(view);
      DecreaseQuantum();
      assert view == t;
      var q := GetQuantum();
      if q <= 0 {
        SwitchProcess();
      }
    }

    /** The part of nextProcess that runs when the quantum is used up. */
    method SwitchProcess()
      requires Valid() && SomeRunnable(view.ring)
      modifies this`current, this`prev, this`counter, this`priorityHandling, this`processes, this`processNumber,
               this`ring, this`view, nodes, procs`starvation, procs`status
      ensures Linked() && view == Switch(old(view))
    {
      hide Cycle;
      ExpireKeepsRunnable(view);
      Requeue();
      SetNextCurrent();
      SetStatus(Running);
    }

    /** The current process gets a new quantum and goes to the end of the ring. */
    method Requeue()
      requires Valid() && ring != []
      modifies this`current, this`prev, this`ring, this`view, nodes`quantum, procs`status
      ensures Linked() && view == Expire(old(view))
    {
      SetQuantum(QUANTUM);
      assert ring[0] in nodes && ring[0].p in procs && NodeOk(ring, view.ring, 0);
      if current.p.status == Running {
        SetStatus(Ready);
      }
      Advance();
    }

    method IncreaseQuantum()
      requires Valid() && ring != []
      modifies this`view, nodes`quantum
      ensures Valid()
      ensures view == old(view).(ring := old(view.ring)[0 := old(view.ring)[0].(quantum := old(view.ring)[0].quantum + 1)])
    {
      hide Cycle;
      var q := GetQuantum();
      SetQuantum(q + 1);
    }

    method DecreaseQuantum()
      requires Valid() && ring != []
      modifies this`view, nodes`quantum
      ensures Valid()
      ensures view == old(view).(ring := old(view.ring)[0 := old(view.ring)[0].(quantum := old(view.ring)[0].quantum - 1)])
    {
      hide Cycle;
      var q := GetQuantum();
      SetQuantum(q - 1);
    }

    /** current->next->quantum += 1 */
    method IncreaseNextQuantum()
      requires Valid() && ring != []
      modifies this`view, nodes`quantum
      ensures Valid() && view == DonateOne(old(view))
    {
      ghost var e := view.ring;
      ghost var d := if |ring| > 1 then 1 else 0;
      assert ring[0] in nodes && NodeOk(ring, e, 0) && NodeOk(ring, e, d);
      current.next.quantum := current.next.quantum + 1;
      view := DonateOne(view);
      forall i: nat | i < |ring| ensures NodeOk(ring, view.ring, i) {
        assert old(NodeOk(ring, e, i));
      }
    }

    /** yieldProcess, and the interrupt that it raises. */
    method YieldProcess()
      requires Valid() && SomeRunnable(view.ring)
      modifies this`current, this`prev, this`counter, this`priorityHandling, this`processes, this`processNumber,
               this`ring, this`view, nodes, procs`starvation, procs`status
      ensures Linked() && view == Tick(Donate(old(view)))
    {
      hide Cycle;
      ghost var t := Donate(view);
      IncreaseNextQuantum();
      SetQuantum(0);
      assert view == t;
      NextProcess();
    }

    method GetQuantum() returns (q: int)
      requires Valid() && ring != []
      ensures q == view.ring[0].quantum
    {
      assert ring[0] in nodes && NodeOk(ring, view.ring, 0);
      q := current.quantum;
    }

    method SetQuantum(q: int)
      requires Valid() && ring != []
      modifies this`view, nodes`quantum
      ensures Valid() && view == old(view).(ring := old(view.ring)[0 := old(view.ring)[0].(quantum := q)])
    {
      assert ring[0] in nodes;
      ghost var e := view.ring;
      current.quantum := q;
      view := view.(ring := view.ring[0 := view.ring[0].(quantum := q)]);
      forall i: nat | i < |ring| ensures NodeOk(ring, view.ring, i) {
        assert old(NodeOk(ring, e, i));
      }
    }

    method SetStatus(status: Status)
      requires Valid() && ring != []
      modifies this`view, procs`status
      ensures Valid() && view == old(view).(ring := old(view.ring)[0 := old(view.ring)[0].(status := status)])
    {
      assert ring[0] in nodes && ring[0].p in procs && NodeOk(ring, view.ring, 0);
      ghost var e := view.ring;
      current.p.status := status;
      view := view.(ring := view.ring[0 := view.ring[0].(status := status)]);
      forall i: nat | i < |ring| ensures NodeOk(ring, view.ring, i) {
        assert old(NodeOk(ring, e, i));
      }
    }

    // ---------------------------------------------------------------- the process table

    /** insertProcess counts a process, before it is added, if it finds a free slot in the table. */
    method InsertProcess()
      requires Valid()
      modifies this`processNumber, this`view
      ensures Valid() && view == Insert(old(view))
      ensures Linked() <==> old(Linked())
    {
      if processNumber < MAX_PROCESSES {
        processNumber := processNumber + 1;
      }
      view := Insert(view);
    }

    /** The process of node number place, counted from the current one. */
    method ProcessAt(place: nat) returns (p: Process)
      requires Valid() && place < |ring|
      ensures p == ring[place].p && p in procs
    {
      var node, i := current, 0;
      while i < place
        invariant i <= place && node == ring[i]
      {
        assert NodeOk(ring, view.ring, i);
        node := node.next;
        i := i + 1;
      }
      p := node.p;
    }

    /** blockProcess, unblockProcess or deleteProcess: a deleted process is left alone. */
    method ChangeStatus(p: Process, status: Status, ghost place: nat)
      requires Valid() && place < |ring| && p == ring[place].p
      modifies this`view, procs`status
      ensures Valid() && (Linked() <==> old(Linked()))
      ensures view == if old(view.ring)[place].status != Deleted then
                        old(view).(ring := old(view.ring)[place := old(view.ring)[place].(status := status)])
                      else old(view)
    {
      ghost var e := view.ring;
      assert p in procs && NodeOk(ring, e, place);
      if p.status == Deleted {
        return;
      }
      p.status := status;
      view := view.(ring := e[place := e[place].(status := status)]);
      forall i: nat | i < |ring| ensures NodeOk(ring, view.ring, i) {
        assert old(NodeOk(ring, e, i));
      }
    }

    /** setPriority */
    method ChangePriority(p: Process, priority: nat, ghost place: nat)
      requires Valid() && place < |ring| && p == ring[place].p
      modifies this`view, procs`priority
      ensures Valid() && (Linked() <==> old(Linked()))
      ensures view == if 1 <= priority <= 3 then
                        old(view).(ring := old(view.ring)[place := old(view.ring)[place].(priority := priority)])
                      else old(view)
    {
      ghost var e := view.ring;
      assert p in procs && NodeOk(ring, e, place);
      if priority < 1 || priority > 3 {
        return;
      }
      p.priority := priority;
      view := view.(ring := e[place := e[place].(priority := priority)]);
      forall i: nat | i < |ring| ensures NodeOk(ring, view.ring, i) {
        assert old(NodeOk(ring, e, i));
      }
    }

    // ---------------------------------------------------------------- joining and leaving

    /** addProcess: a new node right after the current one. */
    method AddProcess(p: Process)
      requires Valid() && forall i | 0 <= i < |ring| :: ring[i].p != p
      modifies this`current, this`prev, this`ring, this`view, this`nodes, this`procs, nodes`next
      ensures Valid() && view == Add(old(view), Entry(p.pid, p.status, p.priority, p.starvation, QUANTUM))
      ensures view == old(view).(ring :=
                if old(view.ring) == [] then [Entry(p.pid, p.status, p.priority, p.starvation, 1)]
                else [old(view.ring)[0], Entry(p.pid, p.status, p.priority, p.starvation, 1)] + old(view.ring)[1..])
      ensures Linked() <==> old(ring) == [] || (|old(ring)| >= 2 && old(Linked()))
      ensures |old(ring)| == 1 && old(Linked()) ==> prev == current
      ensures old(nodes) <= nodes && fresh(nodes - old(nodes)) && procs == old(procs) + {p}
    {
      hide Cycle;
      ghost var e := Entry(p.pid, p.status, p.priority, p.starvation, QUANTUM);
      var n := new Node(p);
      if current == null {
        AddFirst(n, e);
      } else {
        AddNext(n, e);
      }
    }

    /** The first node points at itself, and is its own predecessor. */
    method AddFirst(n: Node, ghost e: Entry)
      requires Valid() && ring == []
      requires e == Entry(n.p.pid, n.p.status, n.p.priority, n.p.starvation, n.quantum)
      modifies this`current, this`prev, this`ring, this`view, this`nodes, this`procs, n`next
      ensures Linked() && view == old(view).(ring := [e])
      ensures nodes == old(nodes) + {n} && procs == old(procs) + {n.p}
    {
      current := n;
      current.next := current;
      prev := current;
      nodes, procs := nodes + {n}, procs + {n.p};
      ring := [n];
      view := view.(ring := [e]);
    }

    /** A further node comes after the current one. */
    method AddNext(n: Node, ghost e: Entry)
      requires Valid() && ring != [] && n !in nodes
      requires forall i | 0 <= i < |ring| :: ring[i].p != n.p
      requires e == Entry(n.p.pid, n.p.status, n.p.priority, n.p.starvation, n.quantum)
      modifies this`ring, this`view, this`nodes, this`procs, nodes`next, n`next
      ensures nodes == old(nodes) + {n} && procs == old(procs) + {n.p}
      ensures Valid() && ring == [old(ring)[0], n] + old(ring)[1..]
      ensures view == old(view).(ring := [old(view.ring)[0], e] + old(view.ring)[1..])
    {
      assert NodeOk(ring, view.ring, 0);
      n.next := current.next;
      CycleGrows(ring, view.ring, nodes, procs, nodes + {n}, procs + {n.p});
      nodes, procs := nodes + {n}, procs + {n.p};
      InsertAfterCurrent(n, e);
    }

    static lemma CycleGrows(ring: seq<Node>, entries: seq<Entry>, nodes: set<Node>, procs: set<Process>,
                            nodes': set<Node>, procs': set<Process>)
      requires |entries| == |ring| && Cycle(ring, entries, nodes, procs) && nodes <= nodes' && procs <= procs'
      ensures Cycle(ring, entries, nodes', procs')
      ensures forall i | 0 <= i < |ring| :: ring[i] in nodes
    {
    }

    /** current->next = node */
    method InsertAfterCurrent(n: Node, ghost e: Entry)
      requires Valid() && ring != [] && n in nodes && n.p in procs && n.next == After(ring, 0)
      requires forall i | 0 <= i < |ring| :: ring[i] != n && ring[i].p != n.p
      requires e == Entry(n.p.pid, n.p.status, n.p.priority, n.p.starvation, n.quantum)
      modifies this`ring, this`view, nodes`next
      ensures Valid() && ring == [old(ring)[0], n] + old(ring)[1..]
      ensures view == old(view).(ring := [old(view.ring)[0], e] + old(view.ring)[1..])
    {
      ghost var r, f := ring, view.ring;
      assert r[0] in nodes && NodeOk(r, f, 0);
      current.next := n;
      ring := [r[0], n] + r[1..];
      view := view.(ring := [view.ring[0], e] + view.ring[1..]);
      forall i: nat | i < |ring| ensures ring[i] in nodes && ring[i].p in procs && NodeOk(ring, view.ring, i) {
        if i >= 2 {
          assert ring[i] == r[i - 1] && old(NodeOk(r, f, i - 1));
        }
      }
    }

    /** The link of a node after the write of killProcess, prev->next = current->next. */
    ghost function LinkAfterKill(n: Node): Node?
      requires current != null
      reads this, current, n
    {
      if n == prev then current.next else n.next
    }

    /**
     * The write takes the killed node out of the cycle exactly when prev is the last node;
     * otherwise, as right after the second process has been added, the last node still leads to
     * the killed one.
     */
    lemma KillUnlinksIff()
      requires Valid() && |ring| >= 2
      ensures ring[|ring| - 1] in nodes && current in nodes
      ensures LinkAfterKill(ring[|ring| - 1]) == ring[1] <==> Linked()
      ensures !Linked() ==> LinkAfterKill(ring[|ring| - 1]) == current
    {
      assert NodeOk(ring, view.ring, 0) && NodeOk(ring, view.ring, |ring| - 1);
    }

    /** killProcess, up to the switch to the process that it selects. */
    method KillProcess()
      requires Linked() && |ring| >= 2 && SomeRunnable(view.ring[1..])
      modifies this`current, this`prev, this`counter, this`priorityHandling, this`processes, this`processNumber,
               this`ring, this`view, nodes, procs`starvation
      ensures Linked() && view == Kill(old(view))
    {
      hide Cycle;
      Unlink();
      SetNextCurrent();
      IncreaseQuantum();
    }
  }
}
