/**
 * The message queue on its own data (Kernel/messageQueueADT.c): doubly linked
 * messages with buffers that are shifted in place, and the list of waiters.
 *
 * The queue's mutex is held from mutexLock to mutexUnlock without a yield in
 * between, so at every switch it is free; each method below is one such section.
 */
module MessageQueue {
  import opened Wrappers
  import opened Processes
  import opened Waiters
  import opened MessageQueueSpec

  class MessageNode {
    const category: int
    const msg: array<bv8>
    var length: nat
    var tail: MessageNode?
    var head: MessageNode?

    constructor (category: int, msg: array<bv8>, length: nat)
      ensures this.category == category && this.msg == msg && this.length == length
      ensures tail == null && head == null
    {
      this.category := category;
      this.msg := msg;
      this.length := length;
      tail := null;
      head := null;
    }
  }

  ghost function Buffers(nodes: seq<MessageNode>): set<array<bv8>> {
    set n: MessageNode | n in nodes :: n.msg
  }

  /** No node and no buffer occurs twice. */
  ghost predicate Separate(nodes: seq<MessageNode>) {
    forall i, j | 0 <= i < j < |nodes| :: nodes[i] != nodes[j] && nodes[i].msg != nodes[j].msg
  }

  ghost function FirstOf(nodes: seq<MessageNode>): MessageNode? {
    if nodes == [] then null else nodes[0]
  }

  ghost function LastOf(nodes: seq<MessageNode>): MessageNode? {
    if nodes == [] then null else nodes[|nodes| - 1]
  }

  /** Node number i is linked to its neighbours and holds its message. */
  ghost predicate NodeOk(nodes: seq<MessageNode>, msgs: seq<Msg>, before: MessageNode?, i: nat)
    requires |nodes| == |msgs| && i < |nodes|
    reads nodes[i], nodes[i].msg
  {
    && nodes[i].tail == FirstOf(nodes[i + 1..])
    && nodes[i].head == (if i > 0 then nodes[i - 1] else before)
    && nodes[i].length <= nodes[i].msg.Length
    && msgs[i] == Msg(nodes[i].category, nodes[i].msg[..nodes[i].length])
  }

  /** The nodes hold the messages, and the one before the first is the given one. */
  ghost predicate Chain(nodes: seq<MessageNode>, msgs: seq<Msg>, before: MessageNode?)
    requires |nodes| == |msgs|
    reads nodes, Buffers(nodes)
  {
    forall i: nat | i < |nodes| :: NodeOk(nodes, msgs, before, i)
  }

  /** The list of the queue, whose nodes and buffers are among the given ones. */
  ghost predicate Listed(nodes: seq<MessageNode>, msgs: seq<Msg>, owned: set<MessageNode>, buffers: set<array<bv8>>)
    requires |nodes| == |msgs|
    reads owned, buffers
  {
    && (forall i | 0 <= i < |nodes| :: nodes[i] in owned && nodes[i].msg in buffers)
    && Separate(nodes) && Chain(nodes, msgs, null)
  }

  lemma ListedParts(nodes: seq<MessageNode>, msgs: seq<Msg>, owned: set<MessageNode>, buffers: set<array<bv8>>)
    requires |nodes| == |msgs| && Listed(nodes, msgs, owned, buffers)
    ensures Separate(nodes) && Chain(nodes, msgs, null)
    ensures (forall n | n in nodes :: n in owned && n.msg in buffers) && forall b | b in Buffers(nodes) :: b in buffers
  {
  }

  lemma PartListed(part: seq<MessageNode>, rest: seq<MessageNode>, msgs: seq<Msg>,
                   owned: set<MessageNode>, buffers: set<array<bv8>>)
    requires forall n | n in part :: n in owned && n.msg in buffers
    requires forall n | n in rest :: n in part
    requires |rest| == |msgs| && Separate(rest) && Chain(rest, msgs, null)
    ensures Listed(rest, msgs, owned, buffers)
  {
    forall i | 0 <= i < |rest| ensures rest[i] in owned && rest[i].msg in buffers {
      assert rest[i] in part;
    }
  }

  lemma ChainTail(nodes: seq<MessageNode>, msgs: seq<Msg>, before: MessageNode?)
    requires |nodes| == |msgs| && nodes != [] && Separate(nodes) && Chain(nodes, msgs, before)
    ensures NodeOk(nodes, msgs, before, 0)
    ensures Separate(nodes[1..]) && Chain(nodes[1..], msgs[1..], nodes[0])
    ensures nodes[0] !in nodes[1..] && nodes[0].msg !in Buffers(nodes[1..])
  {
    var r, m := nodes[1..], msgs[1..];
    forall i: nat | i < |r| ensures NodeOk(r, m, nodes[0], i) {
      assert NodeOk(nodes, msgs, before, i + 1);
      assert nodes[i + 1 + 1..] == r[i + 1..];
    }
  }

  lemma ChainCons(n: MessageNode, m: Msg, rest: seq<MessageNode>, msgs: seq<Msg>, before: MessageNode?)
    requires |rest| == |msgs| && Chain(rest, msgs, n)
    requires n.tail == FirstOf(rest) && n.head == before && n.length <= n.msg.Length
    requires m == Msg(n.category, n.msg[..n.length])
    ensures Chain([n] + rest, [m] + msgs, before)
  {
    var r, q := [n] + rest, [m] + msgs;
    forall i: nat | i < |r| ensures NodeOk(r, q, before, i) {
      if i > 0 {
        assert NodeOk(rest, msgs, n, i - 1);
        assert r[i + 1..] == rest[i..];
      } else {
        assert r[1..] == rest;
      }
    }
  }

  lemma SeparateCons(n: MessageNode, rest: seq<MessageNode>)
    requires Separate(rest) && n !in rest && n.msg !in Buffers(rest)
    ensures Separate([n] + rest)
  {
    assert forall i | 0 <= i < |rest| :: rest[i] in rest && rest[i].msg in Buffers(rest);
  }

  /** The contents d after the bytes have been written at the position. */
  ghost function Written(d: seq<bv8>, at: nat, bytes: seq<bv8>): (w: seq<bv8>)
    requires at + |bytes| <= |d|
    ensures |w| == |d|
  {
    d[..at] + bytes + d[at + |bytes|..]
  }

  lemma WrittenNothing(d: seq<bv8>, at: nat)
    requires at <= |d|
    ensures Written(d, at, []) == d
  {
  }

  lemma NoChain(before: MessageNode?)
    ensures Chain([], [], before) && Separate([])
  {
  }

  lemma WrittenTwice(d: seq<bv8>, at: nat, a: seq<bv8>, b: seq<bv8>)
    requires at + |a| + |b| <= |d|
    ensures Written(Written(d, at, a), at + |a|, b) == Written(d, at, a + b)
  {
  }

  /** memcpy of n bytes into a buffer. */
  method Copy(src: array<bv8>, n: nat, dest: array<bv8>, at: nat)
    requires n <= src.Length && at + n <= dest.Length && src != dest
    modifies dest
    ensures dest[..] == Written(old(dest[..]), at, src[..n])
  {
    var i := 0;
    while i < n
      invariant i <= n
      invariant forall j | 0 <= j < dest.Length :: dest[j] == if at <= j < at + i then src[j - at] else old(dest[j])
    {
      dest[at + i] := src[i];
      i := i + 1;
    }
  }

  /** The in-place shift of the bytes that remain in a partly read message. */
  method ShiftLeft(msg: array<bv8>, start: nat, length: nat)
    requires start <= length <= msg.Length
    modifies msg
    ensures msg[..length - start] == old(msg[start..length])
  {
    var i := 0;
    while i < length - start
      invariant i <= length - start
      invariant forall j | 0 <= j < i :: msg[j] == old(msg[j + start])
      invariant forall j | i <= j < length :: msg[j] == old(msg[j])
    {
      msg[i] := msg[i + start];
      i := i + 1;
    }
  }

  class MessageQueue {
    var first: MessageNode?
    var last: MessageNode?
    const waiters: WaitList
    const table: ProcessTable
    ghost var nodes: seq<MessageNode>
    ghost var msgs: seq<Msg>
    ghost var owned: set<MessageNode>
    ghost var buffers: set<array<bv8>>

    constructor (table: ProcessTable)
      ensures Valid() && this.table == table && Abs() == Queue([], [], table.status)
      ensures fresh(waiters) && owned == {} && buffers == {}
    {
      first := null;
      last := null;
      waiters := new WaitList();
      this.table := table;
      nodes := [];
      msgs := [];
      owned := {};
      buffers := {};
    }

    ghost predicate Linked()
      reads this, owned, buffers
    {
      && |nodes| == |msgs| && Listed(nodes, msgs, owned, buffers)
      && first == FirstOf(nodes) && last == LastOf(nodes)
    }

    ghost predicate Valid()
      reads this, owned, buffers, waiters, waiters.owned
    {
      Linked() && waiters.Valid()
    }

    ghost function Abs(): Queue
      reads this, waiters, table
    {
      Queue(msgs, waiters.View(), table.status)
    }

    // ---------------------------------------------------------------- queries

    method IsMessageAvailable(start: MessageNode?, category: int, length: int) returns (r: bool)
      requires Linked() && start == first
      ensures r == Available(msgs, category, length)
    {
      var aux := 0;
      var curr := start;
      ghost var i := 0;
      while curr != null
        invariant i <= |nodes| && curr == FirstOf(nodes[i..])
        invariant Available(msgs, category, length) == Available(msgs[i..], category, length - aux)
        decreases |nodes| - i
      {
        assert NodeOk(nodes, msgs, null, i);
        assert msgs[i..][1..] == msgs[i + 1..];
        if curr.category == category {
          aux := aux + curr.length;
          if aux >= length {
            return true;
          }
        }
        curr := curr.tail;
        i := i + 1;
      }
      return false;
    }

    method LengthAvailable(category: int) returns (aux: nat)
      requires Linked()
      ensures aux == |Stream(msgs, category)|
    {
      aux := 0;
      var curr := first;
      ghost var i := 0;
      while curr != null
        invariant i <= |nodes| && curr == FirstOf(nodes[i..])
        invariant |Stream(msgs, category)| == aux + |Stream(msgs[i..], category)|
        decreases |nodes| - i
      {
        assert NodeOk(nodes, msgs, null, i);
        assert msgs[i..][1..] == msgs[i + 1..];
        if curr.category == category {
          aux := aux + curr.length;
        }
        curr := curr.tail;
        i := i + 1;
      }
    }

    // ---------------------------------------------------------------- taking bytes out

    /** The first length bytes of a message go to dest, the others move to its front. */
    method ReadPart(curr: MessageNode, prev: MessageNode?, length: nat, dest: array<bv8>, at: nat,
                    ghost rest: seq<MessageNode>, ghost ms: seq<Msg>)
      requires length < curr.length <= curr.msg.Length && at + length <= dest.Length && dest != curr.msg
      requires |rest| == |ms| && Chain(rest, ms, curr) && curr.tail == FirstOf(rest) && curr.head == prev
      requires curr !in rest && curr.msg !in Buffers(rest) && dest !in Buffers(rest)
      modifies curr`length, curr.msg, dest
      ensures Chain([curr] + rest, [Msg(curr.category, old(curr.msg[..curr.length])[length..])] + ms, prev)
      ensures dest[..] == Written(old(dest[..]), at, old(curr.msg[..curr.length])[..length])
    {
      Copy(curr.msg, length, dest, at);
      ShiftLeft(curr.msg, length, curr.length);
      curr.length := curr.length - length;
      assert old(curr.msg[..curr.length])[length..] == old(curr.msg[length..curr.length]);
      assert old(curr.msg[..curr.length])[..length] == old(curr.msg[..length]);
      ChainCons(curr, Msg(curr.category, curr.msg[..curr.length]), rest, ms, prev);
    }

    /** A message of another category stays, before what remains of the list after it. */
    method Relink(curr: MessageNode, prev: MessageNode?, after: MessageNode?,
                  ghost rest: seq<MessageNode>, ghost m: Msg, ghost ms: seq<Msg>)
      requires curr.length <= curr.msg.Length && m == Msg(curr.category, curr.msg[..curr.length])
      requires |rest| == |ms| && Chain(rest, ms, curr) && after == FirstOf(rest) && curr.head == prev && curr !in rest
      modifies curr`tail, this`last
      ensures Chain([curr] + rest, [m] + ms, prev)
      ensures last == if rest == [] then curr else old(last)
    {
      curr.tail := after;
      if curr.tail == null {
        last := curr;
      }
      ChainCons(curr, m, rest, ms, prev);
    }

    /**
     * searchMessageR on the part of the list that starts at curr: the bytes go to dest from
     * position at on, and r is the first node of the part that remains.
     */
    method SearchMessageR(curr: MessageNode?, prev: MessageNode?, category: int, length: nat,
                          dest: array<bv8>, at: nat,
                          ghost part: seq<MessageNode>, ghost ms: seq<Msg>, ghost before: MessageNode?)
      returns (r: MessageNode?, ghost rest: seq<MessageNode>)
      requires |part| == |ms| && Separate(part) && Chain(part, ms, before) && curr == FirstOf(part)
      requires dest !in Buffers(part) && at + length <= dest.Length
      requires part != [] ==> last == LastOf(part)
      modifies this`last, part, Buffers(part), dest
      ensures |rest| == |Take(ms, category, length).0| && Separate(rest)
      ensures Chain(rest, Take(ms, category, length).0, prev) && r == FirstOf(rest)
      ensures forall n | n in rest :: n in part
      ensures rest != [] ==> last == LastOf(rest)
      ensures dest[..] == Written(old(dest[..]), at, Take(ms, category, length).1)
      decreases |part|
    {
      hide Written;
      hide Chain;
      hide Separate;
      ghost var d := dest[..];
      if curr == null {
        WrittenNothing(d, at);
        NoChain(prev);
        rest := [];
        r := curr;
        return;
      }
      ChainTail(part, ms, before);
      curr.head := prev;
      if curr.category == category {
        if length >= curr.length {
          Copy(curr.msg, curr.length, dest, at);
          r, rest := SearchMessageR(curr.tail, prev, category, length - curr.length, dest, at + curr.length,
                                    part[1..], ms[1..], curr);
          WrittenTwice(d, at, ms[0].bytes, Take(ms[1..], category, length - |ms[0].bytes|).1);
        } else {
          ReadPart(curr, prev, length, dest, at, part[1..], ms[1..]);
          SeparateCons(curr, part[1..]);
          r, rest := curr, [curr] + part[1..];
        }
      } else {
        var after;
        after, rest := SearchMessageR(curr.tail, curr, category, length, dest, at, part[1..], ms[1..], curr);
        Relink(curr, prev, after, rest, ms[0], Take(ms[1..], category, length).0);
        SeparateCons(curr, rest);
        r, rest := curr, [curr] + rest;
      }
    }

    method SearchMessage(category: int, length: nat, dest: array<bv8>)
      requires Linked() && dest !in buffers && length <= dest.Length
      modifies this`first, this`last, this`nodes, this`msgs, owned, buffers, dest
      ensures Linked() && msgs == Take(old(msgs), category, length).0
      ensures dest[..] == Written(old(dest[..]), 0, Take(old(msgs), category, length).1)
    {
      hide Written;
      hide Listed;
      hide Separate;
      hide Chain;
      ghost var part, rest := nodes, nodes;
      ListedParts(nodes, msgs, owned, buffers);
      var r;
      r, rest := SearchMessageR(first, null, category, length, dest, 0, nodes, msgs, null);
      PartListed(part, rest, Take(msgs, category, length).0, owned, buffers);
      first := r;
      if first == null {
        last := null;
      }
      nodes, msgs := rest, Take(msgs, category, length).0;
    }

    // ---------------------------------------------------------------- sending

    /** The new node goes behind the last one. */
    method Append(n: MessageNode)
      requires Linked() && n !in owned && n.msg !in buffers && n.length <= n.msg.Length && n.tail == null
      requires n.head == last
      modifies this`first, this`last, this`nodes, this`msgs, this`owned, this`buffers, owned`tail
      ensures Linked() && owned == old(owned) + {n} && buffers == old(buffers) + {n.msg}
      ensures msgs == old(msgs) + [Msg(n.category, n.msg[..n.length])]
    {
      ghost var r, ms := nodes, msgs;
      nodes, msgs := nodes + [n], msgs + [Msg(n.category, n.msg[..n.length])];
      if first == null {
        first := n;
        last := n;
      } else {
        last.tail := n;
        last := n;
      }
      owned, buffers := owned + {n}, buffers + {n.msg};
      forall i: nat | i < |nodes| ensures NodeOk(nodes, msgs, null, i) {
        if i < |r| {
          assert old(NodeOk(r, ms, null, i)) && nodes[i] == r[i];
          assert nodes[i + 1..] == r[i + 1..] + [n];
        } else {
          assert nodes[i] == n && nodes[i + 1..] == [];
        }
      }
    }

    /** One round of the loop in unblockProcesses, at waiter number i. */
    method UnblockRound(curr: WaiterNode, category: int, length: nat, ghost i: nat)
      returns (next: WaiterNode?, ghost k: nat)
      requires Valid() && i < |waiters.nodes| && curr == waiters.nodes[i]
      modifies waiters`first, waiters`nodes, waiters.owned, table
      ensures Valid() && next == NodeAt(waiters.nodes, k) && k <= |waiters.nodes|
      ensures if Woken(msgs, category, length, curr.w) then
                && k == i && table.status == Unblock(old(table.status), curr.w.pid)
                && waiters.View() == old(waiters.View())[..i] + old(waiters.View())[i + 1..]
              else
                k == i + 1 && table.status == old(table.status) && waiters.View() == old(waiters.View())
    {
      hide Listed;
      var woken := category == EVERYBODY;
      if !woken && curr.w.category == category {
        woken := IsMessageAvailable(first, category, curr.w.size - length);
      }
      if woken {
        table.UnblockProcess(curr.w.pid);
        next := waiters.Remove(curr, i);
        k := i;
      } else {
        assert LinkedAt(waiters.nodes, i);
        next := curr.tail;
        k := i + 1;
      }
    }

    /** unblockProcesses */
    method UnblockProcesses(category: int, length: nat)
      requires Valid()
      modifies waiters`first, waiters`nodes, waiters.owned, table
      ensures Valid() && waiters.View() == StillWaiting(msgs, category, length, old(waiters.View()))
      ensures table.status == WakeUp(msgs, category, length, old(waiters.View()), old(table.status))
    {
      hide Listed;
      hide Links;
      hide WaitList.Valid;
      hide MessageQueue.WakingAt;
      hide StillWaiting;
      hide WakeUp;
      ghost var ws, t := waiters.View(), table.status;
      ghost var i: nat, j: nat := 0, 0;
      var curr := waiters.first;
      waiters.FirstNode();
      WakingStart(category, length);
      while curr != null
        invariant Valid() && curr == NodeAt(waiters.nodes, i)
        invariant j <= |ws| && WakingAt(ws, t, category, length, i, j)
        decreases |ws| - j
      {
        curr, i, j := WakeNext(curr, ws, t, category, length, i, j);
      }
      WakingEnd(ws, t, category, length, i, j);
    }

    lemma WakingStart(category: int, length: nat)
      ensures WakingAt(waiters.View(), table.status, category, length, 0, 0)
    {
    }

    /** Past the last node, all waiters have been handled. */
    lemma WakingEnd(ws: seq<Waiter>, t: Table, category: int, length: nat, i: nat, j: nat)
      requires WakingAt(ws, t, category, length, i, j) && NodeAt(waiters.nodes, i) == null
      ensures waiters.View() == StillWaiting(msgs, category, length, ws)
      ensures table.status == WakeUp(msgs, category, length, ws, t)
    {
      assert |ws[j..]| == 0;
      assert ws[..j] == ws;
    }

    /** The round that handles waiter number j of those that waited at first. */
    method WakeNext(curr: WaiterNode, ghost ws: seq<Waiter>, ghost t: Table, category: int, length: nat,
                    ghost i: nat, ghost j: nat)
      returns (next: WaiterNode?, ghost i': nat, ghost j': nat)
      requires Valid() && curr == NodeAt(waiters.nodes, i) && WakingAt(ws, t, category, length, i, j)
      modifies waiters`first, waiters`nodes, waiters.owned, table
      ensures Valid() && next == NodeAt(waiters.nodes, i') && WakingAt(ws, t, category, length, i', j')
      ensures j' == j + 1 <= |ws|
    {
      hide Listed;
      hide Links;
      WakingRound(msgs, ws, waiters.View(), t, category, length, i, j);
      next, i' := UnblockRound(curr, category, length, i);
      j' := j + 1;
    }

    /** The first j waiters have been handled, and i of them are still waiting. */
    ghost predicate WakingAt(ws: seq<Waiter>, t: Table, category: int, length: nat, i: nat, j: nat)
      reads this, waiters, table
    {
      && j <= |ws| && i == |StillWaiting(msgs, category, length, ws[..j])|
      && waiters.View() == StillWaiting(msgs, category, length, ws[..j]) + ws[j..]
      && table.status == WakeUp(msgs, category, length, ws[..j], t)
    }

    static lemma WakingRound(msgs: seq<Msg>, ws: seq<Waiter>, view: seq<Waiter>, t: Table,
                             category: int, length: nat, i: nat, j: nat)
      requires j < |ws| && i == |StillWaiting(msgs, category, length, ws[..j])|
      requires view == StillWaiting(msgs, category, length, ws[..j]) + ws[j..]
      ensures i < |view| && view[i] == ws[j]
      ensures StillWaiting(msgs, category, length, ws[..j + 1]) + ws[j + 1..]
              == if Woken(msgs, category, length, ws[j]) then view[..i] + view[i + 1..] else view
      ensures |StillWaiting(msgs, category, length, ws[..j + 1])|
              == if Woken(msgs, category, length, ws[j]) then i else i + 1
      ensures WakeUp(msgs, category, length, ws[..j + 1], t)
              == if Woken(msgs, category, length, ws[j]) then Unblock(WakeUp(msgs, category, length, ws[..j], t), ws[j].pid)
                 else WakeUp(msgs, category, length, ws[..j], t)
    {
      var kept := StillWaiting(msgs, category, length, ws[..j]);
      assert ws[..j + 1][..j] == ws[..j] && ws[..j + 1][j] == ws[j];
      assert ws[j..] == [ws[j]] + ws[j + 1..];
      assert view[..i] == kept && view[i + 1..] == ws[j + 1..];
      if !Woken(msgs, category, length, ws[j]) {
        assert StillWaiting(msgs, category, length, ws[..j + 1]) == kept + [ws[j]];
      } else {
        assert StillWaiting(msgs, category, length, ws[..j + 1]) == kept;
      }
    }

    /** A node with a copy of the text, to go behind the last one. */
    method NewMessage(category: int, text: array<bv8>, length: nat) returns (n: MessageNode)
      requires length <= text.Length
      ensures fresh(n) && fresh(n.msg) && n.category == category && n.length == length == n.msg.Length
      ensures n.msg[..length] == text[..length] && n.tail == null && n.head == last
    {
      var message := new bv8[length];
      Copy(text, length, message, 0);
      n := new MessageNode(category, message, length);
      n.head := last;
      assert message[..length] == text[..length];
    }

    /** sendMessage, between taking and releasing the queue's mutex. */
    method SendMessage(category: int, text: array<bv8>, length: nat)
      requires Valid() && length <= text.Length
      modifies this`first, this`last, this`nodes, this`msgs, this`owned, this`buffers,
               owned`tail, waiters`first, waiters`nodes, waiters.owned, table
      ensures Valid() && Abs() == Send(old(Abs()), category, text[..length])
      ensures fresh(owned - old(owned)) && fresh(buffers - old(buffers))
    {
      hide Listed;
      hide Links;
      var n := NewMessage(category, text, length);
      Append(n);
      UnblockProcesses(category, length);
    }

    // ---------------------------------------------------------------- receiving

    /**
     * One pass of receiveMessage by process pid, up to its release of the mutex: either the
     * bytes are delivered, or the process is queued and blocked and must try again later.
     */
    method ReceivePass(pid: nat, category: int, dest: array<bv8>, length: nat) returns (delivered: bool)
      requires Valid() && dest !in buffers && length <= dest.Length
      modifies this`first, this`last, this`nodes, this`msgs, owned, buffers, dest,
               waiters, waiters.owned, table
      ensures Valid() && Abs() == Receive(old(Abs()), pid, category, length).0
      ensures fresh(waiters.owned - old(waiters.owned))
      ensures match Receive(old(Abs()), pid, category, length).1
              case None => !delivered && dest[..] == old(dest[..])
              case Some(bytes) => delivered && dest[..] == Written(old(dest[..]), 0, bytes)
    {
      hide Listed;
      hide Links;
      hide Written;
      delivered := IsMessageAvailable(first, category, length);
      if !delivered {
        waiters.PushFront(Waiter(pid, category, length));
        table.BlockProcess(pid);
      } else {
        SearchMessage(category, length, dest);
      }
    }
  }
}
