/**
 * The per-category message queue on values, and the protocol by which receivers
 * wait for data (Kernel/messageQueueADT.c).
 */
module MessageQueueSpec {
  import opened Wrappers
  import opened Processes
  import opened Waiters

  datatype Msg = Msg(category: int, bytes: seq<bv8>)

  /** Unread bytes of a category, in order. */
  ghost function Stream(msgs: seq<Msg>, category: int): seq<bv8> {
    if msgs == [] then []
    else (if msgs[0].category == category then msgs[0].bytes else []) + Stream(msgs[1..], category)
  }

  /** Messages of all other categories, in order. */
  ghost function Others(msgs: seq<Msg>, category: int): seq<Msg> {
    if msgs == [] then []
    else (if msgs[0].category == category then [] else [msgs[0]]) + Others(msgs[1..], category)
  }

  ghost predicate HasCategory(msgs: seq<Msg>, category: int) {
    exists i | 0 <= i < |msgs| :: msgs[i].category == category
  }

  /** "isMessageAvailable": some prefix that ends in a message of the category holds n bytes of it. */
  predicate Available(msgs: seq<Msg>, category: int, n: int) {
    if msgs == [] then false
    else if msgs[0].category == category then
      |msgs[0].bytes| >= n || Available(msgs[1..], category, n - |msgs[0].bytes|)
    else Available(msgs[1..], category, n)
  }

  /** "searchMessageR": take n bytes of the category off the front. */
  function Take(msgs: seq<Msg>, category: int, n: nat): (r: (seq<Msg>, seq<bv8>))
    ensures |r.1| <= n
  {
    if msgs == [] then
      ([], [])
    else if msgs[0].category == category then
      if n >= |msgs[0].bytes| then
        var (rest, taken) := Take(msgs[1..], category, n - |msgs[0].bytes|);
        (rest, msgs[0].bytes + taken)
      else
        ([Msg(category, msgs[0].bytes[n..])] + msgs[1..], msgs[0].bytes[..n])
    else
      var (rest, taken) := Take(msgs[1..], category, n);
      ([msgs[0]] + rest, taken)
  }

  // ---------------------------------------------------------------- one call

  /** Data is available exactly when there is a message of the category and enough bytes of it. */
  lemma {:induction false} AvailableIff(msgs: seq<Msg>, category: int, n: int)
    ensures Available(msgs, category, n) <==> HasCategory(msgs, category) && |Stream(msgs, category)| >= n
    ensures !HasCategory(msgs, category) ==> Stream(msgs, category) == []
  {
    if msgs != [] {
      HasCategoryStep(msgs, category);
      if msgs[0].category == category {
        AvailableIff(msgs[1..], category, n - |msgs[0].bytes|);
      } else {
        AvailableIff(msgs[1..], category, n);
      }
    }
  }

  lemma HasCategoryStep(msgs: seq<Msg>, category: int)
    requires msgs != []
    ensures HasCategory(msgs, category) <==> msgs[0].category == category || HasCategory(msgs[1..], category)
  {
    if HasCategory(msgs, category) && msgs[0].category != category {
      var i :| 0 <= i < |msgs| && msgs[i].category == category;
      assert msgs[1..][i - 1].category == category;
    }
    if HasCategory(msgs[1..], category) {
      var i :| 0 <= i < |msgs[1..]| && msgs[1..][i].category == category;
      assert msgs[i + 1].category == category;
    }
  }

  lemma CutAfter(h: seq<bv8>, t: seq<bv8>, n: nat)
    requires |h| <= n <= |h| + |t|
    ensures (h + t)[..n] == h + t[..n - |h|] && (h + t)[n..] == t[n - |h|..]
  {
  }

  lemma CutWithin(h: seq<bv8>, t: seq<bv8>, n: nat)
    requires n <= |h|
    ensures (h + t)[..n] == h[..n] && (h + t)[n..] == h[n..] + t
  {
  }

  /** Taking delivers the first n bytes of the category and leaves the rest; nothing else moves. */
  lemma {:induction false} TakeDelivers(msgs: seq<Msg>, category: int, n: nat)
    requires n <= |Stream(msgs, category)|
    ensures var (rest, taken) := Take(msgs, category, n);
            && taken == Stream(msgs, category)[..n]
            && Stream(rest, category) == Stream(msgs, category)[n..]
            && Others(rest, category) == Others(msgs, category)
  {
    if msgs == [] {
    } else if msgs[0].category != category {
      TakeDelivers(msgs[1..], category, n);
    } else if n >= |msgs[0].bytes| {
      CutAfter(msgs[0].bytes, Stream(msgs[1..], category), n);
      TakeDelivers(msgs[1..], category, n - |msgs[0].bytes|);
    } else {
      CutWithin(msgs[0].bytes, Stream(msgs[1..], category), n);
      var rest := Take(msgs, category, n).0;
      assert rest[1..] == msgs[1..];
    }
  }

  /** A category is read off the messages of all categories but another one. */
  lemma {:induction false} StreamOfOthers(msgs: seq<Msg>, category: int, c: int)
    requires c != category
    ensures Stream(Others(msgs, category), c) == Stream(msgs, c)
    ensures HasCategory(Others(msgs, category), c) <==> HasCategory(msgs, c)
  {
    if msgs != [] {
      StreamOfOthers(msgs[1..], category, c);
      HasCategoryStep(msgs, c);
      if msgs[0].category != category {
        HasCategoryStep(Others(msgs, category), c);
        assert Others(msgs, category)[1..] == Others(msgs[1..], category);
      } else {
        assert Others(msgs, category) == Others(msgs[1..], category);
      }
    }
  }

  /** Receiving leaves every other category as it was. */
  lemma TakeLeavesOthers(msgs: seq<Msg>, category: int, n: nat, c: int)
    requires n <= |Stream(msgs, category)| && c != category
    ensures Stream(Take(msgs, category, n).0, c) == Stream(msgs, c)
    ensures HasCategory(Take(msgs, category, n).0, c) <==> HasCategory(msgs, c)
  {
    TakeDelivers(msgs, category, n);
    StreamOfOthers(msgs, category, c);
    StreamOfOthers(Take(msgs, category, n).0, category, c);
  }

  lemma {:induction false} TakeKeepsCategories(msgs: seq<Msg>, category: int, n: nat)
    ensures HasCategory(Take(msgs, category, n).0, category) ==> HasCategory(msgs, category)
  {
    if msgs != [] {
      HasCategoryStep(msgs, category);
      if msgs[0].category != category {
        TakeKeepsCategories(msgs[1..], category, n);
        var rest := Take(msgs, category, n).0;
        HasCategoryStep(rest, category);
        assert rest[1..] == Take(msgs[1..], category, n).0;
      }
    }
  }

  lemma FrontStep(msgs: seq<Msg>, c: int, j: nat)
    requires j < |msgs|
    ensures Others(msgs[..j + 1], c) == (if msgs[0].category == c then [] else [msgs[0]]) + Others(msgs[1..][..j], c)
    ensures Stream(msgs[..j + 1], c) == (if msgs[0].category == c then msgs[0].bytes else []) + Stream(msgs[1..][..j], c)
  {
    assert msgs[..j + 1][1..] == msgs[1..][..j];
  }

  /**
   * Which messages a receive takes: the category's messages before place k as a whole, and of the one at
   * place k less than all of its bytes; every other message stays, in its place.
   */
  lemma {:induction false} TakeCuts(msgs: seq<Msg>, category: int, n: nat) returns (k: nat, m: nat)
    ensures k <= |msgs|
    ensures k < |msgs| ==> msgs[k].category == category && m < |msgs[k].bytes|
    ensures Take(msgs, category, n).0
            == Others(msgs[..k], category)
               + if k < |msgs| then [Msg(category, msgs[k].bytes[m..])] + msgs[k + 1..] else []
    ensures Take(msgs, category, n).1
            == Stream(msgs[..k], category) + if k < |msgs| then msgs[k].bytes[..m] else []
    ensures |Take(msgs, category, n).1| == n || k == |msgs|
  {
    if msgs == [] {
      k, m := 0, 0;
    } else if msgs[0].category == category && n < |msgs[0].bytes| {
      k, m := 0, n;
    } else {
      var taken := if msgs[0].category == category then |msgs[0].bytes| else 0;
      var j;
      j, m := TakeCuts(msgs[1..], category, n - taken);
      k := j + 1;
      FrontStep(msgs, category, j);
      hide Others;
      hide Stream;
      assert k < |msgs| ==> msgs[1..][j] == msgs[k] && msgs[1..][j + 1..] == msgs[k + 1..];
    }
  }

  lemma {:induction false} StreamAppend(msgs: seq<Msg>, m: Msg, c: int)
    ensures Stream(msgs + [m], c) == Stream(msgs, c) + (if m.category == c then m.bytes else [])
  {
    if msgs == [] {
      assert Stream([m], c) == (if m.category == c then m.bytes else []) + Stream([], c);
    } else {
      StreamAppend(msgs[1..], m, c);
      assert (msgs + [m])[1..] == msgs[1..] + [m];
    }
  }

  lemma HasCategoryAppend(msgs: seq<Msg>, m: Msg, c: int)
    ensures HasCategory(msgs + [m], c) <==> HasCategory(msgs, c) || m.category == c
  {
    var all := msgs + [m];
    assert all[|msgs|] == m;
    if HasCategory(msgs, c) {
      var i :| 0 <= i < |msgs| && msgs[i].category == c;
      assert all[i] == msgs[i];
    }
    if HasCategory(all, c) && m.category != c {
      var i :| 0 <= i < |all| && all[i].category == c;
      assert msgs[i] == all[i];
    }
  }

  // ---------------------------------------------------------------- waiting receivers

  const EVERYBODY: int := -1

  /** "unblockProcesses": the waiter is woken after length bytes of the category have arrived. */
  predicate Woken(msgs: seq<Msg>, category: int, length: nat, w: Waiter) {
    category == EVERYBODY || (w.category == category && Available(msgs, category, w.size - length))
  }

  function StillWaiting(msgs: seq<Msg>, category: int, length: nat, ws: seq<Waiter>): seq<Waiter> {
    if ws == [] then [] else
      StillWaiting(msgs, category, length, ws[..|ws| - 1])
      + (if Woken(msgs, category, length, ws[|ws| - 1]) then [] else [ws[|ws| - 1]])
  }

  function WakeUp(msgs: seq<Msg>, category: int, length: nat, ws: seq<Waiter>, table: Table): Table {
    if ws == [] then table else
      var t := WakeUp(msgs, category, length, ws[..|ws| - 1], table);
      if Woken(msgs, category, length, ws[|ws| - 1]) then Unblock(t, ws[|ws| - 1].pid) else t
  }

  lemma {:induction false} StillWaitingMembers(msgs: seq<Msg>, category: int, length: nat, ws: seq<Waiter>, w: Waiter)
    ensures w in StillWaiting(msgs, category, length, ws) <==> w in ws && !Woken(msgs, category, length, w)
  {
    if ws != [] {
      StillWaitingMembers(msgs, category, length, ws[..|ws| - 1], w);
      assert ws == ws[..|ws| - 1] + [ws[|ws| - 1]];
    }
  }

  /** Waking leaves no process blocked that had a waiter which is gone, and blocks nobody. */
  lemma {:induction false} WakeUpEffect(msgs: seq<Msg>, category: int, length: nat, ws: seq<Waiter>, table: Table, pid: nat)
    ensures var t := WakeUp(msgs, category, length, ws, table);
            && t.Keys == table.Keys
            && (pid in t && t[pid] == Blocked ==>
                  table[pid] == Blocked && forall w | w in ws && w.pid == pid :: !Woken(msgs, category, length, w))
  {
    if ws != [] {
      WakeUpEffect(msgs, category, length, ws[..|ws| - 1], table, pid);
      assert ws == ws[..|ws| - 1] + [ws[|ws| - 1]];
    }
  }

  /**
   * A waiter can be woken too early, because the bytes that just arrived are subtracted
   * from its request although they are already in the queue: exactly when the bytes of
   * the category fall short of the request by no more than the bytes that arrived.
   */
  lemma WokenTooEarly(msgs: seq<Msg>, text: seq<bv8>, w: Waiter)
    requires w.category != EVERYBODY
    ensures var all := msgs + [Msg(w.category, text)];
            Woken(all, w.category, |text|, w) && !Available(all, w.category, w.size)
            <==> w.size - |text| <= |Stream(all, w.category)| < w.size
  {
    var all := msgs + [Msg(w.category, text)];
    HasCategoryAppend(msgs, Msg(w.category, text), w.category);
    AvailableIff(all, w.category, w.size);
    AvailableIff(all, w.category, w.size - |text|);
  }

  /** Five bytes arrive for a process that asked for ten: it is woken in vain. */
  lemma WokenTooEarlyExample()
    ensures var all := [Msg(7, [1, 2, 3, 4, 5])];
            Woken(all, 7, 5, Waiter(2, 7, 10)) && !Available(all, 7, 10)
  {
    var all := [Msg(7, [1, 2, 3, 4, 5])];
    assert all[1..] == [];
    assert !Available(all[1..], 7, 5);
  }

  // ---------------------------------------------------------------- the protocol

  datatype Queue = Queue(msgs: seq<Msg>, waiters: seq<Waiter>, table: Table)

  /** "sendMessage" */
  function Send(q: Queue, category: int, text: seq<bv8>): Queue {
    var msgs := q.msgs + [Msg(category, text)];
    Queue(msgs, StillWaiting(msgs, category, |text|, q.waiters), WakeUp(msgs, category, |text|, q.waiters, q.table))
  }

  /** One pass of "receiveMessage" by a process: it gets its bytes, or it blocks. */
  function Receive(q: Queue, pid: nat, category: int, n: nat): (Queue, Option<seq<bv8>>) {
    if !Available(q.msgs, category, n) then
      (Queue(q.msgs, [Waiter(pid, category, n)] + q.waiters, Block(q.table, pid)), None)
    else
      var (rest, taken) := Take(q.msgs, category, n);
      (q.(msgs := rest), Some(taken))
  }

  // ---------------------------------------------------------------- exact effects

  /**
   * Whether a waiter leaves the queue when bytes of a category have arrived and it then holds so many: a send to
   * everybody wakes everybody, any other one the waiters of the category for whom the bytes would be enough
   * on top of those that arrived.
   */
  predicate Leaves(w: Waiter, category: int, arrived: nat, held: nat) {
    category == -1 || (w.category == category && held + arrived >= w.size)
  }

  /** The waiters that stay, in order. */
  ghost function Staying(ws: seq<Waiter>, category: int, arrived: nat, held: nat): seq<Waiter> {
    if ws == [] then [] else
      (if Leaves(ws[0], category, arrived, held) then [] else [ws[0]]) + Staying(ws[1..], category, arrived, held)
  }

  /** Some waiter of the process leaves. */
  ghost predicate HasLeaving(ws: seq<Waiter>, pid: nat, category: int, arrived: nat, held: nat) {
    exists w :: w in ws && w.pid == pid && Leaves(w, category, arrived, held)
  }

  lemma {:induction false} StayingLast(ws: seq<Waiter>, w: Waiter, category: int, arrived: nat, held: nat)
    ensures Staying(ws + [w], category, arrived, held)
            == Staying(ws, category, arrived, held) + if Leaves(w, category, arrived, held) then [] else [w]
  {
    if ws == [] {
      assert [w][1..] == [];
    } else {
      StayingLast(ws[1..], w, category, arrived, held);
      assert (ws + [w])[1..] == ws[1..] + [w];
    }
  }

  lemma WokenIff(msgs: seq<Msg>, category: int, arrived: nat, w: Waiter)
    requires HasCategory(msgs, category)
    ensures Woken(msgs, category, arrived, w) <==> Leaves(w, category, arrived, |Stream(msgs, category)|)
  {
    AvailableIff(msgs, category, w.size - arrived);
  }

  lemma LeavingLast(ws: seq<Waiter>, w: Waiter, pid: nat, category: int, arrived: nat, held: nat)
    ensures HasLeaving(ws + [w], pid, category, arrived, held) <==>
            HasLeaving(ws, pid, category, arrived, held) || (w.pid == pid && Leaves(w, category, arrived, held))
  {
    hide Leaves;
    assert forall x :: x in ws + [w] <==> x in ws || x == w;
  }

  lemma {:induction false} SweepWaiters(msgs: seq<Msg>, category: int, arrived: nat, ws: seq<Waiter>)
    requires HasCategory(msgs, category)
    ensures StillWaiting(msgs, category, arrived, ws) == Staying(ws, category, arrived, |Stream(msgs, category)|)
  {
    if ws != [] {
      var front, w := ws[..|ws| - 1], ws[|ws| - 1];
      SweepWaiters(msgs, category, arrived, front);
      WokenIff(msgs, category, arrived, w);
      StayingLast(front, w, category, arrived, |Stream(msgs, category)|);
      assert ws == front + [w];
    }
  }

  lemma {:induction false} SweepStatus(msgs: seq<Msg>, category: int, arrived: nat, ws: seq<Waiter>, table: Table, pid: nat)
    requires HasCategory(msgs, category)
    ensures WakeUp(msgs, category, arrived, ws, table).Keys == table.Keys
    ensures pid in table ==>
              WakeUp(msgs, category, arrived, ws, table)[pid]
              == if table[pid] != Deleted && HasLeaving(ws, pid, category, arrived, |Stream(msgs, category)|) then Ready
                 else table[pid]
  {
    if ws != [] {
      var front, w := ws[..|ws| - 1], ws[|ws| - 1];
      SweepStatus(msgs, category, arrived, front, table, pid);
      WokenIff(msgs, category, arrived, w);
      LeavingLast(front, w, pid, category, arrived, |Stream(msgs, category)|);
      assert ws == front + [w];
      hide HasLeaving;
      hide Leaves;
      hide Woken;
    }
  }

  /**
   * A send, exactly: the message is the last one; of the waiters those that leave are gone and the others keep
   * their order; and a process is made ready if one of its waiters left, unless it is deleted, while every other
   * status stays.
   */
  lemma SendEffect(q: Queue, category: int, text: seq<bv8>)
    ensures var p := Send(q, category, text);
            var held := |Stream(q.msgs, category)| + |text|;
            && p.msgs == q.msgs + [Msg(category, text)]
            && p.waiters == Staying(q.waiters, category, |text|, held)
            && p.table.Keys == q.table.Keys
            && forall pid | pid in q.table ::
                 p.table[pid] == if q.table[pid] != Deleted && HasLeaving(q.waiters, pid, category, |text|, held)
                                 then Ready else q.table[pid]
  {
    var all := q.msgs + [Msg(category, text)];
    StreamAppend(q.msgs, Msg(category, text), category);
    HasCategoryAppend(q.msgs, Msg(category, text), category);
    SweepWaiters(all, category, |text|, q.waiters);
    SweepStatus(all, category, |text|, q.waiters, q.table, 0);
    var p, held := Send(q, category, text), |Stream(q.msgs, category)| + |text|;
    forall pid | pid in q.table
      ensures pid in p.table
      ensures p.table[pid] == if q.table[pid] != Deleted && HasLeaving(q.waiters, pid, category, |text|, held)
                              then Ready else q.table[pid]
    {
      SweepStatus(all, category, |text|, q.waiters, q.table, pid);
    }
  }

  /**
   * One pass of a receive, exactly: with enough bytes of the category it takes the first ones and changes
   * nothing but the messages; otherwise it only adds its process in front of the waiters and blocks it, unless
   * it is deleted.
   */
  lemma ReceiveEffect(q: Queue, pid: nat, category: int, n: nat)
    ensures var (p, bytes) := Receive(q, pid, category, n);
            if HasCategory(q.msgs, category) && |Stream(q.msgs, category)| >= n then
              && bytes == Some(Stream(q.msgs, category)[..n])
              && p == q.(msgs := p.msgs) && Stream(p.msgs, category) == Stream(q.msgs, category)[n..]
              && Others(p.msgs, category) == Others(q.msgs, category)
            else
              && bytes == None && p.msgs == q.msgs && p.waiters == [Waiter(pid, category, n)] + q.waiters
              && p.table.Keys == q.table.Keys
              && forall k | k in q.table ::
                   p.table[k] == if k == pid && q.table[k] != Deleted then Blocked else q.table[k]
  {
    AvailableIff(q.msgs, category, n);
    if Available(q.msgs, category, n) {
      TakeDelivers(q.msgs, category, n);
    }
  }

  // ---------------------------------------------------------------- all processes

  /**
   * The queue with the processes that are inside "receiveMessage" between blocking and
   * trying again, each with its request, and the messages sent and delivered so far.
   */
  datatype System = System(q: Queue, pending: map<nat, Waiter>, sent: seq<Msg>, delivered: seq<Msg>)

  datatype Step =
    | SendStep(category: int, text: seq<bv8>)
    | ReceiveStep(pid: nat, category: int, n: nat)
    | UnblockStep(pid: nat)
    | DeleteStep(pid: nat)
    | OtherStep(pid: nat, status: Status)

  predicate CanRun(t: Table, pid: nat) {
    pid in t && t[pid] != Blocked && t[pid] != Deleted
  }

  /**
   * Who may take which step: only a process that can run receives, and one that waits
   * tries again with the same request.  A spurious unblock may hit any process; other
   * changes of status hit processes that are not waiting here.
   */
  predicate Enabled(s: System, step: Step) {
    match step
    case SendStep(_, _) => true
    case ReceiveStep(pid, category, n) =>
      CanRun(s.q.table, pid) && (pid in s.pending ==> s.pending[pid] == Waiter(pid, category, n))
    case UnblockStep(pid) => true
    case DeleteStep(pid) => true
    case OtherStep(pid, status) => pid in s.q.table && pid !in s.pending
  }

  function Apply(s: System, step: Step): System {
    match step
    case SendStep(category, text) =>
      s.(q := Send(s.q, category, text), sent := s.sent + [Msg(category, text)])
    case ReceiveStep(pid, category, n) =>
      (match Receive(s.q, pid, category, n)
       case (q, None) => s.(q := q, pending := s.pending[pid := Waiter(pid, category, n)])
       case (q, Some(bytes)) =>
         s.(q := q, pending := s.pending - {pid}, delivered := s.delivered + [Msg(category, bytes)]))
    case UnblockStep(pid) => s.(q := s.q.(table := Unblock(s.q.table, pid)))
    case DeleteStep(pid) => s.(q := s.q.(table := Delete(s.q.table, pid)))
    case OtherStep(pid, status) => s.(q := s.q.(table := s.q.table[pid := status]))
  }

  ghost predicate Runs(s: System, steps: seq<Step>, t: System)
    decreases |steps|
  {
    if steps == [] then t == s else Enabled(s, steps[0]) && Runs(Apply(s, steps[0]), steps[1..], t)
  }

  /** Every queued request is unavailable. */
  ghost predicate WaitersStarve(q: Queue) {
    forall w | w in q.waiters :: !Available(q.msgs, w.category, w.size)
  }

  /** A process blocked in "receiveMessage" has a waiter with its request. */
  ghost predicate BlockedAreQueued(s: System) {
    forall pid | pid in s.pending && pid in s.q.table && s.q.table[pid] == Blocked :: s.pending[pid] in s.q.waiters
  }

  ghost predicate PendingOwn(s: System) {
    forall pid | pid in s.pending :: s.pending[pid].pid == pid
  }

  /** Per category, what was delivered and what is queued is what was sent. */
  ghost predicate NothingLost(s: System) {
    forall c :: Stream(s.sent, c) == Stream(s.delivered, c) + Stream(s.q.msgs, c)
  }

  ghost predicate Inv(s: System) {
    WaitersStarve(s.q) && BlockedAreQueued(s) && PendingOwn(s) && NothingLost(s)
  }

  lemma SendKeepsWaiters(q: Queue, category: int, text: seq<bv8>)
    requires WaitersStarve(q)
    ensures WaitersStarve(Send(q, category, text))
  {
    var p := Send(q, category, text);
    forall w | w in p.waiters ensures !Available(p.msgs, w.category, w.size) {
      StillWaitingMembers(p.msgs, category, |text|, q.waiters, w);
      assert !Woken(p.msgs, category, |text|, w);
      AvailableIff(p.msgs, w.category, w.size);
      if w.category == category {
        AvailableIff(p.msgs, w.category, w.size - |text|);
      } else {
        AvailableIff(q.msgs, w.category, w.size);
        StreamAppend(q.msgs, Msg(category, text), w.category);
        HasCategoryAppend(q.msgs, Msg(category, text), w.category);
      }
    }
  }

  lemma SendKeepsBlocked(s: System, category: int, text: seq<bv8>)
    requires BlockedAreQueued(s) && PendingOwn(s)
    ensures BlockedAreQueued(Apply(s, SendStep(category, text)))
  {
    var t := Apply(s, SendStep(category, text));
    forall pid | pid in t.pending && pid in t.q.table && t.q.table[pid] == Blocked
      ensures t.pending[pid] in t.q.waiters
    {
      WakeUpEffect(t.q.msgs, category, |text|, s.q.waiters, s.q.table, pid);
      StillWaitingMembers(t.q.msgs, category, |text|, s.q.waiters, s.pending[pid]);
    }
  }

  lemma SendLosesNothing(s: System, category: int, text: seq<bv8>)
    requires NothingLost(s)
    ensures NothingLost(Apply(s, SendStep(category, text)))
  {
    var t := Apply(s, SendStep(category, text));
    forall c ensures Stream(t.sent, c) == Stream(t.delivered, c) + Stream(t.q.msgs, c) {
      StreamAppend(s.sent, Msg(category, text), c);
      StreamAppend(s.q.msgs, Msg(category, text), c);
    }
  }

  lemma ReceiveKeepsWaiters(q: Queue, pid: nat, category: int, n: nat)
    requires WaitersStarve(q)
    ensures WaitersStarve(Receive(q, pid, category, n).0)
  {
    var p := Receive(q, pid, category, n).0;
    if Available(q.msgs, category, n) {
      AvailableIff(q.msgs, category, n);
      forall w | w in p.waiters ensures !Available(p.msgs, w.category, w.size) {
        AvailableIff(p.msgs, w.category, w.size);
        AvailableIff(q.msgs, w.category, w.size);
        if w.category == category {
          TakeDelivers(q.msgs, category, n);
          TakeKeepsCategories(q.msgs, category, n);
        } else {
          TakeLeavesOthers(q.msgs, category, n, w.category);
        }
      }
    }
  }

  lemma DeliveryKeepsStream(delivered: seq<Msg>, msgs: seq<Msg>, category: int, n: nat, c: int)
    requires n <= |Stream(msgs, category)|
    ensures var (rest, taken) := Take(msgs, category, n);
            Stream(delivered + [Msg(category, taken)], c) + Stream(rest, c) == Stream(delivered, c) + Stream(msgs, c)
  {
    var (rest, taken) := Take(msgs, category, n);
    var d := Stream(delivered, c);
    StreamAppend(delivered, Msg(category, taken), c);
    if c != category {
      TakeLeavesOthers(msgs, category, n, c);
      assert d + [] == d;
    } else {
      TakeDelivers(msgs, category, n);
      var s := Stream(msgs, c);
      Rejoin(d, s, n);
      assert Stream(delivered + [Msg(category, taken)], c) == d + s[..n];
      assert Stream(rest, c) == s[n..];
    }
  }

  lemma Rejoin(d: seq<bv8>, s: seq<bv8>, n: nat)
    requires n <= |s|
    ensures (d + s[..n]) + s[n..] == d + s
  {
  }

  lemma ReceiveLosesNothing(s: System, pid: nat, category: int, n: nat)
    requires NothingLost(s)
    ensures NothingLost(Apply(s, ReceiveStep(pid, category, n)))
  {
    var t := Apply(s, ReceiveStep(pid, category, n));
    if Available(s.q.msgs, category, n) {
      AvailableIff(s.q.msgs, category, n);
      forall c ensures Stream(t.sent, c) == Stream(t.delivered, c) + Stream(t.q.msgs, c) {
        DeliveryKeepsStream(s.delivered, s.q.msgs, category, n, c);
      }
    }
  }

  lemma StepKeepsInv(s: System, step: Step)
    requires Inv(s) && Enabled(s, step)
    ensures Inv(Apply(s, step))
  {
    match step {
      case SendStep(category, text) =>
        SendKeepsWaiters(s.q, category, text);
        SendKeepsBlocked(s, category, text);
        SendLosesNothing(s, category, text);
      case ReceiveStep(pid, category, n) =>
        ReceiveKeepsWaiters(s.q, pid, category, n);
        ReceiveLosesNothing(s, pid, category, n);
      case _ =>
    }
  }

  lemma {:induction false} RunKeepsInv(s: System, steps: seq<Step>, t: System)
    requires Inv(s) && Runs(s, steps, t)
    ensures Inv(t)
    decreases |steps|
  {
    if steps != [] {
      StepKeepsInv(s, steps[0]);
      RunKeepsInv(Apply(s, steps[0]), steps[1..], t);
    }
  }

  /**
   * No lost wake-ups and no lost bytes, over every interleaving: a process blocked in
   * "receiveMessage" is queued and its request cannot be met, and each category's
   * stream reaches its readers complete and in order.
   */
  lemma RunsSafe(s: System, steps: seq<Step>, t: System)
    requires Inv(s) && Runs(s, steps, t)
    ensures forall c :: Stream(t.sent, c) == Stream(t.delivered, c) + Stream(t.q.msgs, c)
    ensures forall w | w in t.q.waiters :: !Available(t.q.msgs, w.category, w.size)
    ensures forall pid | pid in t.pending && pid in t.q.table && t.q.table[pid] == Blocked ::
              t.pending[pid] in t.q.waiters && !Available(t.q.msgs, t.pending[pid].category, t.pending[pid].size)
  {
    RunKeepsInv(s, steps, t);
  }

  /** A new queue, whatever the processes do. */
  lemma InitialInv(table: Table)
    ensures Inv(System(Queue([], [], table), map[], [], []))
  {
  }

  /**
   * While its request is available a process inside "receiveMessage" can run, and its next pass
   * delivers the first bytes of its category, leaves the others, and ends its wait; while it is not,
   * a pass only blocks the process again.
   */
  lemma ReceiveWhileAvailable(table: Table, steps: seq<Step>, t: System, pid: nat)
    requires Runs(System(Queue([], [], table), map[], [], []), steps, t)
    requires pid in t.pending && pid in t.q.table && t.q.table[pid] != Deleted
    ensures var w := t.pending[pid];
            var next := Apply(t, ReceiveStep(pid, w.category, w.size));
            if Available(t.q.msgs, w.category, w.size) then
              && Enabled(t, ReceiveStep(pid, w.category, w.size)) && pid !in next.pending
              && w.size <= |Stream(t.q.msgs, w.category)|
              && next.delivered == t.delivered + [Msg(w.category, Stream(t.q.msgs, w.category)[..w.size])]
              && Stream(next.q.msgs, w.category) == Stream(t.q.msgs, w.category)[w.size..]
              && Others(next.q.msgs, w.category) == Others(t.q.msgs, w.category)
            else
              && next.pending == t.pending && next.delivered == t.delivered && next.q.msgs == t.q.msgs
              && next.q.table == t.q.table[pid := Blocked] && w in next.q.waiters
  {
    InitialInv(table);
    RunKeepsInv(System(Queue([], [], table), map[], [], []), steps, t);
    var w := t.pending[pid];
    if Available(t.q.msgs, w.category, w.size) {
      AvailableIff(t.q.msgs, w.category, w.size);
      TakeDelivers(t.q.msgs, w.category, w.size);
    }
  }

  /** Over every run a deleted process stays deleted, unless somebody outside this protocol changes its status. */
  lemma {:induction false} DeletedStaysDeleted(s: System, steps: seq<Step>, t: System, pid: nat)
    requires Runs(s, steps, t) && pid in s.q.table && s.q.table[pid] == Deleted
    requires forall step | step in steps :: step.OtherStep? ==> step.pid != pid
    ensures pid in t.q.table && t.q.table[pid] == Deleted
    decreases |steps|
  {
    if steps != [] {
      assert steps[0] in steps;
      match steps[0] {
        case SendStep(category, text) => SendEffect(s.q, category, text);
        case _ =>
      }
      DeletedStaysDeleted(Apply(s, steps[0]), steps[1..], t, pid);
    }
  }
}
