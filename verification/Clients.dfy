/**
 * Processes that use a pipe or a queue again and again: the contracts of single
 * calls add up to those of the protocols.
 */
module Clients {
  import opened Wrappers
  import opened Processes
  import P = PipeSpec
  import Q = MessageQueueSpec
  import Pipe
  import MessageQueue

  /** Two sends of the text. */
  function PipeSends(p: P.Pipe, text: seq<bv8>): P.Pipe {
    P.Send(P.Send(p, text), text)
  }

  /** Two passes of receive by a process. */
  function PipeReceives(p: P.Pipe, pid: nat, n: nat): P.Pipe {
    P.Receive(P.Receive(p, pid, n).0, pid, n).0
  }

  method UsePipe(p: Pipe.Pipe, pid: nat, text: array<bv8>, length: nat, dest: array<bv8>, n: nat)
    requires p.Valid() && length <= text.Length && n <= dest.Length
    requires text != dest && text !in p.buffers && dest !in p.buffers
    modifies p, p.owned, p.buffers, p.waiters, p.waiters.owned, p.table, dest
    ensures p.Valid() && p.Abs() == PipeReceives(PipeSends(old(p.Abs()), old(text[..length])), pid, n)
    ensures text !in p.buffers && dest !in p.buffers
  {
    hide P.Send;
    hide P.Receive;
    hide Pipe.Pipe.Valid;
    p.SendMessagePipe(text, length);
    p.SendMessagePipe(text, length);
    assert text[..length] == old(text[..length]);
    var first := p.ReceivePass(pid, dest, n);
    var second := p.ReceivePass(pid, dest, n);
  }

  function QueueSends(q: Q.Queue, category: int, text: seq<bv8>): Q.Queue {
    Q.Send(Q.Send(q, category, text), category, text)
  }

  function QueueReceives(q: Q.Queue, pid: nat, category: int, n: nat): Q.Queue {
    Q.Receive(Q.Receive(q, pid, category, n).0, pid, category, n).0
  }

  method UseQueue(q: MessageQueue.MessageQueue, pid: nat, category: int, text: array<bv8>, length: nat,
                  dest: array<bv8>, n: nat)
    requires q.Valid() && length <= text.Length && n <= dest.Length
    requires text != dest && text !in q.buffers && dest !in q.buffers
    modifies q, q.owned, q.buffers, q.waiters, q.waiters.owned, q.table, dest
    ensures q.Valid()
    ensures q.Abs() == QueueReceives(QueueSends(old(q.Abs()), category, old(text[..length])), pid, category, n)
    ensures text !in q.buffers && dest !in q.buffers
  {
    hide Q.Send;
    hide Q.Receive;
    hide MessageQueue.MessageQueue.Valid;
    q.SendMessage(category, text, length);
    q.SendMessage(category, text, length);
    assert text[..length] == old(text[..length]);
    var first := q.ReceivePass(pid, category, dest, n);
    var second := q.ReceivePass(pid, category, dest, n);
  }

  /** What two sends put in, two passes take out, in order: 2n bytes of the text sent twice. */
  lemma PipeRoundTrip(table: Table, text: seq<bv8>, pid: nat, n: nat)
    requires n <= |text|
    ensures var p := PipeSends(P.Pipe([], [], table), text);
            var (q, a) := P.Receive(p, pid, n);
            var (r, b) := P.Receive(q, pid, n);
            && a.Some? && b.Some? && a.value + b.value == (text + text)[..2 * n]
            && r == PipeReceives(p, pid, n) && r.buffer == (text + text)[2 * n..]
  {
    var all := text + text;
    assert [] + text == text;
    assert all[n..][..n] == all[n..2 * n] && all[n..][n..] == all[2 * n..];
    assert all[..n] + all[n..2 * n] == all[..2 * n];
  }
}
