/**
 * The pipe on its own data (Kernel/pipesADT.c): a chain of blocks of 100 bytes
 * with read and write positions.
 *
 * The pipe's mutex is held without a yield in between, so at every switch it is
 * free; sending and each pass of receiving are single steps.
 */
module Pipe {
  import opened Wrappers
  import opened Processes
  import opened Waiters
  import opened PipeSpec

  const MESSAGE_BLOCK_SIZE: nat := 100

  class MessageBlock {
    const msg: array<bv8>
    var tail: MessageBlock?
    var readIndex: nat
    var writeIndex: nat

    constructor ()
      ensures tail == null && readIndex == 0 && writeIndex == 0
      ensures msg.Length == MESSAGE_BLOCK_SIZE && fresh(msg)
    {
      msg := new bv8[MESSAGE_BLOCK_SIZE];
      tail := null;
      readIndex := 0;
      writeIndex := 0;
    }
  }

  ghost function Next(blocks: seq<MessageBlock>, i: nat): MessageBlock?
    requires i < |blocks|
  {
    if i + 1 < |blocks| then blocks[i + 1] else null
  }

  /**
   * Block number i holds its chunk of unread bytes; only the first may be partly read and
   * only the last partly written.
   */
  ghost predicate BlockOk(blocks: seq<MessageBlock>, chunks: seq<seq<bv8>>, i: nat)
    requires |blocks| == |chunks| && i < |blocks|
    reads blocks[i], blocks[i].msg
  {
    var b := blocks[i];
    && b.msg.Length == MESSAGE_BLOCK_SIZE && b.tail == Next(blocks, i)
    && b.readIndex <= b.writeIndex <= MESSAGE_BLOCK_SIZE
    && (i > 0 ==> b.readIndex == 0) && (i + 1 < |blocks| ==> b.writeIndex == MESSAGE_BLOCK_SIZE)
    && chunks[i] == b.msg[b.readIndex..b.writeIndex]
  }

  ghost predicate Separate(blocks: seq<MessageBlock>) {
    forall i, j | 0 <= i < j < |blocks| :: blocks[i] != blocks[j] && blocks[i].msg != blocks[j].msg
  }

  ghost predicate Chain(blocks: seq<MessageBlock>, chunks: seq<seq<bv8>>,
                        owned: set<MessageBlock>, buffers: set<array<bv8>>)
    requires |blocks| == |chunks|
    reads owned, buffers
  {
    && (forall i | 0 <= i < |blocks| :: blocks[i] in owned && blocks[i].msg in buffers)
    && Separate(blocks)
    && forall i: nat | i < |blocks| :: BlockOk(blocks, chunks, i)
  }

  ghost function Flatten(chunks: seq<seq<bv8>>): seq<bv8> {
    if chunks == [] then [] else chunks[0] + Flatten(chunks[1..])
  }

  lemma {:induction false} FlattenLast(chunks: seq<seq<bv8>>, c: seq<bv8>, more: seq<bv8>)
    ensures Flatten(chunks + [c + more]) == Flatten(chunks + [c]) + more
  {
    if chunks == [] {
      assert [c + more][1..] == [] && [c][1..] == [];
      assert (c + more) + [] == (c + []) + more;
    } else {
      FlattenLast(chunks[1..], c, more);
      assert (chunks + [c + more])[1..] == chunks[1..] + [c + more];
      assert (chunks + [c])[1..] == chunks[1..] + [c];
      assert chunks[0] + (Flatten(chunks[1..] + [c]) + more) == (chunks[0] + Flatten(chunks[1..] + [c])) + more;
    }
  }

  lemma {:induction false} FlattenEmptyEnd(chunks: seq<seq<bv8>>)
    ensures Flatten(chunks + [[]]) == Flatten(chunks)
  {
    if chunks == [] {
      assert (chunks + [[]])[1..] == chunks;
    } else {
      FlattenEmptyEnd(chunks[1..]);
      assert (chunks + [[]])[1..] == chunks[1..] + [[]];
    }
  }

  lemma FlattenOne(chunks: seq<seq<bv8>>)
    ensures |chunks| == 1 ==> Flatten(chunks) == chunks[0]
  {
  }

  /** Inner blocks are full, so the chain is hardly longer than its bytes need. */
  lemma {:induction false} FlattenSize(chunks: seq<seq<bv8>>, full: nat)
    requires full <= |chunks| && forall i | 0 <= i < full :: |chunks[i]| == MESSAGE_BLOCK_SIZE
    ensures |Flatten(chunks)| >= MESSAGE_BLOCK_SIZE * full
  {
    if full > 0 {
      FlattenSize(chunks[1..], full - 1);
    }
  }

  class Pipe {
    var firstBlock: MessageBlock?
    var lastBlock: MessageBlock?
    var size: nat
    const waiters: WaitList
    const table: ProcessTable
    ghost var blocks: seq<MessageBlock>
    ghost var chunks: seq<seq<bv8>>
    ghost var owned: set<MessageBlock>
    ghost var buffers: set<array<bv8>>

    constructor (table: ProcessTable)
      ensures Valid() && this.table == table && Abs() == PipeSpec.Pipe([], [], table.status)
      ensures fresh(waiters) && owned == {} && buffers == {}
    {
      firstBlock := null;
      lastBlock := null;
      size := 0;
      waiters := new WaitList();
      this.table := table;
      blocks := [];
      chunks := [];
      owned := {};
      buffers := {};
    }

    /** The chain of blocks is in order. */
    ghost predicate Linked()
      reads this, owned, buffers
    {
      && |blocks| == |chunks| && Chain(blocks, chunks, owned, buffers)
      && firstBlock == (if blocks == [] then null else blocks[0])
      && lastBlock == (if blocks == [] then null else blocks[|blocks| - 1])
    }

    ghost predicate Valid()
      reads this, owned, buffers, waiters, waiters.owned
    {
      Linked() && size == |Flatten(chunks)| && waiters.Valid()
    }

    ghost function Abs(): PipeSpec.Pipe
      reads this, waiters, table
    {
      PipeSpec.Pipe(Flatten(chunks), waiters.View(), table.status)
    }

    /** The chain has at most size/100 + 2 blocks. */
    lemma ChainBound()
      requires Valid()
      ensures |blocks| <= size / MESSAGE_BLOCK_SIZE + 2
    {
      if |blocks| > 2 {
        var inner := chunks[1..];
        forall i | 0 <= i < |blocks| - 2 ensures |inner[i]| == MESSAGE_BLOCK_SIZE {
          assert BlockOk(blocks, chunks, i + 1);
        }
        FlattenSize(inner, |blocks| - 2);
        assert Flatten(chunks) == chunks[0] + Flatten(inner);
      }
    }

    // ---------------------------------------------------------------- sending

    /** A first, empty block. */
    method StartChain()
      requires Linked() && blocks == []
      modifies this`firstBlock, this`lastBlock, this`blocks, this`chunks, this`owned, this`buffers
      ensures Linked() && blocks != [] && Flatten(chunks) == []
      ensures fresh(owned - old(owned)) && fresh(buffers - old(buffers))
    {
      var b := new MessageBlock();
      firstBlock := b;
      lastBlock := b;
      blocks, chunks := [b], [[]];
      owned, buffers := owned + {b}, buffers + {b.msg};
      assert chunks[1..] == [];
      assert BlockOk(blocks, chunks, 0);
    }

    /** The last block is full: a new one goes behind it. */
    method Extend()
      requires Linked() && blocks != [] && lastBlock.writeIndex == MESSAGE_BLOCK_SIZE
      modifies this`lastBlock, this`blocks, this`chunks, this`owned, this`buffers, owned`tail
      ensures Linked() && blocks != [] && Flatten(chunks) == old(Flatten(chunks))
      ensures lastBlock.writeIndex == 0
      ensures fresh(owned - old(owned)) && fresh(buffers - old(buffers))
    {
      var b := new MessageBlock();
      LinkBlock(b);
    }

    method LinkBlock(b: MessageBlock)
      requires Linked() && blocks != [] && lastBlock.writeIndex == MESSAGE_BLOCK_SIZE
      requires b !in owned && b.msg !in buffers
      requires b.tail == null && b.readIndex == 0 && b.writeIndex == 0 && b.msg.Length == MESSAGE_BLOCK_SIZE
      modifies this`lastBlock, this`blocks, this`chunks, this`owned, this`buffers, owned`tail
      ensures Linked() && lastBlock == b && Flatten(chunks) == old(Flatten(chunks))
      ensures owned == old(owned) + {b} && buffers == old(buffers) + {b.msg}
    {
      ghost var r, c := blocks, chunks;
      lastBlock.tail := b;
      lastBlock := b;
      blocks, chunks := blocks + [b], chunks + [[]];
      owned, buffers := owned + {b}, buffers + {b.msg};
      FlattenEmptyEnd(c);
      forall i: nat | i < |blocks| ensures BlockOk(blocks, chunks, i) {
        if i < |r| {
          assert old(BlockOk(r, c, i));
        }
      }
    }

    /** memcpy of n bytes of the text to the write position of the last block. */
    method WriteSome(text: array<bv8>, from: nat, n: nat)
      requires Linked() && blocks != [] && text !in buffers && from + n <= text.Length
      requires lastBlock.writeIndex + n <= MESSAGE_BLOCK_SIZE
      modifies this`chunks, owned`writeIndex, buffers
      ensures Linked() && Flatten(chunks) == old(Flatten(chunks)) + text[from..from + n]
    {
      ghost var c := chunks;
      ghost var l := |blocks| - 1;
      assert BlockOk(blocks, chunks, l) && blocks[l] in owned && blocks[l].msg in buffers;
      CopyBytes(text, from, n, lastBlock.msg, lastBlock.writeIndex);
      lastBlock.writeIndex := lastBlock.writeIndex + n;
      chunks := chunks[..l] + [chunks[l] + text[from..from + n]];
      assert c == c[..l] + [c[l]];
      FlattenLast(c[..l], c[l], text[from..from + n]);
      forall i: nat | i < |blocks| ensures BlockOk(blocks, chunks, i) {
        assert old(BlockOk(blocks, c, i));
      }
    }

    // ---------------------------------------------------------------- receiving

    /** The first block is used up and another one follows: it is freed. */
    method DropFirst()
      requires Linked() && |blocks| >= 2 && chunks[0] == []
      modifies this`firstBlock, this`blocks, this`chunks
      ensures Linked() && blocks == old(blocks)[1..] && Flatten(chunks) == old(Flatten(chunks))
    {
      ghost var r, c := blocks, chunks;
      assert BlockOk(r, c, 0);
      firstBlock := firstBlock.tail;
      blocks, chunks := blocks[1..], chunks[1..];
      assert [] + Flatten(c[1..]) == Flatten(c[1..]);
      forall i: nat | i < |blocks| ensures BlockOk(blocks, chunks, i) {
        assert BlockOk(r, c, i + 1);
      }
    }

    /** memcpy of n bytes from the read position of the first block. */
    method ReadSome(dest: array<bv8>, at: nat, n: nat)
      requires Linked() && blocks != [] && dest !in buffers && at + n <= dest.Length
      requires firstBlock.readIndex + n <= firstBlock.writeIndex
      modifies this`chunks, owned`readIndex, dest
      ensures Linked() && n <= |old(Flatten(chunks))| && Flatten(chunks) == old(Flatten(chunks))[n..]
      ensures dest[..] == old(dest[..at]) + old(Flatten(chunks))[..n] + old(dest[at + n..])
    {
      ghost var c := chunks;
      assert BlockOk(blocks, chunks, 0) && blocks[0] in owned && blocks[0].msg in buffers;
      ghost var m := firstBlock.msg[..];
      assert c[0] == m[firstBlock.readIndex..firstBlock.writeIndex];
      SliceOfSlice(m, firstBlock.readIndex, firstBlock.writeIndex, n);
      assert m[firstBlock.readIndex..firstBlock.readIndex + n]
          == firstBlock.msg[firstBlock.readIndex..firstBlock.readIndex + n];
      CopyBytes(firstBlock.msg, firstBlock.readIndex, n, dest, at);
      firstBlock.readIndex := firstBlock.readIndex + n;
      chunks := [chunks[0][n..]] + chunks[1..];
      CutFirst(c, n);
      forall i: nat | i < |blocks| ensures BlockOk(blocks, chunks, i) {
        assert old(BlockOk(blocks, c, i));
      }
    }

    // ---------------------------------------------------------------- waking

    /** One round of the loop in unblockProcessesPipe, at waiter number i. */
    method UnblockRound(curr: WaiterNode, ghost i: nat) returns (next: WaiterNode?, ghost k: nat)
      requires waiters.Valid() && i < |waiters.nodes| && curr == waiters.nodes[i]
      modifies waiters`first, waiters`nodes, waiters.owned, table
      ensures waiters.Valid() && next == NodeAt(waiters.nodes, k)
      ensures if curr.w.size <= size then
                && k == i && table.status == Unblock(old(table.status), curr.w.pid)
                && waiters.View() == old(waiters.View())[..i] + old(waiters.View())[i + 1..]
              else
                k == i + 1 && table.status == old(table.status) && waiters.View() == old(waiters.View())
    {
      if curr.w.size <= size {
        table.UnblockProcess(curr.w.pid);
        next := waiters.Remove(curr, i);
        k := i;
      } else {
        assert LinkedAt(waiters.nodes, i);
        next := curr.tail;
        k := i + 1;
      }
    }

    /** The first j waiters have been handled, and i of them are still waiting. */
    ghost predicate WakingAt(ws: seq<Waiter>, t: Table, i: nat, j: nat)
      reads this, waiters, table
    {
      && j <= |ws| && i == |StillWaiting(size, ws[..j])|
      && waiters.View() == StillWaiting(size, ws[..j]) + ws[j..]
      && table.status == WakeUp(size, ws[..j], t)
    }

    /** unblockProcessesPipe */
    method UnblockProcessesPipe()
      requires waiters.Valid()
      modifies waiters`first, waiters`nodes, waiters.owned, table
      ensures waiters.Valid() && waiters.View() == StillWaiting(size, old(waiters.View()))
      ensures table.status == WakeUp(size, old(waiters.View()), old(table.status))
    {
      hide Links;
      ghost var ws, t := waiters.View(), table.status;
      ghost var i: nat, j: nat := 0, 0;
      var curr := waiters.first;
      assert ws[..0] == [] && [] + ws[0..] == ws;
      while curr != null
        invariant waiters.Valid() && curr == NodeAt(waiters.nodes, i) && WakingAt(ws, t, i, j)
        decreases |ws| - j
      {
        curr, i, j := WakeNext(curr, ws, t, i, j);
      }
      WakingEnd(ws, waiters.View(), size, i, j);
    }

    /** The round that handles waiter number j of those that waited at first. */
    method WakeNext(curr: WaiterNode, ghost ws: seq<Waiter>, ghost t: Table, ghost i: nat, ghost j: nat)
      returns (next: WaiterNode?, ghost i': nat, ghost j': nat)
      requires waiters.Valid() && curr == NodeAt(waiters.nodes, i) && WakingAt(ws, t, i, j)
      modifies waiters`first, waiters`nodes, waiters.owned, table
      ensures waiters.Valid() && next == NodeAt(waiters.nodes, i') && WakingAt(ws, t, i', j')
      ensures j' == j + 1
    {
      hide Links;
      WakingRound(ws, waiters.View(), t, size, i, j);
      next, i' := UnblockRound(curr, i);
      j' := j + 1;
    }

    // ---------------------------------------------------------------- entry points

    /** The writing loop of sendMessagePipe. */
    method WriteAll(text: array<bv8>, length: nat)
      requires Linked() && blocks != [] && text !in buffers && length <= text.Length
      modifies this`lastBlock, this`blocks, this`chunks, this`owned, this`buffers, owned`tail, owned`writeIndex, buffers
      ensures Linked() && Flatten(chunks) == old(Flatten(chunks)) + old(text[..length])
      ensures fresh(owned - old(owned)) && fresh(buffers - old(buffers))
    {
      ghost var b, t := Flatten(chunks), text[..length];
      var done := 0;
      assert t[..0] == [] && b + [] == b;
      while done != length
        invariant done <= length && Linked() && blocks != [] && text !in buffers && text[..length] == t
        invariant Flatten(chunks) == b + t[..done]
        invariant fresh(owned - old(owned)) && fresh(buffers - old(buffers))
        decreases length - done, if lastBlock.writeIndex == MESSAGE_BLOCK_SIZE then 1 else 0
      {
        done := WriteRound(text, length, done);
      }
    }

    /** One round of that loop: a new block, or as many bytes as fit into the last one. */
    method WriteRound(text: array<bv8>, length: nat, done: nat) returns (now: nat)
      requires Linked() && blocks != [] && text !in buffers && done < length <= text.Length
      modifies this`lastBlock, this`blocks, this`chunks, this`owned, this`buffers, owned`tail, owned`writeIndex, buffers
      ensures Linked() && blocks != [] && text !in buffers && text[..length] == old(text[..length])
      ensures done <= now <= length && Flatten(chunks) == old(Flatten(chunks)) + text[done..now]
      ensures fresh(owned - old(owned)) && fresh(buffers - old(buffers))
      ensures now == done ==> old(lastBlock.writeIndex) == MESSAGE_BLOCK_SIZE && lastBlock.writeIndex == 0
    {
      assert BlockOk(blocks, chunks, |blocks| - 1);
      if lastBlock.writeIndex == MESSAGE_BLOCK_SIZE {
        Extend();
        now := done;
        assert Flatten(chunks) + [] == Flatten(chunks);
      } else {
        var left := MESSAGE_BLOCK_SIZE - lastBlock.writeIndex;
        var n := if length - done > left then left else length - done;
        WriteSome(text, done, n);
        now := done + n;
      }
    }

    /** sendMessagePipe, between taking and releasing the pipe's mutex. */
    method SendMessagePipe(text: array<bv8>, length: nat)
      requires Valid() && text !in buffers && length <= text.Length
      modifies this`firstBlock, this`lastBlock, this`blocks, this`chunks, this`owned, this`buffers, this`size,
               owned`tail, owned`writeIndex, buffers, waiters`first, waiters`nodes, waiters.owned, table
      ensures Valid() && Abs() == Send(old(Abs()), old(text[..length]))
      ensures fresh(owned - old(owned)) && fresh(buffers - old(buffers))
    {
      hide Chain;
      hide Links;
      Store(text, length);
      UnblockProcessesPipe();
    }

    /** The part of sendMessagePipe that stores the bytes. */
    method Store(text: array<bv8>, length: nat)
      requires Linked() && size == |Flatten(chunks)| && text !in buffers && length <= text.Length
      modifies this`firstBlock, this`lastBlock, this`blocks, this`chunks, this`owned, this`buffers, this`size,
               owned`tail, owned`writeIndex, buffers
      ensures Linked() && size == |Flatten(chunks)|
      ensures Flatten(chunks) == old(Flatten(chunks)) + old(text[..length])
      ensures fresh(owned - old(owned)) && fresh(buffers - old(buffers))
    {
      hide Chain;
      size := size + length;
      if lastBlock == null {
        StartChain();
      }
      WriteAll(text, length);
    }

    /** The reading loop of receiveMessagePipe. */
    method ReadAll(dest: array<bv8>, length: nat)
      requires Linked() && dest !in buffers && length <= dest.Length && length <= |Flatten(chunks)|
      modifies this`firstBlock, this`blocks, this`chunks, owned`readIndex, dest
      ensures Linked() && Flatten(chunks) == old(Flatten(chunks))[length..]
      ensures dest[..] == old(Flatten(chunks))[..length] + old(dest[length..])
      ensures lastBlock == old(lastBlock)
    {
      ghost var b, d := Flatten(chunks), dest[..];
      var done := 0;
      while done != length
        invariant done <= length && Linked() && Flatten(chunks) == b[done..]
        invariant dest[..] == b[..done] + d[done..]
        decreases length - done, |blocks|
      {
        ghost var q, from := dest[..], done;
        done := ReadRound(dest, length, done);
        assert dest[..] == q[..from] + b[from..][..done - from] + q[done..];
        ReadJoins(d, b, q, from, done);
      }
    }

    /**
     * One round of that loop, on a first block that exists: it is freed when it is used up,
     * which the last block never is, or read as far as needed.
     */
    method ReadRound(dest: array<bv8>, length: nat, done: nat) returns (now: nat)
      requires Linked() && dest !in buffers && done < length <= dest.Length && length - done <= |Flatten(chunks)|
      modifies this`firstBlock, this`blocks, this`chunks, owned`readIndex, dest
      ensures Linked() && done <= now <= length && now - done <= |old(Flatten(chunks))|
      ensures Flatten(chunks) == old(Flatten(chunks))[now - done..]
      ensures dest[..] == old(dest[..done]) + old(Flatten(chunks))[..now - done] + old(dest[now..])
      ensures now == done ==> |blocks| < old(|blocks|)
    {
      assert BlockOk(blocks, chunks, 0);
      if firstBlock.readIndex == firstBlock.writeIndex {
        FlattenOne(chunks);
        DropFirst();
        now := done;
      } else {
        var unread := firstBlock.writeIndex - firstBlock.readIndex;
        var n := if length - done >= unread then unread else length - done;
        ReadSome(dest, done, n);
        now := done + n;
      }
    }

    /**
     * One pass of receiveMessagePipe by process pid, up to its release of the mutex: either
     * the bytes are delivered, or the process is queued and blocked and must try again later.
     */
    method ReceivePass(pid: nat, dest: array<bv8>, length: nat) returns (delivered: bool)
      requires Valid() && dest !in buffers && length <= dest.Length
      modifies this`firstBlock, this`blocks, this`chunks, this`size, owned`readIndex, dest,
               waiters, waiters.owned, table
      ensures Valid() && Abs() == Receive(old(Abs()), pid, length).0
      ensures fresh(waiters.owned - old(waiters.owned))
      ensures match Receive(old(Abs()), pid, length).1
              case None => !delivered && dest[..] == old(dest[..])
              case Some(bytes) => delivered && dest[..] == bytes + old(dest[length..])
    {
      hide Chain;
      hide Links;
      if size < length {
        waiters.PushFront(Waiter(pid, 0, length));
        table.BlockProcess(pid);
        delivered := false;
      } else {
        size := size - length;
        ReadAll(dest, length);
        delivered := true;
      }
    }
  }

  lemma WakingRound(ws: seq<Waiter>, view: seq<Waiter>, t: Table, n: nat, i: nat, j: nat)
    requires j < |ws| && i == |StillWaiting(n, ws[..j])| && view == StillWaiting(n, ws[..j]) + ws[j..]
    ensures i < |view| && view[i] == ws[j]
    ensures StillWaiting(n, ws[..j + 1]) + ws[j + 1..]
            == if ws[j].size <= n then view[..i] + view[i + 1..] else view
    ensures |StillWaiting(n, ws[..j + 1])| == if ws[j].size <= n then i else i + 1
    ensures WakeUp(n, ws[..j + 1], t)
            == if ws[j].size <= n then Unblock(WakeUp(n, ws[..j], t), ws[j].pid) else WakeUp(n, ws[..j], t)
  {
    var kept := StillWaiting(n, ws[..j]);
    assert ws[..j + 1][..j] == ws[..j] && ws[..j + 1][j] == ws[j];
    assert ws[j..] == [ws[j]] + ws[j + 1..];
    assert view[..i] == kept && view[i + 1..] == ws[j + 1..];
    if ws[j].size > n {
      assert StillWaiting(n, ws[..j + 1]) == kept + [ws[j]];
    } else {
      assert StillWaiting(n, ws[..j + 1]) == kept;
    }
  }

  lemma WakingEnd(ws: seq<Waiter>, view: seq<Waiter>, n: nat, i: nat, j: nat)
    requires j <= |ws| && i == |StillWaiting(n, ws[..j])| && |view| <= i
    requires view == StillWaiting(n, ws[..j]) + ws[j..]
    ensures j == |ws| && ws[..j] == ws && view == StillWaiting(n, ws)
  {
    assert |ws[j..]| == 0;
    assert ws[..j] == ws;
  }

  lemma ReadJoins(d: seq<bv8>, b: seq<bv8>, q: seq<bv8>, from: nat, now: nat)
    requires from <= now <= |b| && now <= |d| && q == b[..from] + d[from..]
    ensures q[..from] + b[from..][..now - from] + q[now..] == b[..now] + d[now..]
    ensures b[from..][now - from..] == b[now..]
  {
  }

  lemma SliceOfSlice(m: seq<bv8>, a: nat, b: nat, n: nat)
    requires a + n <= b <= |m|
    ensures m[a..b][..n] == m[a..a + n]
  {
  }

  lemma CutFirst(c: seq<seq<bv8>>, n: nat)
    requires c != [] && n <= |c[0]|
    ensures n <= |Flatten(c)| && Flatten(c)[..n] == c[0][..n]
    ensures Flatten([c[0][n..]] + c[1..]) == Flatten(c)[n..]
  {
    assert ([c[0][n..]] + c[1..])[1..] == c[1..];
  }

  method CopyBytes(src: array<bv8>, from: nat, n: nat, dest: array<bv8>, at: nat)
    requires from + n <= src.Length && at + n <= dest.Length && src != dest
    modifies dest
    ensures dest[..] == old(dest[..at]) + src[from..from + n] + old(dest[at + n..])
  {
    var i := 0;
    while i < n
      invariant i <= n
      invariant forall j | 0 <= j < dest.Length ::
                  dest[j] == if at <= j < at + i then src[from + (j - at)] else old(dest[j])
    {
      dest[at + i] := src[from + i];
      i := i + 1;
    }
  }
}
