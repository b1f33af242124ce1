/**
 * The doubly linked list of processes that wait for data, shared in shape by
 * the pipe and the message queue ("struct blockedProcessNode").
 */
module Waiters {

  /** A process that asked for size bytes (of a category, in a message queue). */
  datatype Waiter = Waiter(pid: nat, category: int, size: nat)

  class WaiterNode {
    const w: Waiter
    var tail: WaiterNode?
    var head: WaiterNode?

    constructor (w: Waiter)
      ensures this.w == w
    {
      this.w := w;
      tail := null;
      head := null;
    }
  }

  ghost function Next(nodes: seq<WaiterNode>, i: nat): WaiterNode?
    requires i < |nodes|
  {
    if i + 1 < |nodes| then nodes[i + 1] else null
  }

  ghost function Before(nodes: seq<WaiterNode>, i: nat): WaiterNode?
    requires i < |nodes|
  {
    if i > 0 then nodes[i - 1] else null
  }

  ghost function NodeAt(nodes: seq<WaiterNode>, i: nat): WaiterNode? {
    if i < |nodes| then nodes[i] else null
  }

  ghost function Entries(nodes: seq<WaiterNode>): (r: seq<Waiter>)
    ensures |r| == |nodes| && forall i | 0 <= i < |nodes| :: r[i] == nodes[i].w
  {
    seq(|nodes|, i requires 0 <= i < |nodes| => nodes[i].w)
  }

  lemma EntriesPush(nodes: seq<WaiterNode>, n: WaiterNode)
    ensures Entries([n] + nodes) == [n.w] + Entries(nodes)
  {
  }

  lemma EntriesWithout(nodes: seq<WaiterNode>, i: nat)
    requires i < |nodes|
    ensures Entries(nodes[..i] + nodes[i + 1..]) == Entries(nodes)[..i] + Entries(nodes)[i + 1..]
  {
  }

  ghost predicate Distinct(nodes: seq<WaiterNode>) {
    forall i, j | 0 <= i < j < |nodes| :: nodes[i] != nodes[j]
  }

  ghost predicate LinkedAt(nodes: seq<WaiterNode>, i: nat)
    requires i < |nodes|
    reads nodes
  {
    nodes[i].tail == Next(nodes, i) && nodes[i].head == Before(nodes, i)
  }

  /** The tail and head pointers run through the nodes in order. */
  ghost predicate Links(nodes: seq<WaiterNode>)
    reads nodes
  {
    forall i: nat | i < |nodes| :: LinkedAt(nodes, i)
  }

  class WaitList {
    var first: WaiterNode?
    ghost var nodes: seq<WaiterNode>
    ghost var owned: set<WaiterNode>

    constructor ()
      ensures Valid() && nodes == [] && owned == {}
    {
      first := null;
      nodes := [];
      owned := {};
    }

    ghost predicate Valid()
      reads this, owned
    {
      (forall n | n in nodes :: n in owned) && Distinct(nodes) && first == NodeAt(nodes, 0) && Links(nodes)
    }

    ghost function View(): seq<Waiter>
      reads this
    {
      Entries(nodes)
    }

    lemma FirstNode()
      requires Valid()
      ensures first == NodeAt(nodes, 0)
    {
    }

    /** A new waiter goes to the front. */
    method PushFront(w: Waiter)
      requires Valid()
      modifies this, owned
      ensures Valid() && View() == [w] + old(View())
      ensures fresh(owned - old(owned))
    {
      hide Links;
      var n := new WaiterNode(w);
      InsertFront(n);
    }

    method InsertFront(n: WaiterNode)
      requires Valid() && n !in nodes
      modifies this, owned, n
      ensures Valid() && nodes == [n] + old(nodes) && View() == [n.w] + old(View()) && owned == old(owned) + {n}
    {
      ghost var r := nodes;
      n.head := null;
      n.tail := first;
      if first != null {
        first.head := n;
      }
      first := n;
      nodes := [n] + nodes;
      owned := owned + {n};
      forall i: nat | i < |nodes| ensures LinkedAt(nodes, i) {
        if i > 0 {
          assert nodes[i] == r[i - 1] && old(LinkedAt(r, i - 1));
        }
      }
      EntriesPush(r, n);
    }

    /** The waiter before number i, or the list head, skips it. */
    method SkipForward(curr: WaiterNode, ghost i: nat)
      requires Valid() && i < |nodes| && curr == nodes[i]
      modifies this`first, owned`tail
      ensures forall k | 0 <= k < |nodes| ::
                nodes[k].tail == if k + 1 == i then old(nodes[i].tail) else old(nodes[k].tail)
      ensures first == if i == 0 then old(nodes[i].tail) else old(first)
    {
      assert LinkedAt(nodes, i);
      if curr.head != null {
        curr.head.tail := curr.tail;
      } else {
        first := curr.tail;
      }
    }

    /** The waiter after number i, if any, points back past it. */
    method SkipBackward(curr: WaiterNode, ghost i: nat)
      requires (forall n | n in nodes :: n in owned) && Distinct(nodes)
      requires i < |nodes| && curr == nodes[i] && curr.tail == Next(nodes, i)
      modifies owned`head
      ensures forall k | 0 <= k < |nodes| ::
                nodes[k].head == if k == i + 1 then old(nodes[i].head) else old(nodes[k].head)
    {
      if curr.tail != null {
        curr.tail.head := curr.head;
      }
    }

    /** Both neighbours of number i skip it. */
    method Bypass(curr: WaiterNode, ghost i: nat) returns (next: WaiterNode?)
      requires Valid() && i < |nodes| && curr == nodes[i]
      modifies this`first, owned
      ensures Links(nodes[..i] + nodes[i + 1..])
      ensures first == NodeAt(nodes[..i] + nodes[i + 1..], 0) && next == NodeAt(nodes[..i] + nodes[i + 1..], i)
    {
      assert LinkedAt(nodes, i);
      SkipForward(curr, i);
      SkipBackward(curr, i);
      next := curr.tail;
      ghost var s := nodes[..i] + nodes[i + 1..];
      forall j: nat | j < |s| ensures LinkedAt(s, j) {
        RemoveShift(nodes, i, j);
        assert old(LinkedAt(nodes, if j < i then j else j + 1));
      }
    }

    /** Unlink waiter number i, at curr; the result is the waiter after it. */
    method Remove(curr: WaiterNode, ghost i: nat) returns (next: WaiterNode?)
      requires Valid() && i < |nodes| && curr == nodes[i]
      modifies this`first, this`nodes, owned
      ensures Valid() && nodes == old(nodes)[..i] + old(nodes)[i + 1..]
      ensures View() == old(View())[..i] + old(View())[i + 1..]
      ensures next == NodeAt(nodes, i)
    {
      hide Links;
      next := Bypass(curr, i);
      EntriesWithout(nodes, i);
      nodes := nodes[..i] + nodes[i + 1..];
    }

    /** Where the entries of the list come from after number i has been removed. */
    static lemma RemoveShift(r: seq<WaiterNode>, i: nat, j: nat)
      requires i < |r| && j < |r| - 1
      ensures var s := r[..i] + r[i + 1..];
              var k := if j < i then j else j + 1;
              && s[j] == r[k]
              && Next(s, j) == (if k + 1 == i then Next(r, i) else Next(r, k))
              && Before(s, j) == (if k == i + 1 then Before(r, i) else Before(r, k))
    {
    }
  }
}
