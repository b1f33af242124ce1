/**
 * Circular doubly linked lists threaded through an array of cells.
 *
 * A cell is two words, "prev" and "next"; a pointer is the number of a cell.
 * Cell s below 2^levels is the start of slot s of the arena, the cells from
 * 2^levels on are the heads of the buckets.
 */
module FreeLists {
  import opened BuddyIndex
  import opened BuddyHeap
  import opened BuddyCover

  // ---------------------------------------------------------------- one ring

  /** Cell number j of the ring, where -1 and |l| both stand for the head. */
  ghost function RingCell(head: nat, l: seq<nat>, j: int): nat
    requires -1 <= j <= |l|
  {
    if j == -1 || j == |l| then head else l[j]
  }

  /** The two words that link cell j - 1 to cell j. */
  ghost predicate LinkAt(prev: seq<nat>, next: seq<nat>, head: nat, l: seq<nat>, j: int)
    requires 0 <= j <= |l|
  {
    var a, b := RingCell(head, l, j - 1), RingCell(head, l, j);
    a < |next| && next[a] == b && b < |prev| && prev[b] == a
  }

  /** From the head around, the links run through exactly the cells of l. */
  ghost predicate Ring(prev: seq<nat>, next: seq<nat>, head: nat, l: seq<nat>) {
    && |prev| == |next| && head < |prev| && head !in l
    && NoDuplicates(l)
    && forall j | 0 <= j <= |l| :: LinkAt(prev, next, head, l, j)
  }

  lemma CellsDiffer(head: nat, l: seq<nat>, a: int, b: int)
    requires head !in l && NoDuplicates(l) && -1 <= a < b < |l|
    ensures RingCell(head, l, a) != RingCell(head, l, b)
  {
    assert l[b] in l;
  }

  /** The words after "list_push". */
  ghost function PushedPrev(prev: seq<nat>, head: nat, e: nat): seq<nat>
    requires head < |prev| && e < |prev|
  {
    prev[e := prev[head]][head := e]
  }

  ghost function PushedNext(prev: seq<nat>, next: seq<nat>, head: nat, e: nat): seq<nat>
    requires head < |prev| && e < |next| && prev[head] < |next|
  {
    next[e := head][prev[head] := e]
  }

  /** The words after "list_remove". */
  ghost function RemovedPrev(prev: seq<nat>, next: seq<nat>, e: nat): seq<nat>
    requires e < |prev| && e < |next| && next[e] < |prev|
  {
    prev[next[e] := prev[e]]
  }

  ghost function RemovedNext(prev: seq<nat>, next: seq<nat>, e: nat): seq<nat>
    requires e < |prev| && e < |next| && prev[e] < |next|
  {
    next[prev[e] := next[e]]
  }

  lemma PushRing(prev: seq<nat>, next: seq<nat>, head: nat, l: seq<nat>, e: nat)
    requires Ring(prev, next, head, l) && e < |prev| && e != head && e !in l
    ensures prev[head] == RingCell(head, l, |l| - 1) && prev[head] < |next|
    ensures Ring(PushedPrev(prev, head, e), PushedNext(prev, next, head, e), head, l + [e])
  {
    assert LinkAt(prev, next, head, l, |l|);
    var p, n, m := PushedPrev(prev, head, e), PushedNext(prev, next, head, e), l + [e];
    forall j | 0 <= j <= |m| ensures LinkAt(p, n, head, m, j) {
      if j < |l| {
        assert LinkAt(prev, next, head, l, j);
        CellsDiffer(head, l, j - 1, |l| - 1);
        assert RingCell(head, m, j - 1) == RingCell(head, l, j - 1) && RingCell(head, m, j) == l[j] != head;
      }
    }
  }

  /** The cells on both sides of entry j. */
  lemma Neighbours(prev: seq<nat>, next: seq<nat>, head: nat, l: seq<nat>, j: nat)
    requires Ring(prev, next, head, l) && j < |l|
    ensures l[j] < |prev| && prev[l[j]] == RingCell(head, l, j - 1) && next[l[j]] == RingCell(head, l, j + 1)
    ensures prev[l[j]] < |next| && next[l[j]] < |prev|
  {
    assert LinkAt(prev, next, head, l, j) && LinkAt(prev, next, head, l, j + 1);
  }

  lemma RemoveRing(prev: seq<nat>, next: seq<nat>, head: nat, l: seq<nat>, j: nat)
    requires Ring(prev, next, head, l) && j < |l|
    requires l[j] < |prev| && prev[l[j]] < |next| && next[l[j]] < |prev|
    ensures Ring(RemovedPrev(prev, next, l[j]), RemovedNext(prev, next, l[j]), head, l[..j] + l[j + 1..])
  {
    Neighbours(prev, next, head, l, j);
    var p, n, m := RemovedPrev(prev, next, l[j]), RemovedNext(prev, next, l[j]), l[..j] + l[j + 1..];
    forall x | 0 <= x <= |m| ensures LinkAt(p, n, head, m, x) {
      if x < j {
        LinkKept(prev, next, head, l, j, x);
        assert RingCell(head, m, x - 1) == RingCell(head, l, x - 1) && RingCell(head, m, x) == RingCell(head, l, x);
      } else if x > j {
        LinkKept(prev, next, head, l, j, x + 1);
        assert RingCell(head, m, x - 1) == RingCell(head, l, x) && RingCell(head, m, x) == RingCell(head, l, x + 1);
      } else {
        assert RingCell(head, m, x - 1) == RingCell(head, l, j - 1) && RingCell(head, m, x) == RingCell(head, l, j + 1);
      }
    }
  }

  /** Removing entry j leaves every link that does not touch it. */
  lemma LinkKept(prev: seq<nat>, next: seq<nat>, head: nat, l: seq<nat>, j: nat, x: nat)
    requires Ring(prev, next, head, l) && j < |l| && x <= |l| && x != j && x != j + 1
    requires l[j] < |prev| && prev[l[j]] < |next| && next[l[j]] < |prev|
    ensures LinkAt(RemovedPrev(prev, next, l[j]), RemovedNext(prev, next, l[j]), head, l, x)
  {
    Neighbours(prev, next, head, l, j);
    assert LinkAt(prev, next, head, l, x);
    if x < j {
      CellsDiffer(head, l, x - 1, j - 1);
      if j + 1 < |l| {
        CellsDiffer(head, l, x, j + 1);
      } else {
        CellsDiffer(head, l, -1, x);
      }
    } else {
      CellsDiffer(head, l, j - 1, x - 1);
      if x < |l| {
        CellsDiffer(head, l, j + 1, x);
      } else {
        CellsDiffer(head, l, -1, j + 1);
      }
    }
  }

  /** A ring whose cells keep their links stays a ring. */
  lemma RingFrame(prev: seq<nat>, next: seq<nat>, p: seq<nat>, n: seq<nat>, head: nat, l: seq<nat>)
    requires Ring(prev, next, head, l) && |p| == |prev| && |n| == |next|
    requires p[head] == prev[head] && n[head] == next[head]
    requires forall c: nat | c in l && c < |prev| :: p[c] == prev[c] && n[c] == next[c]
    ensures Ring(p, n, head, l)
  {
    forall j | 0 <= j <= |l| ensures LinkAt(p, n, head, l, j) {
      assert LinkAt(prev, next, head, l, j);
      assert 0 < j ==> l[j - 1] in l;
      assert j < |l| ==> l[j] in l;
    }
  }

  // ---------------------------------------------------------------- all rings

  /** Cell of the list head of bucket k. */
  function Head(levels: nat, k: nat): nat {
    Pow2(levels) + k
  }

  ghost predicate AllAtLevel(l: seq<nat>, k: nat) {
    forall i | i in l :: AtLevel(i, k)
  }

  /** First cells of the nodes of a list. */
  ghost function Cells(levels: nat, l: seq<nat>, k: nat): (r: seq<nat>)
    requires k <= levels && AllAtLevel(l, k)
    ensures |r| == |l|
    ensures forall j | 0 <= j < |l| :: r[j] == SlotOf(levels, l[j], k)
  {
    seq(|l|, j requires 0 <= j < |l| => assert l[j] in l; SlotOf(levels, l[j], k))
  }

  /** The words of memory hold exactly the lists of the buckets from the root's on. */
  ghost predicate Rings(prev: seq<nat>, next: seq<nat>, levels: nat, bottom: nat, lists: seq<seq<nat>>) {
    && |lists| == levels + 1
    && |prev| == |next| == Pow2(levels) + levels + 1
    && (forall k: nat | k <= levels :: AllAtLevel(lists[k], k))
    && forall k: nat | bottom <= k <= levels :: Ring(prev, next, Head(levels, k), Cells(levels, lists[k], k))
  }

  lemma ListLevels(h: Heap)
    requires Inv(h)
    ensures forall k: nat | k <= h.levels :: AllAtLevel(h.lists[k], k)
  {
    forall k: nat | k <= h.levels ensures AllAtLevel(h.lists[k], k) {
      assert ListOk(h, k);
    }
  }

  /** Cells of different list entries differ, and none is a bucket head. */
  lemma CellsApart(h: Heap, i: nat, k: nat, j: nat, m: nat)
    requires Inv(h) && k <= h.levels && m <= h.levels && i in h.lists[k] && j in h.lists[m]
    ensures AtLevel(i, k) && AtLevel(j, m) && SlotOf(h.levels, i, k) < Pow2(h.levels)
    ensures SlotOf(h.levels, i, k) == SlotOf(h.levels, j, m) ==> i == j && k == m
  {
    assert ListOk(h, k) && ListOk(h, m);
    SlotInArena(h.levels, i, k);
    if SlotOf(h.levels, i, k) == SlotOf(h.levels, j, m) {
      SameStart(h, i, k, j, m);
    }
  }

  lemma ListApart(h: Heap, k: nat)
    requires Inv(h) && k <= h.levels
    ensures AllAtLevel(h.lists[k], k) && NoDuplicates(Cells(h.levels, h.lists[k], k))
    ensures forall c | c in Cells(h.levels, h.lists[k], k) :: c < Pow2(h.levels)
  {
    ListLevels(h);
    assert ListOk(h, k);
    var s := Cells(h.levels, h.lists[k], k);
    forall x, y | 0 <= x < y < |s| ensures s[x] != s[y] {
      CellsApart(h, h.lists[k][x], k, h.lists[k][y], k);
    }
    forall x | 0 <= x < |s| ensures s[x] < Pow2(h.levels) {
      CellsApart(h, h.lists[k][x], k, h.lists[k][x], k);
    }
  }

  /** Cell c is the head or the cell of an entry of the list of bucket k. */
  ghost predicate RingNeighbour(h: Heap, k: nat, c: nat)
    requires Shape(h) && k <= h.levels
  {
    c == Head(h.levels, k) || exists j :: j in h.lists[k] && AtLevel(j, k) && c == SlotOf(h.levels, j, k)
  }

  lemma CellIsNeighbour(h: Heap, k: nat, j: int)
    requires Inv(h) && k <= h.levels && AllAtLevel(h.lists[k], k) && -1 <= j <= |h.lists[k]|
    ensures RingNeighbour(h, k, RingCell(Head(h.levels, k), Cells(h.levels, h.lists[k], k), j))
  {
    if 0 <= j < |h.lists[k]| {
      assert h.lists[k][j] in h.lists[k];
    }
  }

  lemma NeighbourApart(h: Heap, k: nat, c: nat, m: nat)
    requires Inv(h) && k <= h.levels && m <= h.levels && k != m && RingNeighbour(h, k, c)
    ensures AllAtLevel(h.lists[m], m) && c !in Cells(h.levels, h.lists[m], m) && c != Head(h.levels, m)
  {
    ListLevels(h);
    ListApart(h, m);
    var cells := Cells(h.levels, h.lists[m], m);
    if c != Head(h.levels, k) {
      var j :| j in h.lists[k] && AtLevel(j, k) && c == SlotOf(h.levels, j, k);
      CellsApart(h, j, k, j, k);
      forall y | 0 <= y < |cells| ensures cells[y] != c {
        CellsApart(h, j, k, h.lists[m][y], m);
      }
    }
  }

  /** Only words of cells of bucket k's ring have changed. */
  ghost predicate ChangesOnly(prev: seq<nat>, next: seq<nat>, p: seq<nat>, n: seq<nat>, h: Heap, k: nat)
    requires Shape(h) && k <= h.levels
  {
    && |p| == |prev| && |n| == |next| && |prev| == |next|
    && forall c: nat | c < |prev| :: (p[c] == prev[c] && n[c] == next[c]) || RingNeighbour(h, k, c)
  }

  /** After a change to the ring of bucket k, the rings of all buckets are in order. */
  lemma RingsAfterChange(prev: seq<nat>, next: seq<nat>, p: seq<nat>, n: seq<nat>,
                         bottom: nat, lists: seq<seq<nat>>, h: Heap, k: nat, l: seq<nat>)
    requires Inv(h) && k <= h.levels && Rings(prev, next, h.levels, bottom, lists)
    requires h.lists == lists[k := h.lists[k]]
    requires ChangesOnly(prev, next, p, n, h, k)
    requires AllAtLevel(l, k) && Ring(p, n, Head(h.levels, k), Cells(h.levels, l, k))
    ensures Rings(p, n, h.levels, bottom, lists[k := l])
  {
    forall m: nat | bottom <= m <= h.levels && m != k
      ensures Ring(p, n, Head(h.levels, m), Cells(h.levels, lists[m], m))
    {
      var cells := Cells(h.levels, lists[m], m);
      forall c: nat | c < |prev| && (c in cells || c == Head(h.levels, m))
        ensures p[c] == prev[c] && n[c] == next[c]
      {
        if RingNeighbour(h, k, c) {
          NeighbourApart(h, k, c, m);
        }
      }
      RingFrame(prev, next, p, n, Head(h.levels, m), cells);
    }
  }

  /** Pushing the cell of node i onto the list of bucket k; h is the heap afterwards. */
  lemma RingsAfterPush(prev: seq<nat>, next: seq<nat>, bottom: nat, lists: seq<seq<nat>>, h: Heap, k: nat, i: nat)
    requires Inv(h) && bottom <= k <= h.levels && AtLevel(i, k)
    requires Rings(prev, next, h.levels, bottom, lists)
    requires h.lists == lists[k := lists[k] + [i]]
    ensures Head(h.levels, k) < |prev| && SlotOf(h.levels, i, k) < |prev| && prev[Head(h.levels, k)] < |next|
    ensures var p := PushedPrev(prev, Head(h.levels, k), SlotOf(h.levels, i, k));
            var n := PushedNext(prev, next, Head(h.levels, k), SlotOf(h.levels, i, k));
            ChangesOnly(prev, next, p, n, h, k) && Rings(p, n, h.levels, bottom, h.lists)
  {
    var head, e, cells := Head(h.levels, k), SlotOf(h.levels, i, k), Cells(h.levels, lists[k], k);
    PushedCells(lists[k], h, k, i);
    PushRing(prev, next, head, cells, e);
    CellIsNeighbour(h, k, -1);
    CellIsNeighbour(h, k, |cells|);
    CellIsNeighbour(h, k, |cells| - 1);
    RingsAfterChange(prev, next, PushedPrev(prev, head, e), PushedNext(prev, next, head, e),
                     bottom, lists, h, k, h.lists[k]);
  }

  lemma PushedCells(l: seq<nat>, h: Heap, k: nat, i: nat)
    requires Inv(h) && k <= h.levels && AtLevel(i, k) && AllAtLevel(l, k) && h.lists[k] == l + [i]
    ensures AllAtLevel(h.lists[k], k)
    ensures var cells, e := Cells(h.levels, l, k), SlotOf(h.levels, i, k);
            && e < Pow2(h.levels) && e !in cells
            && Cells(h.levels, h.lists[k], k) == cells + [e]
            && RingCell(Head(h.levels, k), cells + [e], |cells| - 1) == RingCell(Head(h.levels, k), cells, |cells| - 1)
  {
    ListApart(h, k);
    var cells, after := Cells(h.levels, l, k), Cells(h.levels, h.lists[k], k);
    assert after[|cells|] in after;
    forall x | 0 <= x < |cells| ensures cells[x] != after[|cells|] {
      assert after[x] == cells[x];
    }
  }

  lemma EntryCell(prev: seq<nat>, next: seq<nat>, h: Heap, k: nat, x: nat) returns (j: nat)
    requires Inv(h) && h.bottom <= k <= h.levels && x in h.lists[k]
    requires Rings(prev, next, h.levels, h.bottom, h.lists)
    ensures AtLevel(x, k) && j < |h.lists[k]| && h.lists[k][j] == x
    ensures var e := SlotOf(h.levels, x, k);
            e < |prev| && prev[e] < |next| && next[e] < |prev|
            && RingNeighbour(h, k, prev[e]) && RingNeighbour(h, k, next[e])
  {
    ListLevels(h);
    j :| 0 <= j < |h.lists[k]| && h.lists[k][j] == x;
    Neighbours(prev, next, Head(h.levels, k), Cells(h.levels, h.lists[k], k), j);
    CellIsNeighbour(h, k, j + 1);
    CellIsNeighbour(h, k, j - 1);
  }

  lemma CellsWithout(h: Heap, k: nat, j: nat)
    requires Inv(h) && k <= h.levels && j < |h.lists[k]|
    ensures var l := h.lists[k];
            && AllAtLevel(l, k) && AllAtLevel(Without(l, l[j]), k)
            && var cells := Cells(h.levels, l, k);
               Cells(h.levels, Without(l, l[j]), k) == cells[..j] + cells[j + 1..]
  {
    ListLevels(h);
    assert ListOk(h, k);
    WithoutAt(h.lists[k], j);
    WithoutMembers(h.lists[k], h.lists[k][j]);
  }

  /** Unlinking the cell of node x of bucket k; h is the heap before. */
  lemma RingsAfterRemove(prev: seq<nat>, next: seq<nat>, h: Heap, k: nat, x: nat)
    requires Inv(h) && h.bottom <= k <= h.levels && x in h.lists[k]
    requires Rings(prev, next, h.levels, h.bottom, h.lists)
    ensures AtLevel(x, k)
    ensures var e := SlotOf(h.levels, x, k);
            && e < |prev| && prev[e] < |next| && next[e] < |prev|
            && ChangesOnly(prev, next, RemovedPrev(prev, next, e), RemovedNext(prev, next, e), h, k)
            && Rings(RemovedPrev(prev, next, e), RemovedNext(prev, next, e), h.levels, h.bottom,
                     h.lists[k := Without(h.lists[k], x)])
  {
    var j := EntryCell(prev, next, h, k, x);
    var e := SlotOf(h.levels, x, k);
    CellsWithout(h, k, j);
    RemoveRing(prev, next, Head(h.levels, k), Cells(h.levels, h.lists[k], k), j);
    RingsAfterChange(prev, next, RemovedPrev(prev, next, e), RemovedNext(prev, next, e),
                     h.bottom, h.lists, h, k, Without(h.lists[k], x));
  }

  /** Emptying the ring of a bucket outside the tree brings that bucket into it. */
  lemma RingsAfterInit(prev: seq<nat>, next: seq<nat>, levels: nat, bottom: nat, lists: seq<seq<nat>>)
    requires Rings(prev, next, levels, bottom, lists) && 0 < bottom <= levels + 1
    requires forall k: nat | bottom <= k <= levels ::
               forall c | c in Cells(levels, lists[k], k) :: c < Pow2(levels)
    ensures var head := Head(levels, bottom - 1);
            Rings(prev[head := head], next[head := head], levels, bottom - 1, lists[bottom - 1 := []])
  {
    var head := Head(levels, bottom - 1);
    var p, n := prev[head := head], next[head := head];
    forall m: nat | bottom <= m <= levels ensures Ring(p, n, Head(levels, m), Cells(levels, lists[m], m)) {
      RingFrame(prev, next, p, n, Head(levels, m), Cells(levels, lists[m], m));
    }
  }

  /** Writing a word of a cell that is on no list leaves the lists alone. */
  lemma RingsAfterWrite(prev: seq<nat>, next: seq<nat>, p: seq<nat>, n: seq<nat>, h: Heap, c: nat)
    requires Inv(h) && Rings(prev, next, h.levels, h.bottom, h.lists) && c < Pow2(h.levels)
    requires |p| == |prev| && |n| == |next|
    requires forall d | 0 <= d < |prev| && d != c :: p[d] == prev[d] && n[d] == next[d]
    requires forall i, k: nat | k <= h.levels && i in h.lists[k] && AtLevel(i, k) :: SlotOf(h.levels, i, k) != c
    ensures Rings(p, n, h.levels, h.bottom, h.lists)
  {
    forall m: nat | h.bottom <= m <= h.levels
      ensures Ring(p, n, Head(h.levels, m), Cells(h.levels, h.lists[m], m))
    {
      var cells := Cells(h.levels, h.lists[m], m);
      ListApart(h, m);
      forall x | 0 <= x < |cells| ensures cells[x] != c {
        assert h.lists[m][x] in h.lists[m];
      }
      RingFrame(prev, next, p, n, Head(h.levels, m), cells);
    }
  }
}
