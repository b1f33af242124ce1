/**
 * The buddy heap on values: one status per tree node and, for every bucket, the
 * ordered list of its free nodes.  The steps below are the elementary moves of
 * malloc, free and growth.  A block that malloc has popped but not yet split
 * down, or that free is still merging, has status Live, so that every
 * intermediate heap satisfies the same invariant.
 */
module BuddyHeap {
  import opened BuddyIndex

  /**
   * Free:   on a free list.
   * Live:   handed out, or in the hands of malloc or free.
   * Inner:  neither of the above, but divided into blocks below.
   * Absent: strictly inside a Free or Live block, or outside the current root.
   */
  datatype Status = Absent | Free | Live | Inner

  /** base is the address of the arena, bottom the bucket of the current root ("bucket_limit"). */
  datatype Heap = Heap(levels: nat, base: nat, bottom: nat, nodes: seq<Status>, lists: seq<seq<nat>>)

  ghost predicate Shape(h: Heap) {
    && h.bottom <= h.levels
    && |h.nodes| == 2 * Pow2(h.levels) - 1
    && |h.lists| == h.levels + 1
  }

  ghost function Root(h: Heap): nat {
    Leftmost(h.bottom)
  }

  ghost predicate Internal(h: Heap, i: nat) {
    i < Pow2(h.levels) - 1
  }

  ghost predicate NodeOk(h: Heap, i: nat)
    requires Shape(h) && i < |h.nodes|
  {
    && (i < Root(h) ==> h.nodes[i] == Absent)
    && (h.nodes[i] == Inner ==>
          && Internal(h, i)
          && h.nodes[2 * i + 1] != Absent && h.nodes[2 * i + 2] != Absent
          && !(h.nodes[2 * i + 1] == Free && h.nodes[2 * i + 2] == Free))
    && (h.nodes[i] != Inner && Internal(h, i) ==>
          && h.nodes[2 * i + 2] == Absent
          && (h.nodes[2 * i + 1] == Absent || 2 * i + 1 == Root(h)))
  }

  ghost predicate Tree(h: Heap) {
    && Shape(h)
    && Root(h) < |h.nodes| && h.nodes[Root(h)] != Absent
    && forall i: nat | i < |h.nodes| :: NodeOk(h, i)
  }

  ghost predicate NoDuplicates(l: seq<nat>) {
    forall x, y | 0 <= x < y < |l| :: l[x] != l[y]
  }

  /** The list of bucket k holds exactly the free nodes of bucket k, once each. */
  ghost predicate ListOk(h: Heap, k: nat)
    requires Shape(h) && k <= h.levels
  {
    && NoDuplicates(h.lists[k])
    && (forall i: nat :: i in h.lists[k] ==> i < |h.nodes| && AtLevel(i, k) && h.nodes[i] == Free)
    && (forall i: nat | i < |h.nodes| && h.nodes[i] == Free && AtLevel(i, k) :: i in h.lists[k])
  }

  ghost predicate Inv(h: Heap) {
    && Tree(h)
    && forall k: nat | k <= h.levels :: ListOk(h, k)
  }

  ghost function LiveNodes(h: Heap): set<nat> {
    set i: nat | i < |h.nodes| && h.nodes[i] == Live
  }

  /** The split bit of internal node i, from the statuses around it. */
  ghost predicate BitOf(h: Heap, i: nat)
    requires Shape(h) && Internal(h, i)
  {
    if 2 * i + 1 == Root(h) then
      h.nodes[Root(h)] != Free
    else
      h.nodes[i] == Inner && (h.nodes[2 * i + 1] == Free) != (h.nodes[2 * i + 2] == Free)
  }

  /** From h to h' the bit of node p flips and no other bit changes. */
  ghost predicate FlipsOnly(h: Heap, h': Heap, p: nat)
    requires Shape(h) && Shape(h') && h.levels == h'.levels
  {
    forall j: nat | Internal(h, j) :: BitOf(h', j) == (if j == p then !BitOf(h, j) else BitOf(h, j))
  }

  ghost predicate SameBits(h: Heap, h': Heap)
    requires Shape(h) && Shape(h') && h.levels == h'.levels
  {
    forall j: nat | Internal(h, j) :: BitOf(h', j) == BitOf(h, j)
  }

  // ---------------------------------------------------------------- lists

  ghost function Without(l: seq<nat>, x: nat): seq<nat> {
    if l == [] then [] else if l[0] == x then l[1..] else [l[0]] + Without(l[1..], x)
  }

  lemma {:induction false} WithoutAt(l: seq<nat>, j: nat)
    requires j < |l| && NoDuplicates(l)
    ensures Without(l, l[j]) == l[..j] + l[j + 1..]
  {
    if j > 0 {
      var r := l[1..];
      assert NoDuplicates(r) && r[j - 1] == l[j] && l[0] != l[j];
      WithoutAt(r, j - 1);
      assert l[..j] == [l[0]] + r[..j - 1];
      assert l[j + 1..] == r[j..];
    }
  }

  lemma {:induction false} WithoutMembers(l: seq<nat>, x: nat)
    requires NoDuplicates(l)
    ensures NoDuplicates(Without(l, x))
    ensures forall y :: y in Without(l, x) <==> y in l && y != x
  {
    if l != [] {
      WithoutMembers(l[1..], x);
      assert l[0] !in l[1..];
      assert forall y :: y in l <==> y == l[0] || y in l[1..];
    }
  }

  lemma {:induction false} WithoutAbsent(l: seq<nat>, x: nat)
    requires x !in l
    ensures Without(l, x) == l
  {
    if l != [] {
      WithoutAbsent(l[1..], x);
    }
  }

  lemma WithoutLast(l: seq<nat>, x: nat)
    requires NoDuplicates(l + [x])
    ensures Without(l + [x], x) == l
  {
    WithoutAt(l + [x], |l|);
    assert (l + [x])[..|l|] == l;
  }

  ghost function Last(l: seq<nat>): nat
    requires l != []
  {
    l[|l| - 1]
  }

  ghost function ButLast(l: seq<nat>): seq<nat>
    requires l != []
  {
    l[..|l| - 1]
  }

  lemma AnotherMember(l: seq<nat>, x: nat)
    requires NoDuplicates(l)
    ensures l == [] || l == [x] || exists y :: y in l && y != x
  {
    if l != [] && l != [x] {
      assert l[0] in l;
      assert |l| > 1 ==> l[1] in l;
    }
  }

  lemma ButLastMembers(l: seq<nat>)
    requires NoDuplicates(l) && l != []
    ensures NoDuplicates(ButLast(l)) && l == ButLast(l) + [Last(l)] && Last(l) in l
    ensures forall y :: y in ButLast(l) <==> y in l && y != Last(l)
  {
    assert l == ButLast(l) + [Last(l)];
  }

  // ---------------------------------------------------------------- steps

  /** Pop the last free node of bucket k. */
  ghost function Take(h: Heap, k: nat): Heap
    requires Inv(h) && k <= h.levels && h.lists[k] != []
  {
    assert ListOk(h, k) && Last(h.lists[k]) in h.lists[k];
    h.(nodes := h.nodes[Last(h.lists[k]) := Live], lists := h.lists[k := ButLast(h.lists[k])])
  }

  /** Node i of bucket k is a block in somebody's hands. */
  ghost predicate Held(h: Heap, i: nat, k: nat) {
    && Inv(h)
    && k <= h.levels && AtLevel(i, k)
    && i < |h.nodes| && h.nodes[i] == Live
  }

  /** Keep the left half of a held block and free the right half. */
  ghost function Split(h: Heap, i: nat, k: nat): Heap
    requires Held(h, i, k) && k < h.levels && Internal(h, i)
  {
    h.(nodes := h.nodes[i := Inner][2 * i + 1 := Live][2 * i + 2 := Free],
       lists := h.lists[k + 1 := h.lists[k + 1] + [2 * i + 2]])
  }

  /** The buddy of node i is free, so that i can be merged with it. */
  ghost predicate BuddyFree(h: Heap, i: nat, k: nat)
    requires Held(h, i, k)
  {
    k > h.bottom && i > 0 && Sibling(i) < |h.nodes| && h.nodes[Sibling(i)] == Free
  }

  /** Join a held block with its free buddy. */
  ghost function Merge(h: Heap, i: nat, k: nat): Heap
    requires Held(h, i, k) && BuddyFree(h, i, k)
  {
    h.(nodes := h.nodes[i := Absent][Sibling(i) := Absent][Parent(i) := Live],
       lists := h.lists[k := Without(h.lists[k], Sibling(i))])
  }

  /** Put a held block at the back of its free list. */
  ghost function Release(h: Heap, i: nat, k: nat): Heap
    requires Held(h, i, k)
  {
    h.(nodes := h.nodes[i := Free], lists := h.lists[k := h.lists[k] + [i]])
  }

  /** Double the tree while its root is free: the new root is one free block. */
  ghost function GrowUnused(h: Heap): Heap
    requires Inv(h) && h.bottom > 0 && h.nodes[Root(h)] == Free
  {
    var b, p := h.bottom, Leftmost(h.bottom - 1);
    h.(bottom := b - 1, nodes := h.nodes[Root(h) := Absent][p := Free],
       lists := h.lists[b := Without(h.lists[b], Root(h))][b - 1 := [p]])
  }

  /** Double the tree while its root is in use: the new right half is one free block. */
  ghost function GrowUsed(h: Heap): Heap
    requires Inv(h) && h.bottom > 0 && h.nodes[Root(h)] != Free && Root(h) + 1 < |h.nodes|
  {
    var b, p := h.bottom, Leftmost(h.bottom - 1);
    h.(bottom := b - 1, nodes := h.nodes[p := Inner][Root(h) + 1 := Free],
       lists := h.lists[b := h.lists[b] + [Root(h) + 1]][b - 1 := []])
  }

  // ------------------------------------------------- the steps keep the invariant

  lemma TakeKeepsTree(h: Heap, k: nat)
    requires Inv(h) && k <= h.levels && h.lists[k] != []
    ensures Tree(Take(h, k))
  {
    var h' := Take(h, k);
    assert ListOk(h, k);
    assert Last(h.lists[k]) in h.lists[k];
    forall j: nat | j < |h'.nodes| ensures NodeOk(h', j) {
      assert NodeOk(h, j);
    }
  }

  lemma TakeKeepsLists(h: Heap, k: nat)
    requires Inv(h) && k <= h.levels && h.lists[k] != []
    ensures Shape(Take(h, k))
    ensures forall m: nat | m <= h.levels :: ListOk(Take(h, k), m)
  {
    var h', l := Take(h, k), h.lists[k];
    var i := Last(l);
    assert ListOk(h, k);
    ButLastMembers(l);
    forall m: nat | m <= h.levels ensures ListOk(h', m) {
      assert ListOk(h, m);
      if m != k && i in h.lists[m] {
        LevelUnique(i, k, m);
      }
    }
  }

  lemma TakeKeeps(h: Heap, k: nat)
    requires Inv(h) && k <= h.levels && h.lists[k] != []
    ensures Held(Take(h, k), Last(h.lists[k]), k)
    ensures LiveNodes(Take(h, k)) == LiveNodes(h) + {Last(h.lists[k])}
    ensures Last(h.lists[k]) !in LiveNodes(h)
  {
    TakeKeepsTree(h, k);
    TakeKeepsLists(h, k);
    assert ListOk(h, k);
    assert Last(h.lists[k]) in h.lists[k];
  }

  lemma SplitKeepsTree(h: Heap, i: nat, k: nat)
    requires Held(h, i, k) && k < h.levels && Internal(h, i)
    ensures Tree(Split(h, i, k))
    ensures h.nodes[2 * i + 1] == Absent && h.nodes[2 * i + 2] == Absent
  {
    var h' := Split(h, i, k);
    assert NodeOk(h, i);
    forall j: nat | j < |h'.nodes| ensures NodeOk(h', j) {
      assert NodeOk(h, j);
    }
  }

  lemma SplitListOk(h: Heap, i: nat, k: nat, m: nat)
    requires Held(h, i, k) && k < h.levels && Internal(h, i) && m <= h.levels
    requires h.nodes[2 * i + 1] == Absent && h.nodes[2 * i + 2] == Absent
    ensures Shape(Split(h, i, k)) && ListOk(Split(h, i, k), m)
  {
    hide NodeOk;
    var h', r := Split(h, i, k), 2 * i + 2;
    ChildLevels(i, k);
    assert ListOk(h, k + 1) && ListOk(h, m);
    forall j: nat | j < |h'.nodes| && h'.nodes[j] == Free && AtLevel(j, m) ensures j in h'.lists[m] {
      if j == r {
        LevelUnique(j, k + 1, m);
      } else {
        assert h.nodes[j] == Free;
      }
    }
  }

  lemma SplitKeeps(h: Heap, i: nat, k: nat)
    requires Held(h, i, k) && k < h.levels && Internal(h, i)
    ensures Held(Split(h, i, k), 2 * i + 1, k + 1)
    ensures LiveNodes(Split(h, i, k)) == LiveNodes(h) - {i} + {2 * i + 1}
    ensures 2 * i + 1 !in LiveNodes(h)
    ensures 2 * i + 2 !in h.lists[k + 1]
  {
    hide NodeOk;
    SplitKeepsTree(h, i, k);
    ChildLevels(i, k);
    assert ListOk(h, k + 1);
    forall m: nat | m <= h.levels ensures ListOk(Split(h, i, k), m) {
      SplitListOk(h, i, k, m);
    }
  }

  lemma MergeParent(h: Heap, i: nat, k: nat)
    requires Held(h, i, k) && k > h.bottom
    ensures i > 0 && AtLevel(Parent(i), k - 1) && Parent(i) < |h.nodes| && Internal(h, Parent(i))
    ensures h.nodes[Parent(i)] == Inner
    ensures Sibling(i) < |h.nodes| && AtLevel(Sibling(i), k) && h.nodes[Sibling(i)] != Absent
  {
    FamilyLevels(i, k);
    InArena(h.levels, Parent(i), k - 1);
    assert NodeOk(h, Parent(i));
    if i == Root(h) {
      LevelUnique(i, k, h.bottom);
    }
  }

  /** A merge, at node j: the pair disappears, and its parent is no longer divided. */
  lemma MergeNodeOk(h: Heap, i: nat, k: nat, j: nat)
    requires Held(h, i, k) && BuddyFree(h, i, k) && j < |h.nodes|
    ensures Shape(Merge(h, i, k)) && NodeOk(Merge(h, i, k), j)
  {
    hide ListOk;
    var h', p, s := Merge(h, i, k), Parent(i), Sibling(i);
    MergeParent(h, i, k);
    FamilyLevels(i, k);
    RootNotMerged(h, i, k);
    assert NodeOk(h, i) && NodeOk(h, s) && NodeOk(h, j);
    if j != p && j != i && j != s {
      assert h'.nodes[j] == h.nodes[j];
      assert Internal(h, j) ==> 2 * j + 1 !in {i, s} && 2 * j + 2 !in {i, s};
    }
  }

  lemma MergeKeepsTree(h: Heap, i: nat, k: nat)
    requires Held(h, i, k) && BuddyFree(h, i, k)
    ensures Tree(Merge(h, i, k))
  {
    hide NodeOk;
    hide ListOk;
    MergeParent(h, i, k);
    FamilyLevels(i, k);
    RootNotMerged(h, i, k);
    forall j: nat | j < |h.nodes| ensures NodeOk(Merge(h, i, k), j) {
      MergeNodeOk(h, i, k, j);
    }
  }

  lemma RootNotMerged(h: Heap, i: nat, k: nat)
    requires Held(h, i, k) && BuddyFree(h, i, k)
    ensures Root(h) != i && Root(h) != Sibling(i)
  {
    FamilyLevels(i, k);
    if Root(h) == i || Root(h) == Sibling(i) {
      LevelUnique(Root(h), k, h.bottom);
    }
  }

  lemma MergeListOk(h: Heap, i: nat, k: nat, m: nat)
    requires Held(h, i, k) && BuddyFree(h, i, k) && m <= h.levels
    ensures Shape(Merge(h, i, k)) && ListOk(Merge(h, i, k), m)
  {
    hide NodeOk;
    var s := Sibling(i);
    MergeParent(h, i, k);
    FamilyLevels(i, k);
    assert ListOk(h, k) && ListOk(h, m);
    WithoutMembers(h.lists[k], s);
    if m != k && s in h.lists[m] {
      LevelUnique(s, k, m);
    }
  }

  lemma MergeKeeps(h: Heap, i: nat, k: nat)
    requires Held(h, i, k) && BuddyFree(h, i, k)
    ensures k > 0 && Held(Merge(h, i, k), Parent(i), k - 1)
    ensures LiveNodes(Merge(h, i, k)) == LiveNodes(h) - {i} + {Parent(i)}
    ensures Parent(i) !in LiveNodes(h)
  {
    hide NodeOk;
    hide ListOk;
    MergeKeepsTree(h, i, k);
    MergeParent(h, i, k);
    FamilyLevels(i, k);
    forall m: nat | m <= h.levels ensures ListOk(Merge(h, i, k), m) {
      MergeListOk(h, i, k, m);
    }
  }

  lemma ReleaseKeeps(h: Heap, i: nat, k: nat)
    requires Held(h, i, k) && !BuddyFree(h, i, k)
    ensures Inv(Release(h, i, k))
    ensures LiveNodes(Release(h, i, k)) == LiveNodes(h) - {i}
    ensures i !in h.lists[k]
  {
    var h' := Release(h, i, k);
    assert ListOk(h, k);
    forall m: nat | m <= h.levels ensures ListOk(h', m) {
      assert ListOk(h, m);
      forall j: nat | j < |h'.nodes| && h'.nodes[j] == Free && AtLevel(j, m) ensures j in h'.lists[m] {
        if j == i {
          LevelUnique(j, k, m);
        } else {
          assert h.nodes[j] == Free;
        }
      }
    }
    ReleaseKeepsTree(h, i, k);
  }

  lemma ReleaseKeepsTree(h: Heap, i: nat, k: nat)
    requires Held(h, i, k) && !BuddyFree(h, i, k)
    ensures Tree(Release(h, i, k))
  {
    var h' := Release(h, i, k);
    if k > h.bottom {
      MergeParent(h, i, k);
      FamilyLevels(i, k);
    } else {
      if i != Root(h) {
        OutsideRoot(h, i, k);
      }
    }
    forall j: nat | j < |h'.nodes| ensures NodeOk(h', j) {
      assert NodeOk(h, j);
    }
  }

  /** Down to the root's bucket, every node but the root is absent. */
  lemma OutsideRoot(h: Heap, i: nat, k: nat)
    requires Tree(h) && k <= h.bottom && AtLevel(i, k) && i < |h.nodes| && i != Root(h)
    ensures h.nodes[i] == Absent
  {
    assert NodeOk(h, i);
    PowMonotone(k, h.bottom);
    if k < h.bottom {
      PowMonotone(k + 1, h.bottom);
    } else {
      FamilyLevels(i, k);
      InArena(h.levels, Parent(i), k - 1);
      assert NodeOk(h, Parent(i));
    }
  }

  /** The place of the new root. */
  lemma NewRoot(h: Heap)
    requires Tree(h) && h.bottom > 0
    ensures Root(h) == 2 * Leftmost(h.bottom - 1) + 1
    ensures Internal(h, Leftmost(h.bottom - 1)) && Root(h) + 1 < |h.nodes|
    ensures h.nodes[Leftmost(h.bottom - 1)] == Absent && h.nodes[Root(h) + 1] == Absent
    ensures AtLevel(Root(h), h.bottom) && AtLevel(Root(h) + 1, h.bottom)
  {
    var p := Leftmost(h.bottom - 1);
    InArena(h.levels, p, h.bottom - 1);
    assert NodeOk(h, p);
  }

  lemma GrowUnusedTree(h: Heap)
    requires Inv(h) && h.bottom > 0 && h.nodes[Root(h)] == Free
    ensures Tree(GrowUnused(h))
  {
    var h' := GrowUnused(h);
    NewRoot(h);
    assert NodeOk(h, Root(h));
    forall j: nat | j < |h'.nodes| ensures NodeOk(h', j) {
      assert NodeOk(h, j);
    }
  }

  lemma GrowUnusedKeeps(h: Heap)
    requires Inv(h) && h.bottom > 0 && h.nodes[Root(h)] == Free
    ensures Inv(GrowUnused(h))
    ensures LiveNodes(GrowUnused(h)) == LiveNodes(h)
    ensures h.lists[h.bottom] == [Root(h)]
  {
    var h', b, r, p := GrowUnused(h), h.bottom, Root(h), Leftmost(h.bottom - 1);
    NewRoot(h);
    GrowUnusedTree(h);
    RootListAlone(h);
    forall m: nat | m <= h.levels ensures ListOk(h', m) {
      assert ListOk(h, m);
      forall j: nat | j < |h'.nodes| && h'.nodes[j] == Free && AtLevel(j, m) ensures j in h'.lists[m] {
        if j == p {
          LevelUnique(j, b - 1, m);
        } else if m <= b {
          OutsideRoot(h, j, m);
        }
      }
      forall j: nat | j in h'.lists[m] ensures j < |h'.nodes| && AtLevel(j, m) && h'.nodes[j] == Free {
        if m != b && m != b - 1 && j == r {
          LevelUnique(j, b, m);
        }
      }
    }
  }

  /** A free root is alone on its list. */
  lemma RootListAlone(h: Heap)
    requires Inv(h)
    ensures h.lists[h.bottom] == if h.nodes[Root(h)] == Free then [Root(h)] else []
  {
    var l := h.lists[h.bottom];
    assert ListOk(h, h.bottom);
    forall x | x in l ensures x == Root(h) {
      if x != Root(h) {
        OutsideRoot(h, x, h.bottom);
      }
    }
    if h.nodes[Root(h)] == Free {
      assert Root(h) in l;
    }
    AnotherMember(l, Root(h));
  }

  lemma GrowUsedTree(h: Heap)
    requires Inv(h) && h.bottom > 0 && h.nodes[Root(h)] != Free && Root(h) + 1 < |h.nodes|
    ensures Tree(GrowUsed(h))
  {
    var h' := GrowUsed(h);
    NewRoot(h);
    forall j: nat | j < |h'.nodes| ensures NodeOk(h', j) {
      assert NodeOk(h, j);
    }
  }

  lemma GrowUsedKeeps(h: Heap)
    requires Inv(h) && h.bottom > 0 && h.nodes[Root(h)] != Free && Root(h) + 1 < |h.nodes|
    ensures Inv(GrowUsed(h))
    ensures LiveNodes(GrowUsed(h)) == LiveNodes(h)
    ensures h.lists[h.bottom] == []
  {
    var h', b, r, p := GrowUsed(h), h.bottom, Root(h), Leftmost(h.bottom - 1);
    NewRoot(h);
    GrowUsedTree(h);
    RootListAlone(h);
    forall m: nat | m <= h.levels ensures ListOk(h', m) {
      assert ListOk(h, m);
      forall j: nat | j < |h'.nodes| && h'.nodes[j] == Free && AtLevel(j, m) ensures j in h'.lists[m] {
        if j == r + 1 {
          LevelUnique(j, b, m);
        } else if m == b - 1 {
          OutsideRoot(h, j, m);
        }
      }
    }
  }
}
