/**
 * Index arithmetic of the linearised buddy tree.
 *
 * Node 0 is the whole arena, the children of node i are 2i+1 and 2i+2, and the
 * nodes of bucket k are the 2^k nodes from 2^k - 1 on.  The arena has
 * 2^levels slots of MIN_ALLOC bytes, so a node of bucket k spans
 * 2^(levels - k) slots.
 */
module BuddyIndex {

  const HEADER_SIZE: nat := 8
  const MIN_ALLOC: nat := 4096
  const LINK_SIZE: nat := 16

  function Pow2(n: nat): (r: nat)
    ensures r >= 1
  {
    if n == 0 then 1 else 2 * Pow2(n - 1)
  }

  /** Node i belongs to bucket k. */
  predicate AtLevel(i: nat, k: nat) {
    Pow2(k) <= i + 1 < 2 * Pow2(k)
  }

  /** The node of bucket k that starts the arena. */
  function Leftmost(k: nat): nat {
    Pow2(k) - 1
  }

  function Parent(i: nat): nat
    requires i > 0
  {
    (i - 1) / 2
  }

  /** The exclusive or of n with 1. */
  function Xor1(n: nat): nat {
    if n % 2 == 0 then n + 1 else n - 1
  }

  function Sibling(i: nat): (s: nat)
    requires i > 0
  {
    Xor1(i - 1) + 1
  }

  /** Number of slots spanned by a node of bucket k. */
  function Span(levels: nat, k: nat): (r: nat)
    requires k <= levels
    ensures r >= 1
  {
    Pow2(levels - k)
  }

  /** First slot of node i of bucket k. */
  function SlotOf(levels: nat, i: nat, k: nat): nat
    requires k <= levels && AtLevel(i, k)
  {
    (i + 1 - Pow2(k)) * Span(levels, k)
  }

  function Quotient(s: nat, m: nat): (q: nat)
    requires m > 0
  {
    s / m
  }

  /** Node of bucket k that contains slot s. */
  function NodeAt(levels: nat, s: nat, k: nat): nat
    requires k <= levels
  {
    Quotient(s, Span(levels, k)) + (Pow2(k) - 1)
  }

  lemma {:induction false} PowAdd(a: nat, b: nat)
    ensures Pow2(a + b) == Pow2(a) * Pow2(b)
  {
    if a == 0 {
    } else {
      PowAdd(a - 1, b);
      assert Pow2(a + b) == 2 * Pow2(a - 1 + b);
      assert 2 * (Pow2(a - 1) * Pow2(b)) == (2 * Pow2(a - 1)) * Pow2(b);
    }
  }

  lemma {:induction false} PowMonotone(a: nat, b: nat)
    requires a <= b
    ensures Pow2(a) <= Pow2(b)
  {
    if a < b {
      PowMonotone(a, b - 1);
    }
  }

  lemma LevelUnique(i: nat, k: nat, k': nat)
    requires AtLevel(i, k) && AtLevel(i, k')
    ensures k == k'
  {
    if k < k' {
      PowMonotone(k + 1, k');
    } else if k' < k {
      PowMonotone(k' + 1, k);
    }
  }

  lemma ChildLevels(i: nat, k: nat)
    requires AtLevel(i, k)
    ensures AtLevel(2 * i + 1, k + 1) && AtLevel(2 * i + 2, k + 1)
  {
  }

  lemma FamilyLevels(i: nat, k: nat)
    requires AtLevel(i, k) && k > 0
    ensures i > 0 && AtLevel(Parent(i), k - 1)
    ensures Sibling(i) > 0 && AtLevel(Sibling(i), k)
    ensures Parent(Sibling(i)) == Parent(i) && Sibling(Sibling(i)) == i && Sibling(i) != i
    ensures (i == 2 * Parent(i) + 1 && Sibling(i) == i + 1) || (i == 2 * Parent(i) + 2 && Sibling(i) == i - 1)
  {
    assert Pow2(k) == 2 * Pow2(k - 1);
  }

  lemma InArena(levels: nat, i: nat, k: nat)
    requires k <= levels && AtLevel(i, k)
    ensures i < 2 * Pow2(levels) - 1
    ensures k < levels ==> i < Pow2(levels) - 1
  {
    PowMonotone(k, levels);
    if k < levels {
      PowMonotone(k + 1, levels);
    }
  }

  lemma SpanDoubles(levels: nat, k: nat)
    requires k < levels
    ensures Span(levels, k) == 2 * Span(levels, k + 1)
  {
  }

  lemma SpanMonotone(levels: nat, k: nat, m: nat)
    requires k <= m <= levels
    ensures Span(levels, m) <= Span(levels, k)
  {
    PowMonotone(levels - m, levels - k);
  }

  /** The two children of a node halve its range. */
  lemma ChildrenHalve(levels: nat, i: nat, k: nat)
    requires k < levels && AtLevel(i, k)
    ensures AtLevel(2 * i + 1, k + 1) && AtLevel(2 * i + 2, k + 1)
    ensures SlotOf(levels, 2 * i + 1, k + 1) == SlotOf(levels, i, k)
    ensures SlotOf(levels, 2 * i + 2, k + 1) == SlotOf(levels, i, k) + Span(levels, k + 1)
    ensures Span(levels, k) == 2 * Span(levels, k + 1)
  {
    ChildLevels(i, k);
    var p, m := i + 1 - Pow2(k), Span(levels, k + 1);
    assert Span(levels, k) == 2 * m;
    assert (2 * p) * m == p * (2 * m);
    assert (2 * p + 1) * m == p * (2 * m) + m;
  }

  /** The arena holds 2^k whole nodes of bucket k. */
  lemma SlotInArena(levels: nat, i: nat, k: nat)
    requires k <= levels && AtLevel(i, k)
    ensures SlotOf(levels, i, k) + Span(levels, k) <= Pow2(levels)
  {
    var p, m := i + 1 - Pow2(k), Span(levels, k);
    PowAdd(k, levels - k);
    assert (p + 1) * m <= Pow2(k) * m by {
      assert p + 1 <= Pow2(k);
      MulMonotone(p + 1, Pow2(k), m);
    }
    assert (p + 1) * m == p * m + m;
  }

  lemma MulMonotone(a: nat, b: nat, m: nat)
    requires a <= b
    ensures a * m <= b * m
  {
  }

  lemma DivExact(p: nat, m: nat, r: nat)
    requires r < m
    ensures Quotient(p * m + r, m) == p
  {
    var q := Quotient(p * m + r, m);
    assert p * m + r == q * m + (p * m + r) % m;
    assert (q + 1) * m == q * m + m && (p + 1) * m == p * m + m;
    if q < p {
      MulMonotone(q + 1, p, m);
    } else if q > p {
      MulMonotone(p + 1, q, m);
    }
  }

  /** node_for_ptr undoes ptr_for_node, from any slot of the node. */
  lemma NodeOfSlot(levels: nat, i: nat, k: nat, s: nat)
    requires k <= levels && AtLevel(i, k)
    requires SlotOf(levels, i, k) <= s < SlotOf(levels, i, k) + Span(levels, k)
    ensures NodeAt(levels, s, k) == i
  {
    DivExact(i + 1 - Pow2(k), Span(levels, k), s - SlotOf(levels, i, k));
  }

  /** The node found for a slot of the arena contains that slot. */
  lemma SlotOfNode(levels: nat, s: nat, k: nat)
    requires k <= levels && s < Pow2(levels)
    ensures AtLevel(NodeAt(levels, s, k), k)
    ensures SlotOf(levels, NodeAt(levels, s, k), k) <= s < SlotOf(levels, NodeAt(levels, s, k), k) + Span(levels, k)
  {
    var m := Span(levels, k);
    assert s < Pow2(k) * m by {
      PowAdd(k, levels - k);
    }
    DivBound(s, m, Pow2(k));
    SlotOfOrdinal(levels, Quotient(s, m), k);
  }

  /** Starting slot of the q-th node of bucket k. */
  lemma SlotOfOrdinal(levels: nat, q: nat, k: nat)
    requires k <= levels && q < Pow2(k)
    ensures AtLevel(q + Pow2(k) - 1, k)
    ensures SlotOf(levels, q + Pow2(k) - 1, k) == q * Span(levels, k)
  {
  }

  lemma DivBound(s: nat, m: nat, n: nat)
    requires m > 0 && s < n * m
    ensures Quotient(s, m) < n
    ensures Quotient(s, m) * m <= s < Quotient(s, m) * m + m
  {
    var q := Quotient(s, m);
    assert s == q * m + s % m;
    if q >= n {
      MulMonotone(n, q, m);
    }
  }

  /** Going one bucket up from a slot's node is going to its parent. */
  lemma NodeAtParent(levels: nat, s: nat, k: nat)
    requires k < levels && s < Pow2(levels)
    ensures NodeAt(levels, s, k + 1) > 0
    ensures Parent(NodeAt(levels, s, k + 1)) == NodeAt(levels, s, k)
  {
    SlotOfNode(levels, s, k + 1);
    var c := NodeAt(levels, s, k + 1);
    FamilyLevels(c, k + 1);
    var p := Parent(c);
    ChildrenHalve(levels, p, k);
    assert c == 2 * p + 1 || c == 2 * p + 2;
    NodeOfSlot(levels, p, k, s);
  }

  /** The bucket loop of the allocator: the smallest bucket that holds size bytes. */
  function BucketFrom(levels: nat, size: nat, k: nat): (b: nat)
    requires k <= levels && size <= MIN_ALLOC * Pow2(levels)
    ensures b <= k
  {
    if k > 0 && MIN_ALLOC * Span(levels, k) < size then BucketFrom(levels, size, k - 1) else k
  }

  function BucketFor(levels: nat, size: nat): (b: nat)
    requires size <= MIN_ALLOC * Pow2(levels)
    ensures b <= levels
  {
    BucketFrom(levels, size, levels)
  }

  lemma {:induction false} BucketFromTight(levels: nat, size: nat, k: nat)
    requires k <= levels && size <= MIN_ALLOC * Pow2(levels)
    requires k < levels ==> MIN_ALLOC * Span(levels, k + 1) < size
    ensures var b := BucketFrom(levels, size, k);
            size <= MIN_ALLOC * Span(levels, b) && (b < levels ==> MIN_ALLOC * Span(levels, b + 1) < size)
  {
    if k > 0 && MIN_ALLOC * Span(levels, k) < size {
      BucketFromTight(levels, size, k - 1);
    }
  }

  /** bucket_for_request is the tightest fit: b is its result exactly when the request
      fits a block of bucket b and, unless b is the last bucket, not one of bucket b + 1. */
  lemma {:induction false} BucketForTight(levels: nat, size: nat, b: nat)
    requires size <= MIN_ALLOC * Pow2(levels) && b <= levels
    ensures BucketFor(levels, size) == b <==>
            (size <= MIN_ALLOC * Span(levels, b) && (b < levels ==> MIN_ALLOC * Span(levels, b + 1) < size))
  {
    BucketFromTight(levels, size, levels);
    var c := BucketFor(levels, size);
    if b < c {
      PowMonotone(levels - c, levels - (b + 1));
    } else if c < b {
      PowMonotone(levels - b, levels - (c + 1));
    }
  }

  /** The packed flags of three levels or more fill whole bytes. */
  lemma EighthOf(levels: nat)
    requires levels >= 3
    ensures 8 * (Pow2(levels) / 8) == Pow2(levels)
  {
    assert Pow2(levels) == 2 * Pow2(levels - 1) == 4 * Pow2(levels - 2) == 8 * Pow2(levels - 3);
  }
}
