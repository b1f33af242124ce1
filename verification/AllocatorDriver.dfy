/**
 * Any run of malloc and free, performed by the allocator on its own data.
 */
module AllocatorDriver {
  import opened Wrappers
  import opened BuddyState
  import opened PageAllocator

  /** One call, with the address that the client got for the block that it frees. */
  method Perform(m: Allocator, op: Op)
    requires m.Valid() && Enabled(m.Abs(), op)
    modifies m, m.prev, m.next, m.bits
    ensures m.Valid() && m.Abs() == Apply(old(m.Abs()), op)
  {
    match op {
      case MallocOp(request) => var ptr := m.MyMalloc(request);
      case FreeOp(a) => m.MyFree(Some(m.base + 4096 * a + 8), a);
    }
  }

  /** All calls of a run, one after the other, from zeroed storage. */
  method Execute(levels: nat, base: nat, ops: seq<Op>, ghost end: State) returns (m: Allocator)
    requires levels >= 3 && (InitialValid(levels, base); Runs(Initial(levels, base), ops, end))
    ensures m.Valid() && m.Abs() == end
  {
    hide Apply;
    m := new Allocator(levels, base);
    InitialValid(levels, base);
    var i := 0;
    while i < |ops|
      invariant i <= |ops| && fresh(m) && fresh(m.prev) && fresh(m.next) && fresh(m.bits)
      invariant m.Valid() && Runs(m.Abs(), ops[i..], end)
    {
      assert ops[i..][0] == ops[i] && ops[i..][1..] == ops[i + 1..];
      Perform(m, ops[i]);
      i := i + 1;
    }
  }
}
