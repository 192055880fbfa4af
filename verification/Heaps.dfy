/** Allocation. */
module Heaps {
  /** kmalloc hands out some address that is not in use. */
  method KMalloc<V>(heap: map<nat, V>) returns (p: nat)
    ensures p !in heap
  {
    p := 1;
    ghost var above := set q | q in heap && q >= p;
    while p in heap
      invariant above == set q | q in heap && q >= p
      decreases above
    {
      above := above - {p};
      p := p + 1;
    }
  }
}
