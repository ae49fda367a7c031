/** Memory that may run out. */
module Memory {

  /** The allocator.  It may refuse any request; refusals says how many it has refused. */
  class Heap {
    ghost var refusals: nat

    constructor ()
      ensures refusals == 0
    {
      refusals := 0;
    }

    method Malloc() returns (ok: bool)
      modifies this
      ensures refusals == old(refusals) + if ok then 0 else 1
    {
      ok := *;
      refusals := refusals + if ok then 0 else 1;
    }
  }
}
