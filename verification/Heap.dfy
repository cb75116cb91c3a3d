/** The memory allocator as the C code meets it: every request is granted or refused, in any pattern. */
module Heaps {

  class Heap {
    const answers: nat -> bool
    var calls: nat

    constructor (answers: nat -> bool)
      ensures this.answers == answers && calls == 0
    {
      this.answers, calls := answers, 0;
    }

    /** Every request since the given one was granted. */
    ghost predicate Granted(since: nat)
      reads this
    {
      forall i :: since <= i < calls ==> answers(i)
    }

    /** `malloc` or `realloc` */
    method Request() returns (granted: bool)
      modifies this
      ensures calls == old(calls) + 1 && granted == answers(old(calls))
    {
      granted, calls := answers(calls), calls + 1;
    }
  }
}
