/**
 * The disposable that runs a cleanup action: `Dispose` swaps the action out
 * for null and runs what it took, so the action runs on the first call only.
 */
module Disposal {
  class ActionDisposable {
    /** Whether `_dispose` still holds the action. */
    var armed: bool
    /** How many times the cleanup action has run. */
    var invocations: nat

    /** The action has run exactly when it is no longer held. */
    ghost predicate Valid()
      reads this
    {
      invocations == if armed then 0 else 1
    }

    constructor ()
      ensures Valid() && armed && invocations == 0
    {
      armed := true;
      invocations := 0;
    }

    method Dispose() returns (invoked: bool)
      requires Valid()
      modifies this
      ensures Valid()
      ensures invoked == old(armed) && !armed
      ensures invocations == 1
    {
      invoked := armed;
      armed := false;
      if invoked {
        invocations := invocations + 1;
      }
    }
  }
}
