/** The C allocator, seen only through whether each `malloc`/`realloc`
    succeeds.  The outcome of every allocation is read from a script that
    the caller chooses: `true` makes that allocation fail, and once the
    script is used up every allocation succeeds. */
module Memory {

  /** Outcome of the next allocation, and what is left of the script. */
  function Alloc(failures: seq<bool>): (bool, seq<bool>)
  {
    if failures == [] then (true, []) else (!failures[0], failures[1..])
  }

  /** A script that never makes an allocation fail. */
  predicate NeverFails(failures: seq<bool>) {
    forall i :: 0 <= i < |failures| ==> !failures[i]
  }

  lemma NeverFailsAlloc(failures: seq<bool>)
    requires NeverFails(failures)
    ensures Alloc(failures).0 && NeverFails(Alloc(failures).1)
  {
  }

  class Allocator {
    var failures: seq<bool>

    constructor (failures: seq<bool>)
      ensures this.failures == failures
    {
      this.failures := failures;
    }

    /** One call of `malloc` or `realloc`: `ok` is false when it returned NULL. */
    method Malloc() returns (ok: bool)
      modifies this
      ensures (ok, failures) == Alloc(old(failures))
    {
      if failures == [] {
        ok := true;
      } else {
        ok := !failures[0];
        failures := failures[1..];
      }
    }
  }
}
