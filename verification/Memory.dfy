/** The allocation hooks: what is allocated and not yet freed, and whether a request has failed. */
module Memory {
  import opened Bytes

  class Hooks {
    /** Everything handed out and not yet given back. */
    ghost var live: set<object>
    /** Whether a request has failed since this was last cleared. */
    ghost var exhausted: bool
    /** Whether realloc may be used: only with the default malloc and free. */
    const canReallocate: bool

    constructor (canReallocate: bool)
      ensures live == {} && !exhausted && this.canReallocate == canReallocate
    {
      live, exhausted, this.canReallocate := {}, false, canReallocate;
    }

    method Allocate(size: nat) returns (a: array?<byte>)
      modifies this
      ensures a == null ==> exhausted && live == old(live)
      ensures a != null ==> fresh(a) && a.Length == size && live == old(live) + {a} && exhausted == old(exhausted)
    {
      if * {
        a, exhausted := null, true;
      } else {
        a := new byte[size];
        live := live + {a};
      }
    }

    method Deallocate(a: object)
      requires a in live
      modifies this
      ensures live == old(live) - {a} && exhausted == old(exhausted)
    {
      live := live - {a};
    }

    /** On success the old block is gone and its contents are kept as far as they fit. */
    method Reallocate(a: array<byte>, size: nat) returns (b: array?<byte>)
      requires a in live && canReallocate
      modifies this
      ensures b == null ==> exhausted && live == old(live)
      ensures b != null ==>
        && fresh(b) && b.Length == size && live == old(live) - {a} + {b} && exhausted == old(exhausted)
        && forall i :: 0 <= i < size && i < a.Length ==> b[i] == a[i]
    {
      b := Allocate(size);
      if b != null {
        CopyBytes(b, a, Min(size, a.Length));
        Deallocate(a);
      }
    }
  }

  /** memcpy. */
  method CopyBytes(to: array<byte>, from: array<byte>, n: nat)
    requires n <= to.Length && n <= from.Length && to != from
    modifies to
    ensures forall i :: 0 <= i < n ==> to[i] == from[i]
    ensures forall i :: n <= i < to.Length ==> to[i] == old(to[i])
  {
    for k := 0 to n
      invariant forall i :: 0 <= i < k ==> to[i] == from[i]
      invariant forall i :: k <= i < to.Length ==> to[i] == old(to[i])
    {
      to[k] := from[k];
    }
  }
}
