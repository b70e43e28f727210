/** The pool of reusable character arrays that the builder rents from when its
    storage overflows (`ArrayPool<char>.Shared` in the source). Only the
    contract the builder relies on is modelled: Rent hands out an array at
    least as long as requested, Return takes back an array that is currently
    lent out. The ghost set `outstanding` records the arrays lent out. */
module ArrayPools {

  class ArrayPool {
    /** Arrays handed out by Rent and not yet handed back by Return. */
    ghost var outstanding: set<array<char>>

    constructor ()
      ensures outstanding == {}
    {
      outstanding := {};
    }

    /** Lends out an array of at least `minimumLength` slots. Its slots hold
        arbitrary characters: a pooled array is not cleared for its next user. */
    method Rent(minimumLength: nat) returns (a: array<char>)
      modifies this
      ensures fresh(a) && a.Length >= minimumLength
      ensures a !in old(outstanding)
      ensures outstanding == old(outstanding) + {a}
    {
      a := new char[minimumLength];
      outstanding := outstanding + {a};
    }

    /** Takes back an array that Rent lent out. Handing back an array twice, or
        one the pool never lent, is undefined, so the caller must not do it. */
    method Return(a: array<char>)
      requires a in outstanding
      modifies this
      ensures outstanding == old(outstanding) - {a}
    {
      outstanding := outstanding - {a};
    }
  }
}
