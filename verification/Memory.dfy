/**
 * The C heap as the terminal bridge sees it: which blocks are allocated. An allocation
 * may fail at any time, and freeing a block that is not allocated is an error. Null is 0.
 * Every failed call, of the allocator or of the terminal library, is counted, so that a
 * contract can say that an operation fails only if something failed under it.
 */
module Memory {
  type Pointer = nat

  const NULL: Pointer := 0

  /** No allocator hands out a block larger than half the address space. */
  const MAX_BLOCK := 0x7FFF_FFFF_FFFF_FFFF

  class Heap {
    var live: set<Pointer>
    var next: Pointer
    ghost var failures: nat

    ghost predicate Valid()
      reads this`live, this`next
    {
      NULL < next && NULL !in live && forall p :: p in live ==> p < next
    }

    constructor ()
      ensures Valid() && live == {} && failures == 0
    {
      live, next, failures := {}, 1, 0;
    }

    /** The call went through if and only if nothing failed under it. */
    twostate predicate Answered(ok: bool)
      reads this`failures
    {
      old(failures) <= failures && (ok <==> failures == old(failures))
    }

    method Malloc(size: nat) returns (p: Pointer)
      requires Valid()
      modifies this
      ensures Valid()
      ensures Answered(p != NULL) && (p != NULL ==> size <= MAX_BLOCK)
      ensures p == NULL ==> live == old(live)
      ensures p != NULL ==> p !in old(live) && live == old(live) + {p}
    {
      if size > MAX_BLOCK {
        failures := failures + 1;
        return NULL;
      }
      if * {
        failures := failures + 1;
        return NULL;
      }
      p := next;
      next := next + 1;
      live := live + {p};
    }

    /** On failure the old block stays; on success it is gone and another one is allocated. */
    method Realloc(block: Pointer, size: nat) returns (p: Pointer)
      requires Valid() && (block == NULL || block in live)
      modifies this
      ensures Valid()
      ensures Answered(p != NULL) && (p != NULL ==> size <= MAX_BLOCK)
      ensures p == NULL ==> live == old(live)
      ensures p != NULL ==> p !in old(live) && live == old(live) - {block} + {p}
    {
      p := Malloc(size);
      if p != NULL {
        Free(block);
      }
    }

    method Free(p: Pointer)
      requires Valid() && (p == NULL || p in live)
      modifies this`live
      ensures Valid() && live == old(live) - {p}
    {
      live := live - {p};
    }
  }

  /** The blocks behind a pointer: none for null. */
  function Block(p: Pointer): (blocks: set<Pointer>) {
    if p == NULL then {} else {p}
  }
}
