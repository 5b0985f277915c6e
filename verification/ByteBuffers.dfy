/** The growable byte buffer of the terminal bridge. */
module ByteBuffers {
  import opened Utf8
  import opened Memory

  const SIZE_MAX_HALF := 0x8000_0000_0000_0000

  /** The largest capacity an allocation can back: the last doubling below half the address space. */
  const MAX_CAPACITY := 0x4000_0000_0000_0000

  function Doublings(k: nat): (r: nat)
    ensures r >= 64
  {
    if k == 0 then 64 else 2 * Doublings(k - 1)
  }

  /** A capacity is 0 or 64 doubled some number of times. */
  ghost predicate IsCapacity(cap: nat) {
    cap == 0 || exists k :: Doublings(k) == cap
  }

  lemma {:induction false} DoublingsGrow(j: nat, k: nat)
    requires j <= k
    ensures Doublings(j) <= Doublings(k)
    decreases k
  {
    if j == k {
    } else {
      DoublingsGrow(j, k - 1);
    }
  }

  lemma DoublingsReachHalf()
    ensures Doublings(56) == MAX_CAPACITY && Doublings(57) == SIZE_MAX_HALF
  {
    assert Doublings(10) == 0x1_0000;
    assert Doublings(20) == 0x400_0000;
    assert Doublings(30) == 0x10_0000_0000;
    assert Doublings(40) == 0x4000_0000_0000;
    assert Doublings(50) == 0x100_0000_0000_0000;
  }

  /** Doubling a capacity below half the address space stays within it, so `size_t` never wraps. */
  lemma DoublingStaysInRange(k: nat)
    requires Doublings(k) < SIZE_MAX_HALF
    ensures Doublings(k + 1) <= SIZE_MAX_HALF
  {
    DoublingsReachHalf();
    if k >= 57 {
      DoublingsGrow(57, k);
    } else {
      DoublingsGrow(k + 1, 57);
    }
  }

  lemma AllocatedCapacity(cap: nat)
    requires IsCapacity(cap) && cap <= MAX_BLOCK
    ensures cap <= MAX_CAPACITY
  {
    if cap != 0 {
      var k :| Doublings(k) == cap;
      DoublingsReachHalf();
      if k >= 57 {
        DoublingsGrow(57, k);
      } else {
        DoublingsGrow(k, 56);
      }
    }
  }

  /** The doubling loop of the reserve: terminates, and never leaves the range of `size_t`. */
  method GrowTo(cap: nat, need: nat) returns (grown: nat)
    requires IsCapacity(cap) && need <= SIZE_MAX_HALF && cap <= SIZE_MAX_HALF
    ensures IsCapacity(grown) && grown >= need && grown >= cap && 0 < grown <= SIZE_MAX_HALF
    ensures grown > 64 && grown > cap ==> grown / 2 < need
  {
    grown := if cap == 0 then 64 else cap;
    ghost var k: nat := 0;
    if cap != 0 {
      k :| Doublings(k) == cap;
    }
    while grown < need
      invariant grown == Doublings(k) && grown >= cap && grown <= SIZE_MAX_HALF
      invariant grown > 64 && grown > cap ==> grown / 2 < need
      decreases need - grown
    {
      DoublingStaysInRange(k);
      grown := grown * 2;
      k := k + 1;
    }
  }

  class ByteBuffer {
    var data: array<Byte>
    var len: nat
    var block: Pointer

    ghost predicate Valid()
      reads this, data
    {
      && len <= data.Length <= MAX_CAPACITY
      && IsCapacity(data.Length)
      && (block == NULL <==> data.Length == 0)
    }

    ghost function Contents(): (bytes: seq<Byte>)
      reads this, data
    {
      if len <= data.Length then data[..len] else []
    }

    constructor ()
      ensures Valid() && Contents() == [] && block == NULL && fresh(data)
    {
      data, len, block := new Byte[0], 0, NULL;
    }

    /**
     * Room for `extra` more bytes; the contents stay. A failed reallocation changes
     * nothing, and where there is room already nothing is reallocated.
     */
    method Reserve(heap: Heap, extra: nat) returns (ok: bool)
      requires Valid() && heap.Valid() && Block(block) <= heap.live && extra <= MAX_CAPACITY
      modifies this, heap
      ensures Valid() && heap.Valid() && Contents() == old(Contents()) && len == old(len)
      ensures heap.Answered(ok) && (ok ==> len + extra <= data.Length)
      ensures old(len) + extra <= old(data).Length ==> ok && data == old(data) && block == old(block)
      ensures data == old(data) || fresh(data)
      ensures heap.live == old(heap.live) - Block(old(block)) + Block(block)
      ensures block == old(block) || block !in old(heap.live)
    {
      assert heap.live == heap.live - Block(block) + Block(block);
      if len + extra <= data.Length {
        return true;
      }
      var cap := GrowTo(data.Length, len + extra);
      var p := heap.Realloc(block, cap);
      if p == NULL {
        return false;
      }
      AllocatedCapacity(cap);
      var grown := new Byte[cap];
      for i := 0 to len
        modifies grown
        invariant forall j :: 0 <= j < i ==> grown[j] == data[j]
      {
        grown[i] := data[i];
      }
      data, block := grown, p;
      assert data[..len] == old(data[..len]);
      ok := true;
    }

    /** Writes bytes into reserved room, in place. */
    method Write(bytes: seq<Byte>)
      requires Valid() && len + |bytes| <= data.Length
      modifies this`len, data
      ensures Valid() && Contents() == old(Contents()) + bytes
    {
      for i := 0 to |bytes|
        modifies data
        invariant data[..len + i] == old(data[..len]) + bytes[..i]
      {
        data[len + i] := bytes[i];
      }
      len := len + |bytes|;
      assert bytes[..|bytes|] == bytes;
    }

    /** Appends the encoding of one code point, or fails for lack of memory and appends nothing. */
    method AppendCodepoint(heap: Heap, raw: CodePoint) returns (ok: bool)
      requires Valid() && heap.Valid() && Block(block) <= heap.live
      modifies this, heap, data
      ensures Valid() && heap.Valid() && heap.Answered(ok)
      ensures Contents() == old(Contents()) + if ok then Encode(raw) else []
      ensures old(len) + 4 <= old(data).Length ==> ok && data == old(data) && block == old(block)
      ensures data == old(data) || fresh(data)
      ensures heap.live == old(heap.live) - Block(old(block)) + Block(block)
      ensures block == old(block) || block !in old(heap.live)
    {
      hide IsCapacity, Sanitize;
      var cp := Sanitize(raw);
      ok := Reserve(heap, 4);
      if !ok {
        return;
      }
      if cp < 0x80 {
        Write([cp]);
      } else if cp < 0x800 {
        Write([0xC0 + cp / 0x40, 0x80 + cp % 0x40]);
      } else if cp < 0x10000 {
        Write([0xE0 + cp / 0x1000, 0x80 + cp / 0x40 % 0x40, 0x80 + cp % 0x40]);
      } else {
        Write([0xF0 + cp / 0x40000, 0x80 + cp / 0x1000 % 0x40, 0x80 + cp / 0x40 % 0x40, 0x80 + cp % 0x40]);
      }
    }
  }
}
