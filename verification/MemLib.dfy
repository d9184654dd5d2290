/** The memory system of memlib.c: a fixed array of bytes and a break inside it.

  Addresses are offsets from `mem_start_brk`, which the C library aligns to 8 bytes.
 */
module MemLib {
  import opened Words
  import opened Wrappers

  /** The comparison of mem_sbrk on 32-bit pointers, for a heap of the given length at address base, agrees
      with the one on numbers exactly when the sum stays in the address space; for a larger sum the
      request is granted although it does not fit. */
  lemma {:induction false} SbrkComparison(base: nat, brk: nat, incr: nat, length: nat)
    requires base + length < TWO_32 && brk <= length && incr < TWO_31
    ensures ((base + brk + incr) % TWO_32 > base + length <==> brk + incr > length) <==> base + brk + incr < TWO_32
    ensures base + brk + incr >= TWO_32 ==> (base + brk + incr) % TWO_32 <= base + length && brk + incr > length
  {
    var sum := base + brk + incr;
    if sum >= TWO_32 {
      assert sum % TWO_32 == sum - TWO_32;
    }
  }

  class MemLib {
    /** The MAX_HEAP bytes of storage. */
    const mem: array<byte>
    /** One past the last byte of the heap. */
    var brk: nat

    ghost predicate Valid()
      reads this
    {
      brk <= mem.Length < TWO_31
    }

    /** mem_init */
    constructor (maxHeap: nat)
      requires maxHeap < TWO_31
      ensures Valid() && fresh(mem) && mem.Length == maxHeap && brk == 0
    {
      mem := new byte[maxHeap];
      brk := 0;
    }

    /** mem_reset_brk: the bytes keep their values. */
    method ResetBrk()
      modifies this`brk
      ensures brk == 0
    {
      brk := 0;
    }

    /** mem_sbrk: None stands for (void *)-1. */
    method Sbrk(incr: int) returns (r: Option<nat>)
      requires Valid()
      modifies this`brk
      ensures Valid()
      ensures r.Some? <==> 0 <= incr <= mem.Length - old(brk)
      ensures r.Some? ==> r.value == old(brk) && brk == old(brk) + incr
      ensures r.None? ==> brk == old(brk)
    {
      var oldBrk := brk;
      if incr < 0 || brk + incr > mem.Length {
        return None;
      }
      brk := brk + incr;
      return Some(oldBrk);
    }

    /** mem_heap_lo */
    function HeapLo(): int {
      0
    }

    /** mem_heap_hi: the last heap byte. */
    function HeapHi(): int
      reads this
    {
      brk - 1
    }

    /** mem_heapsize */
    function HeapSize(): nat
      reads this
    {
      brk
    }

    /** GET(p) */
    function Get(p: nat): (w: nat)
      requires p + 4 <= mem.Length
      reads mem
      ensures w == Word(mem[..], p)
    {
      mem[p] as nat + 0x100 * (mem[p + 1] as nat) + 0x1_0000 * (mem[p + 2] as nat) + 0x100_0000 * (mem[p + 3] as nat)
    }

    /** PUT(p, v) */
    method Put(p: nat, v: nat)
      requires p + 4 <= mem.Length && v < TWO_32
      modifies mem
      ensures Word(mem[..], p) == v
      ensures SameOutside(old(mem[..]), mem[..], p, p + 4)
    {
      BytesOfWord(v);
      mem[p] := v % 0x100;
      mem[p + 1] := v / 0x100 % 0x100;
      mem[p + 2] := v / 0x1_0000 % 0x100;
      mem[p + 3] := v / 0x100_0000;
    }

    /** memcpy of n bytes between disjoint areas. */
    method Copy(dst: nat, src: nat, n: nat)
      requires dst + n <= mem.Length && src + n <= mem.Length
      requires dst + n <= src || src + n <= dst
      modifies mem
      ensures SameOutside(old(mem[..]), mem[..], dst, dst + n)
      ensures forall k :: dst <= k < dst + n ==> mem[k] == old(mem[..])[k - dst + src]
    {
      for i := 0 to n
        invariant SameOutside(old(mem[..]), mem[..], dst, dst + i)
        invariant forall k :: dst <= k < dst + i ==> mem[k] == old(mem[..])[k - dst + src]
      {
        mem[dst + i] := mem[src + i];
      }
    }

    /** memset of n bytes. */
    method Fill(dst: nat, v: byte, n: nat)
      requires dst + n <= mem.Length
      modifies mem
      ensures SameOutside(old(mem[..]), mem[..], dst, dst + n)
      ensures forall k :: dst <= k < dst + n ==> mem[k] == v
    {
      for i := 0 to n
        invariant SameOutside(old(mem[..]), mem[..], dst, dst + i)
        invariant forall k :: dst <= k < dst + i ==> mem[k] == v
      {
        mem[dst + i] := v;
      }
    }
  }
}
