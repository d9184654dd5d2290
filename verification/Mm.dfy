/** The allocator of mm.c: tag words in the bytes of the heap, updated in place.

  The ghost field `blocks` is the block list that the bytes encode.  Every method says what it does
  to that list in terms of module Allocator, and which payload bytes it leaves alone.
 */
module Mm {
  import opened Words
  import opened Wrappers
  import opened Blocks
  import opened Allocator
  import opened Tags
  import opened MemLib

  const WSIZE: nat := 4
  const DSIZE: nat := 8

  function Smaller(x: int, y: int): (r: int)
    ensures r <= x && r <= y && r in {x, y}
  {
    if x < y then x else y
  }

  /** The tags of f have been written, and nothing outside the block has changed. */
  ghost predicate Joined(m: seq<byte>, m': seq<byte>, f: Block) {
    HasTags(m', f) && SameOutside(m, m', f.ptr - 4, f.ptr + f.size - 4)
  }

  /** Both words before p have been set to w, and nothing else has changed: what the two PUTs of a block
      of size 0 at p do, as its footer lies before its header. */
  ghost predicate Hollowed(m: seq<byte>, m': seq<byte>, p: nat, w: nat) {
    && 8 <= p <= |m'| && SameOutside(m, m', p - 8, p)
    && Word(m', p - 8) == w && Word(m', p - 4) == w
  }

  /** What place leaves at the free block b for an asize that has wrapped around: with 0, the block is
      still free and the footer before it destroyed; with 8, a block of at most 16 bytes. */
  ghost predicate Unserved(m: seq<byte>, b: Block, asize: nat) {
    if asize == 0 then !b.alloc && HasTags(m, b) && 8 <= b.ptr && Word(m, b.ptr - 8) == 1
    else HasTags(m, Block(b.ptr, if b.size >= 24 then 8 else b.size, true))
  }

  ghost predicate Misplaced(m: seq<byte>, m': seq<byte>, b: Block, asize: nat) {
    Unserved(m', b, asize) && SameOutside(m, m', b.ptr - 8, b.ptr + b.size - 4)
  }

  /** What mm_malloc does to the heap (bytes m, blocks bs, end brk) for a block size that has wrapped around,
      or whose extension does: when the extension is 0, the end of the heap is returned and the last
      footer destroyed; otherwise the block that was chosen is not served. */
  ghost predicate Miscarried(m: seq<byte>, m': seq<byte>, bs: seq<Block>, brk: nat, asize: nat, p: Option<nat>)
    requires bs != []
  {
    if asize == TWO_32 - 8 then p == Some(brk) && Hollowed(m, m', brk, 1)
    else
      match Chosen(bs, asize, CHUNKSIZE, |m|)
      case None => p.None?
      case Some(b) =>
        && p == Some(b.ptr) && Unserved(m', b, asize)
        && (FirstFit(bs, asize) < |bs| ==> Misplaced(m, m', b, asize))
  }

  lemma {:induction false} MisplacedBy(m: seq<byte>, m': seq<byte>, b: Block, asize: nat)
    requires asize in {0, 8} && !b.alloc && 16 <= b.size && 8 <= b.ptr
    requires asize > 0 ==> Tagged(m', Split(b, asize)) && SameOutside(m, m', b.ptr - 4, b.ptr + b.size - 4)
    requires asize == 0 ==> HasTags(m', b) && Word(m', b.ptr - 8) == 1 && SameOutside(m, m', b.ptr - 8, b.ptr + b.size - 4)
    ensures Misplaced(m, m', b, asize)
  {
  }

  /** No block of a heap below 2 GB has room for a request above MAX_REQUEST. */
  lemma {:induction false} NeverUsable(m: seq<byte>, p: nat, size: nat)
    requires |m| < TWO_31 && size > MAX_REQUEST
    ensures !Usable(m, p, size)
  {
  }

  lemma {:induction false} MisplacedIs(m: seq<byte>, m': seq<byte>, b: Block, asize: nat)
    requires Misplaced(m, m', b, asize)
    ensures Unserved(m', b, asize)
  {
  }

  /** Subtraction of sizes in 32-bit arithmetic. */
  lemma {:induction false} Difference(csize: nat, asize: nat)
    requires csize < TWO_32 && csize % 8 == 0 && asize % 8 == 0
    ensures asize <= csize ==> (csize - asize) % TWO_32 == csize - asize && (csize - asize) % 8 == 0
    ensures csize == 0 && asize == TWO_32 - 8 ==> (csize - asize) % TWO_32 == 8
  {
  }

  lemma {:induction false} HollowEnd(m: seq<byte>, m': seq<byte>, brk: nat, hollow: bool)
    requires hollow ==> Hollowed(m, m', brk, 0)
    ensures hollow ==> 8 <= brk <= |m'| && Word(m', brk - 4) == 0
  {
  }

  lemma {:induction false} HollowAgain(m: seq<byte>, m': seq<byte>, m'': seq<byte>, brk: nat)
    requires Hollowed(m, m', brk, 0) && Hollowed(m', m'', brk, 1)
    ensures Hollowed(m, m'', brk, 1)
  {
  }

  lemma {:induction false} ServedUsable(m: seq<byte>, bs: seq<Block>, brk: nat, size: nat, limit: nat, r: Reply, brk': nat)
    requires WellFormed(bs, brk) && brk <= limit && 0 < size <= MAX_REQUEST
    requires r == Malloc(bs, size, limit) && r.ptr.Some? && Image(m, r.blocks, brk')
    ensures Usable(m, r.ptr.value, size)
  {
    hide Tiles, Coalesced, AdjustedSize, Growth, Malloc;
    BrkOf(bs, brk);
    var c := MallocServes(bs, size, limit);
    assert c in r.blocks && HasTags(m, c);
  }

  /** The two PUTs, footer position first. */
  lemma {:induction false} HollowedBy(m: seq<byte>, m': seq<byte>, m'': seq<byte>, p: nat, w: nat)
    requires 8 <= p <= |m| && SameOutside(m, m', p - 8, p - 4) && SameOutside(m', m'', p - 4, p)
    requires Word(m', p - 8) == w && Word(m'', p - 4) == w
    ensures Hollowed(m, m'', p, w)
  {
    WordFrame(m', m'', p - 4, p, p - 8);
  }

  lemma {:induction false} HollowTwice(m: seq<byte>, m': seq<byte>, m'': seq<byte>, p: nat)
    requires 8 <= p && SameOutside(m, m', p - 8, p) && Hollowed(m', m'', p, 0)
    ensures Hollowed(m, m'', p, 0)
  {
  }

  /** p is the payload address of an allocated block with room for size bytes and two tags. */
  ghost predicate Usable(m: seq<byte>, p: nat, size: nat) {
    exists b: Block :: b.ptr == p && b.alloc && size + DSIZE <= b.size && HasTags(m, b)
  }

  class Mm {
    const lib: MemLib
    /** heap_listp: payload address of the prologue. */
    var heapListp: nat
    ghost var blocks: seq<Block>

    ghost predicate Valid()
      reads this, lib, lib.mem
    {
      && lib.Valid() && heapListp == PROLOGUE.ptr
      && WellFormed(blocks, lib.brk) && Image(lib.mem[..], blocks, lib.brk)
    }

    constructor (lib: MemLib)
      ensures this.lib == lib
    {
      this.lib := lib;
    }

    lemma {:induction false} LibValid()
      requires Valid()
      ensures lib.Valid()
    {
    }

    // ---------- the macros of mm.c:97-105 ----------

    /** HDRP(bp) */
    function Hdrp(bp: int): int {
      bp - WSIZE
    }

    /** FTRP(bp) */
    function Ftrp(bp: int): int
      requires WSIZE <= bp <= lib.mem.Length
      reads lib.mem
    {
      bp + SizeBits(lib.Get(Hdrp(bp))) - DSIZE
    }

    /** NEXT_BLKP(bp) */
    function NextBlkp(bp: int): int
      requires WSIZE <= bp <= lib.mem.Length
      reads lib.mem
    {
      bp + SizeBits(lib.Get(bp - WSIZE))
    }

    /** PREV_BLKP(bp) */
    function PrevBlkp(bp: int): int
      requires DSIZE <= bp <= lib.mem.Length + WSIZE
      reads lib.mem
    {
      bp - SizeBits(lib.Get(bp - DSIZE))
    }

    /** In a valid heap the tags of a block agree, NEXT_BLKP leads to the next block (from the last one
        to brk, where the epilogue header ends), and PREV_BLKP leads back. */
    lemma {:induction false} Walk(k: nat)
      requires Valid() && k < |blocks|
      ensures var bp := blocks[k].ptr;
              && WSIZE <= bp && bp + blocks[k].size <= lib.brk <= lib.mem.Length
              && 0 <= Ftrp(bp) && Ftrp(bp) + WSIZE <= lib.mem.Length
              && lib.Get(Hdrp(bp)) == lib.Get(Ftrp(bp))
              && SizeBits(lib.Get(Hdrp(bp))) == blocks[k].size && AllocBit(lib.Get(Hdrp(bp))) == blocks[k].alloc
              && NextBlkp(bp) == (if k + 1 < |blocks| then blocks[k + 1].ptr else lib.brk)
              && DSIZE <= NextBlkp(bp) && PrevBlkp(NextBlkp(bp)) == bp
      ensures lib.Get(lib.brk - WSIZE) == EPILOGUE
    {
      hide Word, SizeBits, AllocBit, MemLib.Get, Tiles, Coalesced, Tagged;
      OwnTags(lib.mem[..], blocks, lib.brk, k);
      NextTags(lib.mem[..], blocks, lib.brk, k);
      TagBits(blocks[k]);
    }

    lemma {:induction false} Start()
      requires Valid()
      ensures blocks != [] && heapListp == blocks[0].ptr
    {
    }

    /** What the walk of find_fit sees at block k, or at the end. */
    lemma {:induction false} Visit(k: nat)
      requires Valid() && k <= |blocks|
      ensures var bp := if k < |blocks| then blocks[k].ptr else lib.brk;
              && WSIZE <= bp <= lib.mem.Length
              && SizeBits(lib.Get(Hdrp(bp))) == (if k < |blocks| then blocks[k].size else 0)
      ensures k < |blocks| ==>
                && blocks[k].size > 0 && AllocBit(lib.Get(Hdrp(blocks[k].ptr))) == blocks[k].alloc
                && NextBlkp(blocks[k].ptr) == if k + 1 < |blocks| then blocks[k + 1].ptr else lib.brk
    {
      hide Word, SizeBits, AllocBit, MemLib.Get, Tiles, Coalesced, Tagged;
      if k < |blocks| {
        Walk(k);
        OwnTags(lib.mem[..], blocks, lib.brk, k);
      } else {
        Start();
        Walk(0);
        TagBits(Block(0, 0, true));
      }
    }

    /** PUT(HDRP(bp), PACK(size, alloc)) followed by PUT(FTRP(bp), PACK(size, alloc)).  With size 0 the
        footer falls on the word before the header. */
    method WriteTags(bp: nat, size: nat, alloc: bool, ghost c: Block)
      requires lib.Valid() && c == Block(bp, size, alloc) && size % 8 == 0
      requires 4 <= bp && bp + size - 4 <= lib.mem.Length && (size == 0 ==> 8 <= bp <= lib.mem.Length)
      modifies lib.mem
      ensures size > 0 ==> Joined(old(lib.mem[..]), lib.mem[..], c)
      ensures size == 0 ==> Hollowed(old(lib.mem[..]), lib.mem[..], bp, Pack(0, alloc))
    {
      hide Word, SizeBits, MemLib.Get;
      ghost var m := lib.mem[..];
      TagBits(c);
      lib.Put(Hdrp(bp), Pack(size, alloc));
      ghost var m' := lib.mem[..];
      lib.Put(Ftrp(bp), Pack(size, alloc));
      if size > 0 {
        Retagged(m, m', lib.mem[..], c, bp - 4, bp + size - 8);
      } else {
        WordFrame(m', lib.mem[..], bp - 8, bp - 4, bp - 4);
      }
    }

    /** The branch of coalesce for a free block n behind the free block b. */
    method JoinNext(bp: nat, size0: nat, ghost b: Block, ghost n: Block)
      requires lib.Valid() && bp == b.ptr && size0 == b.size
      requires HasTags(lib.mem[..], b) && Sized(b) && !b.alloc
      requires HasTags(lib.mem[..], n) && Sized(n) && !n.alloc && b.ptr + b.size == n.ptr
      modifies lib.mem
      ensures Joined(old(lib.mem[..]), lib.mem[..], Block(b.ptr, b.size + n.size, false))
    {
      hide Word, SizeBits, MemLib.Get;
      TagBits(b);
      TagBits(n);
      EightsAdd(b.size, n.size);
      hide Sized;
      var size := size0 + SizeBits(lib.Get(Hdrp(NextBlkp(bp))));
      WriteTags(bp, size, false, Block(b.ptr, b.size + n.size, false));
    }

    /** The branch of coalesce for a free block p before the free block b.  In the hollow case b is empty
        and the word before its header is 0, so that the block before it seems to be b itself. */
    method JoinPrev(bp: nat, size0: nat, ghost p: Block, ghost b: Block, ghost hollow: bool) returns (r: nat)
      requires lib.Valid() && bp == b.ptr && size0 == b.size
      requires if hollow then Hollow(bp) && size0 == 0
               else && HasTags(lib.mem[..], p) && Sized(p) && !p.alloc && p.ptr + p.size == b.ptr
                    && HasTags(lib.mem[..], b) && Sized(b) && !b.alloc
      modifies lib.mem
      ensures !hollow ==> r == p.ptr && Joined(old(lib.mem[..]), lib.mem[..], Block(p.ptr, b.size + p.size, false))
      ensures hollow ==> r == bp && Hollowed(old(lib.mem[..]), lib.mem[..], bp, 0)
    {
      hide Word, SizeBits, MemLib.Get, SameOutside, HasTags;
      ghost var m, f := lib.mem[..], if hollow then Block(bp, 0, false) else Block(p.ptr, b.size + p.size, false);
      if hollow {
        TagBits(Block(bp, 0, true));
        TagBits(f);
      } else {
        TagWords(m, p);
        TagWords(m, b);
      }
      hide Sized;
      var size := size0 + SizeBits(lib.Get(Hdrp(PrevBlkp(bp))));
      assert Ftrp(bp) == f.ptr + f.size - 8 && size == f.size;
      lib.Put(Ftrp(bp), size);
      ghost var m' := lib.mem[..];
      if !hollow {
        WordFrame(m, m', f.ptr + f.size - 8, f.ptr + f.size - 4, bp - 8);
      }
      assert PrevBlkp(bp) == f.ptr;
      lib.Put(Hdrp(PrevBlkp(bp)), size);
      WordFrame(m', lib.mem[..], f.ptr - 4, f.ptr, bp - 8);
      r := PrevBlkp(bp);
      if hollow {
        HollowedBy(m, m', lib.mem[..], bp, 0);
      } else {
        Retagged(m, m', lib.mem[..], f, f.ptr + f.size - 8, f.ptr - 4);
      }
    }

    /** The branch of coalesce for free blocks on both sides of the free block b. */
    method JoinBoth(bp: nat, size0: nat, ghost p: Block, ghost b: Block, ghost n: Block) returns (r: nat)
      requires lib.Valid() && bp == b.ptr && size0 == b.size
      requires HasTags(lib.mem[..], p) && Sized(p) && !p.alloc && p.ptr + p.size == b.ptr
      requires HasTags(lib.mem[..], b) && Sized(b) && !b.alloc
      requires HasTags(lib.mem[..], n) && Sized(n) && !n.alloc && b.ptr + b.size == n.ptr
      modifies lib.mem
      ensures Joined(old(lib.mem[..]), lib.mem[..], Block(p.ptr, b.size + p.size + n.size, false))
      ensures r == p.ptr
    {
      hide Word, SizeBits, MemLib.Get, SameOutside, HasTags;
      ghost var m, f := lib.mem[..], Block(p.ptr, b.size + p.size + n.size, false);
      TagWords(m, p);
      TagWords(m, b);
      TagWords(m, n);
      hide Sized;
      var size := size0 + SizeBits(lib.Get(Hdrp(PrevBlkp(bp)))) + SizeBits(lib.Get(Ftrp(NextBlkp(bp))));
      assert Ftrp(NextBlkp(bp)) == f.ptr + f.size - 8 && size == f.size;
      lib.Put(Ftrp(NextBlkp(bp)), size);
      ghost var m' := lib.mem[..];
      WordFrame(m, m', f.ptr + f.size - 8, f.ptr + f.size - 4, bp - 8);
      assert PrevBlkp(bp) == f.ptr;
      lib.Put(Hdrp(PrevBlkp(bp)), size);
      WordFrame(m', lib.mem[..], f.ptr - 4, f.ptr, bp - 8);
      r := PrevBlkp(bp);
      Retagged(m, m', lib.mem[..], f, f.ptr + f.size - 8, f.ptr - 4);
    }

    /** The state in which extend_heap calls coalesce when the extension has wrapped around to 0. */
    ghost predicate Hollow(bp: nat)
      reads lib.mem
    {
      8 <= bp <= lib.mem.Length && Word(lib.mem[..], bp - 8) == 0 && Word(lib.mem[..], bp - 4) == EPILOGUE
    }

    /** The reads at the beginning of coalesce. */
    method ReadAround(bp: nat, ghost k: nat, ghost hollow: bool) returns (prevAlloc: bool, nextAlloc: bool, size: nat)
      requires lib.Valid()
      requires if hollow then Hollow(bp)
               else 0 < k < |blocks| && blocks[k].ptr == bp && Around(lib.mem[..], blocks, lib.brk, k)
      ensures hollow ==> !prevAlloc && nextAlloc && size == 0
      ensures !hollow ==> prevAlloc == blocks[k - 1].alloc && size == blocks[k].size
      ensures !hollow ==> nextAlloc == (k + 1 < |blocks| ==> blocks[k + 1].alloc)
    {
      hide Word, SizeBits, AllocBit, MemLib.Get;
      TagBits(Block(0, 0, true));
      TagBits(Block(0, 0, false));
      if !hollow {
        TagBits(blocks[k]);
        TagBits(blocks[k - 1]);
        if k + 1 < |blocks| {
          TagBits(blocks[k + 1]);
        }
      }
      prevAlloc := AllocBit(lib.Get(Ftrp(PrevBlkp(bp))));
      nextAlloc := AllocBit(lib.Get(Hdrp(NextBlkp(bp))));
      size := SizeBits(lib.Get(Hdrp(bp)));
    }

    /** coalesce: merge the free block at bp with free neighbours. */
    method Coalesce(bp: nat, ghost k: nat, ghost hollow: bool) returns (r: nat)
      requires lib.Valid()
      requires if hollow then Hollow(bp)
               else && Image(lib.mem[..], blocks, lib.brk)
                    && 0 < k < |blocks| && blocks[k].ptr == bp && !blocks[k].alloc
                    && Coalesced(blocks[..k]) && Coalesced(blocks[k + 1..])
      modifies this`blocks, lib.mem
      ensures !hollow ==>
                && blocks == Merge(old(blocks)) && Image(lib.mem[..], blocks, lib.brk)
                && Kept(old(lib.mem[..]), lib.mem[..], old(blocks))
                && var f := Run(old(blocks), k); f in blocks && f.ptr == r
      ensures hollow ==> r == bp && blocks == old(blocks) && Hollowed(old(lib.mem[..]), lib.mem[..], bp, 0)
    {
      hide Word, SizeBits, AllocBit, Sized, Tiles, Coalesced, Image, HasTags, MemLib.Get;
      ghost var m, bs := lib.mem[..], blocks;
      ghost var b, p := Block(bp, 0, false), Block(bp, 0, false);
      if !hollow {
        SeeAround(m, bs, lib.brk, k);
        b, p := bs[k], bs[k - 1];
      }
      var prevAlloc, nextAlloc, size := ReadAround(bp, k, hollow);
      r := bp;
      if prevAlloc && nextAlloc {
        assert Run(bs, k) == bs[k];
      } else if prevAlloc && !nextAlloc {
        JoinNext(bp, size, b, bs[k + 1]);
      } else if !prevAlloc && nextAlloc {
        r := JoinPrev(bp, size, p, b, hollow);
      } else {
        r := JoinBoth(bp, size, p, b, bs[k + 1]);
      }
      if !hollow {
        MergeRun(m, lib.mem[..], bs, lib.brk, k);
        blocks := Merge(bs);
      }
    }

    /** extend_heap.  An odd number of words just below 2^29 is rounded up to 2^32 bytes, which is 0: then
        the heap does not grow, and the last footer and the epilogue are set to 0. */
    method ExtendHeap(words: nat) returns (r: Option<nat>)
      requires Valid() && 2 <= words < TWO_32 / DSIZE
      modifies this`blocks, lib`brk, lib.mem
      ensures lib.Valid()
      ensures var size := (words + words % 2) * DSIZE;
              size < TWO_32 ==>
                && Valid() && Kept(old(lib.mem[..]), lib.mem[..], old(blocks))
                && var grown := Extend(old(blocks), size, lib.mem.Length);
                && (grown.None? ==> r.None? && blocks == old(blocks) && lib.brk == old(lib.brk)
                                    && lib.mem[..] == old(lib.mem[..]))
                && (grown.Some? ==> blocks == grown.value && r == Some(blocks[|blocks| - 1].ptr))
      ensures (words + words % 2) * DSIZE == TWO_32 ==>
                && r == Some(lib.brk) && lib.brk == old(lib.brk) && blocks == old(blocks)
                && Hollowed(old(lib.mem[..]), lib.mem[..], lib.brk, 0)
    {
      hide Tiles, Coalesced, Image, HasTags, Tagged, Kept, Merge, Word, SameOutside, Hollowed;
      var size := (if words % 2 == 1 then (words + 1) * DSIZE else words * DSIZE) % TWO_32;
      WordBytes(words);
      BrkOf(blocks, lib.brk);
      var sbrk := lib.Sbrk(AsInt(size));
      if sbrk.None? {
        KeptSame(lib.mem[..], blocks);
        return None;
      }
      var q := AddBlock(sbrk.value, size);
      r := Some(q);
    }

    /** extend_heap after the break has been moved from bp. */
    method AddBlock(bp: nat, size: nat) returns (q: nat)
      requires lib.Valid() && heapListp == PROLOGUE.ptr && size % 8 == 0 && (size == 0 || 16 <= size)
      requires lib.brk == bp + size && WellFormed(blocks, bp) && Image(lib.mem[..], blocks, bp)
      modifies this`blocks, lib.mem
      ensures size > 0 ==>
                && Valid() && Kept(old(lib.mem[..]), lib.mem[..], old(blocks))
                && blocks == Merge(old(blocks) + [Block(bp, size, false)]) && q == blocks[|blocks| - 1].ptr
      ensures size == 0 ==> q == bp && blocks == old(blocks) && Hollowed(old(lib.mem[..]), lib.mem[..], bp, 0)
    {
      hide Tiles, Coalesced, Image, HasTags, Tagged, Kept, Merge, Word, SameOutside, Sized;
      ghost var m, bs, f := lib.mem[..], blocks, Block(bp, size, false);
      BrkOf(bs, bp);
      FreshBlock(bp, size);
      ghost var m' := lib.mem[..];
      if size > 0 {
        FreshSized(f);
        ExtendImage(m, m', bs, bp, f);
        blocks := bs + [f];
      }
      q := Coalesce(bp, |bs|, size == 0);
      if size == 0 {
        HollowTwice(m, m', lib.mem[..], bp);
      } else {
        KeptExtended(m, m', lib.mem[..], bs, f);
        ExtendFacts(bs, bp, size);
        LastRun(bs, bp, f);
      }
    }

    /** The writes of extend_heap: the tags of the new block and the new epilogue. */
    method FreshBlock(bp: nat, size: nat)
      requires lib.Valid() && 8 <= bp && bp % 8 == 0 && bp + size <= lib.mem.Length
      requires (size == 0 || 16 <= size) && size % 8 == 0
      modifies lib.mem
      ensures size > 0 ==>
                && HasTags(lib.mem[..], Block(bp, size, false))
                && Word(lib.mem[..], bp + size - WSIZE) == EPILOGUE
                && SameOutside(old(lib.mem[..]), lib.mem[..], bp - WSIZE, bp + size)
      ensures size == 0 ==> Hollow(bp) && SameOutside(old(lib.mem[..]), lib.mem[..], bp - 8, bp)
    {
      hide Word, SizeBits, MemLib.Get;
      ghost var f := Block(bp, size, false);
      TagBits(f);
      WriteTags(bp, size, false, f);
      ghost var m' := lib.mem[..];
      lib.Put(Hdrp(NextBlkp(bp)), EPILOGUE);
      if size > 0 {
        TagsFrame(m', lib.mem[..], f, bp + size - 4, bp + size);
      } else {
        WordFrame(m', lib.mem[..], bp - 4, bp, bp - 8);
      }
    }

    /** mm_init on an empty heap, whatever bytes an earlier run has left behind. */
    method Init() returns (r: int)
      requires lib.Valid() && lib.brk == 0
      modifies this, lib`brk, lib.mem
      ensures var start := Allocator.Init(lib.mem.Length);
              && (start.None? ==> r == -1)
              && (start.Some? ==> r == 0 && Valid() && blocks == start.value)
      ensures lib.Valid()
    {
      var sbrk := lib.Sbrk(4 * WSIZE);
      if sbrk.None? {
        return -1;
      }
      heapListp := sbrk.value;
      lib.Put(heapListp, 0);
      lib.Put(heapListp + 1 * WSIZE, DSIZE + 1);
      lib.Put(heapListp + 2 * WSIZE, DSIZE + 1);
      lib.Put(heapListp + 3 * WSIZE, EPILOGUE);
      heapListp := heapListp + 2 * WSIZE;
      blocks := [PROLOGUE];
      InitImage(lib.mem[..]);
      var first := ExtendHeap(CHUNKSIZE / DSIZE);
      if first.None? {
        return -1;
      }
      return 0;
    }

    /** find_fit */
    method FindFit(asize: nat) returns (r: Option<nat>)
      requires Valid()
      ensures var k := FirstFit(blocks, asize);
              r == if k < |blocks| then Some(blocks[k].ptr) else None
    {
      hide Valid, SizeBits, AllocBit, MemLib.Get;
      ghost var k := 0;
      var bp := heapListp;
      Start();
      Visit(k);
      while SizeBits(lib.Get(Hdrp(bp))) > 0
        invariant k <= |blocks| && bp == (if k < |blocks| then blocks[k].ptr else lib.brk)
        invariant WSIZE <= bp <= lib.mem.Length
        invariant SizeBits(lib.Get(Hdrp(bp))) > 0 <==> k < |blocks|
        invariant forall j :: 0 <= j < k ==> !Fits(blocks[j], asize)
        decreases |blocks| - k
      {
        Visit(k);
        if !AllocBit(lib.Get(Hdrp(bp))) && asize <= SizeBits(lib.Get(Hdrp(bp))) {
          return Some(bp);
        }
        bp := NextBlkp(bp);
        k := k + 1;
        Visit(k);
      }
      return None;
    }

    /** place: take asize bytes from the free block at bp. */
    method Place(bp: nat, asize: nat, ghost k: nat, ghost hollow: bool)
      requires lib.Valid() && asize % 8 == 0
      requires if hollow then 8 <= bp <= lib.mem.Length && asize == TWO_32 - 8 && Word(lib.mem[..], bp - 4) == 0
               else Valid() && k < |blocks| && blocks[k].ptr == bp && Fits(blocks[k], asize)
      modifies this`blocks, lib.mem
      ensures !hollow && 16 <= asize ==>
                && Valid() && blocks == Allocator.Place(old(blocks), k, asize)
                && Kept(old(lib.mem[..]), lib.mem[..], old(blocks))
      ensures !hollow && asize <= 8 ==> Misplaced(old(lib.mem[..]), lib.mem[..], old(blocks[k]), asize)
      ensures hollow ==> Hollowed(old(lib.mem[..]), lib.mem[..], bp, 1)
    {
      hide Word, Tiles, Coalesced, Kept, SameOutside;
      if !hollow {
        OwnTags(lib.mem[..], blocks, lib.brk, k);
      }
      PlaceTags(bp, asize, if hollow then Block(bp, 0, false) else blocks[k], hollow);
      if !hollow && 16 <= asize {
        PlaceImage(old(lib.mem[..]), lib.mem[..], blocks, lib.brk, k, asize);
        PlaceFacts(blocks, lib.brk, k, asize);
        blocks := Allocator.Place(blocks, k, asize);
      } else if !hollow {
        MisplacedBy(old(lib.mem[..]), lib.mem[..], blocks[k], asize);
      }
    }

    /** The tags that place writes.  A size that has wrapped around to 0 leaves the block free and
        overwrites the footer before it; a size of 8 makes a block without payload.  In the hollow case
        there is no block at bp: the header read is 0, and the difference of the sizes wraps around. */
    method PlaceTags(bp: nat, asize: nat, ghost b: Block, ghost hollow: bool)
      requires lib.Valid() && asize % 8 == 0 && 8 <= bp <= lib.mem.Length
      requires if hollow then asize == TWO_32 - 8 && Word(lib.mem[..], bp - 4) == 0
               else b.ptr == bp && HasTags(lib.mem[..], b) && Sized(b) && Fits(b, asize)
      modifies lib.mem
      ensures !hollow && asize > 0 ==>
                Tagged(lib.mem[..], Split(b, asize)) && SameOutside(old(lib.mem[..]), lib.mem[..], bp - 4, bp + b.size - 4)
      ensures !hollow && asize == 0 ==>
                && HasTags(lib.mem[..], b) && Word(lib.mem[..], bp - 8) == 1
                && SameOutside(old(lib.mem[..]), lib.mem[..], bp - 8, bp + b.size - 4)
      ensures hollow ==> Hollowed(old(lib.mem[..]), lib.mem[..], bp, 1)
    {
      hide Word, SizeBits, SameOutside, HasTags, Tagged, MemLib.Get;
      ghost var m := lib.mem[..];
      if hollow {
        TagBits(Block(bp, 0, false));
      } else {
        TagWords(m, b);
        assert b.size % 8 == 0 && 16 <= b.size;
      }
      hide Sized, Fits;
      var csize := SizeBits(lib.Get(Hdrp(bp)));
      var rest := (csize - asize) % TWO_32;
      Difference(csize, asize);
      if rest >= 2 * DSIZE {
        ghost var c, d := Block(bp, asize, true), Block(bp + asize, b.size - asize, false);
        WriteTags(bp, asize, true, c);
        ghost var m' := lib.mem[..];
        TagBits(c);
        if asize > 0 {
          HeaderOf(m', c);
        }
        var next := NextBlkp(bp);
        WriteTags(next, rest, false, d);
        if asize > 0 {
          SplitTagged(m, m', lib.mem[..], b, c, d);
        } else {
          Untouched(m, m', lib.mem[..], b);
        }
      } else {
        WriteTags(bp, csize, true, Block(bp, csize, true));
        if !hollow {
          TaggedOne(lib.mem[..], b.(alloc := true));
        }
      }
    }

    /** mm_malloc, for every size_t.  Up to MAX_REQUEST it does what the block-list allocator says.  Above,
        no reply but NULL is usable. */
    method Malloc(size: nat) returns (p: Option<nat>)
      requires Valid() && size < TWO_32
      modifies this`blocks, lib`brk, lib.mem
      ensures lib.Valid()
      ensures size <= MAX_REQUEST ==>
                && Valid() && Reply(blocks, p) == Allocator.Malloc(old(blocks), size, lib.mem.Length)
                && Kept(old(lib.mem[..]), lib.mem[..], old(blocks))
      ensures size > MAX_REQUEST ==>
                && Miscarried(old(lib.mem[..]), lib.mem[..], old(blocks), old(lib.brk), AdjustedSize(size), p)
                && (AdjustedSize(size) == TWO_32 - 8 || FirstFit(old(blocks), AdjustedSize(size)) < |old(blocks)|
                    ==> lib.brk == old(lib.brk))
      ensures p.None? ==> lib.mem[..] == old(lib.mem[..]) && lib.brk == old(lib.brk)
      ensures p.Some? ==> (Usable(lib.mem[..], p.value, size) <==> size <= MAX_REQUEST)
    {
      hide Tiles, Coalesced, Kept, Hollowed, Misplaced, Unserved, Growth, Usable, SameOutside, HasTags, Word;
      ghost var bs, brk, limit := blocks, lib.brk, lib.mem.Length;
      if size == 0 {
        KeptSame(lib.mem[..], blocks);
        return None;
      }
      var asize: nat;
      if size <= DSIZE {
        asize := 2 * DSIZE;
      } else {
        asize := DSIZE * ((size + DSIZE + (DSIZE - 1)) % TWO_32 / DSIZE);
      }
      assert asize == AdjustedSize(size);
      RequestKind(size);
      hide AdjustedSize;
      ghost var k := FirstFit(blocks, asize);
      p := FindFit(asize);
      if p.Some? {
        NoHugeBlock(bs, brk, asize, k);
        ghost var m := lib.mem[..];
        Place(p.value, asize, k, false);
        if asize <= 8 {
          MisplacedIs(m, lib.mem[..], bs[k], asize);
        }
      } else {
        p := GrowFor(asize);
      }
      if p.Some? {
        if size > MAX_REQUEST {
          NeverUsable(lib.mem[..], p.value, size);
        } else {
          ServedUsable(lib.mem[..], bs, brk, size, limit, Reply(blocks, p), lib.brk);
        }
      }
    }

    /** The rest of mm_malloc when nothing fits. */
    method GrowFor(asize: nat) returns (p: Option<nat>)
      requires Valid() && asize % 8 == 0
      requires asize <= 8 || 16 <= asize <= Growth(asize) || asize == TWO_32 - 8
      modifies this`blocks, lib`brk, lib.mem
      ensures lib.Valid()
      ensures 16 <= asize <= Growth(asize) ==>
                && Valid() && Reply(blocks, p) == Grow(old(blocks), asize, Growth(asize), lib.mem.Length)
                && Kept(old(lib.mem[..]), lib.mem[..], old(blocks))
      ensures asize <= 8 ==>
                match Extend(old(blocks), CHUNKSIZE, lib.mem.Length)
                case None => p.None?
                case Some(cs) => p == Some(cs[|cs| - 1].ptr) && Unserved(lib.mem[..], cs[|cs| - 1], asize)
      ensures asize == TWO_32 - 8 ==>
                p == Some(lib.brk) && lib.brk == old(lib.brk) && Hollowed(old(lib.mem[..]), lib.mem[..], lib.brk, 1)
      ensures p.None? ==> lib.mem[..] == old(lib.mem[..]) && lib.brk == old(lib.brk)
    {
      hide Tiles, Coalesced, Kept, Image, Hollowed, Misplaced, Unserved, Merge, Growth;
      ghost var bs, m, hollow := blocks, lib.mem[..], asize == TWO_32 - 8;
      BrkOf(bs, lib.brk);
      var extendSize := if asize > CHUNKSIZE then asize else CHUNKSIZE;
      GrowthWords(asize);
      if !hollow {
        ExtendLast(bs, lib.brk, Growth(asize));
        ExtendFacts(bs, lib.brk, Growth(asize));
      }
      p := ExtendHeap(extendSize / DSIZE);
      if p.None? {
        return;
      }
      ghost var cs, m' := blocks, lib.mem[..];
      HollowEnd(m, m', lib.brk, hollow);
      Place(p.value, asize, |cs| - 1, hollow);
      if hollow {
        HollowAgain(m, m', lib.mem[..], lib.brk);
      } else if 16 <= asize {
        KeptLive(m, m', lib.mem[..], bs, cs);
      } else {
        MisplacedIs(m', lib.mem[..], cs[|cs| - 1], asize);
      }
    }

    /** mm_free of a live block. */
    method Free(bp: nat)
      requires Valid() && IsLive(blocks, bp)
      modifies this`blocks, lib.mem
      ensures Valid() && blocks == Allocator.Free(old(blocks), bp)
      ensures Kept(old(lib.mem[..]), lib.mem[..], blocks)
    {
      hide Tiles, Coalesced, Image, Kept, Merge, Release;
      ghost var m, bs := lib.mem[..], blocks;
      ghost var k :| 0 <= k < |bs| && bs[k].ptr == bp && bs[k].alloc;
      MarkFree(bp, k);
      ghost var m' := lib.mem[..];
      var r := Coalesce(bp, k, false);
      FreeFacts(bs, lib.brk, bp);
      KeptFreed(m, m', lib.mem[..], bs, bp);
    }

    /** The part of mm_free before coalesce. */
    method MarkFree(bp: nat, ghost k: nat)
      requires Valid() && 0 < k < |blocks| && blocks[k].ptr == bp
      modifies this`blocks, lib.mem
      ensures blocks == Release(old(blocks), {bp}) && Image(lib.mem[..], blocks, lib.brk)
      ensures k < |blocks| && blocks[k] == old(blocks)[k].(alloc := false)
      ensures Coalesced(blocks[..k]) && Coalesced(blocks[k + 1..])
      ensures Kept(old(lib.mem[..]), lib.mem[..], blocks)
    {
      hide Tiles, Coalesced, Image, HasTags, Tagged, Word, Kept, Sized, SameOutside;
      ghost var m, bs := lib.mem[..], blocks;
      OwnTags(m, bs, lib.brk, k);
      TilesFirst(bs, lib.brk, k);
      ClearTags(bp, bs[k]);
      ReleaseImage(m, lib.mem[..], bs, lib.brk, k);
      blocks := Release(bs, {bp});
    }

    /** The two PUTs of mm_free. */
    method ClearTags(bp: nat, ghost b: Block)
      requires lib.Valid() && b.ptr == bp && HasTags(lib.mem[..], b) && Sized(b) && b != PROLOGUE
      modifies lib.mem
      ensures Joined(old(lib.mem[..]), lib.mem[..], b.(alloc := false))
    {
      hide Word, SizeBits, MemLib.Get;
      TagBits(b);
      var size := SizeBits(lib.Get(Hdrp(bp)));
      WriteTags(bp, size, false, b.(alloc := false));
    }

    /** mm_realloc.  The bytes of the old payload that fit are in the new one, although the old block
        has been freed and merged by then. */
    method Realloc(bp: Option<nat>, size: nat) returns (p: Option<nat>)
      requires Valid() && size <= MAX_REQUEST
      requires bp.Some? ==> IsLive(blocks, bp.value)
      requires bp.None? ==> size > 0
      modifies this`blocks, lib`brk, lib.mem
      ensures Valid()
      ensures Reply(blocks, p) == Allocator.Realloc(old(blocks), bp, size, lib.mem.Length)
      ensures forall b :: b in old(blocks) && b in blocks && b.alloc ==> SamePayload(old(lib.mem[..]), lib.mem[..], b)
      ensures p.None? && size > 0 ==> lib.mem[..] == old(lib.mem[..]) && lib.brk == old(lib.brk)
      ensures p.Some? && bp.Some? ==>
                forall b :: b in old(blocks) && b.alloc && b.ptr == bp.value ==>
                  Copied(old(lib.mem[..]), lib.mem[..], b.ptr, p.value, Smaller(size, b.size - DSIZE))
    {
      hide Tiles, Coalesced, Image, Copied, Allocator.Malloc, Allocator.Free;
      if size == 0 {
        Free(bp.value);
        return None;
      }
      if bp.None? {
        p := Malloc(size);
        return;
      }
      ghost var m, bs := lib.mem[..], blocks;
      ghost var b :| b in bs && b.alloc && b.ptr == bp.value;
      OnlyBlock(bs, lib.brk, b);
      ghost var c;
      p, c := AllocateAndCopy(bp.value, size, b);
      if p.None? {
        return;
      }
      ghost var m', cs := lib.mem[..], blocks;
      FreeFacts(cs, lib.brk, b.ptr);
      Free(bp.value);
      FreedAfterCopy(m, m', lib.mem[..], bs, blocks, b, c, Smaller(size, b.size - DSIZE));
    }

    /** mm_realloc up to the release of the old block b: a new block c and the memcpy. */
    method AllocateAndCopy(bp: nat, size: nat, ghost b: Block) returns (p: Option<nat>, ghost c: Block)
      requires Valid() && 0 < size <= MAX_REQUEST
      requires b in blocks && b.alloc && b.ptr == bp && b != PROLOGUE
      modifies this`blocks, lib`brk, lib.mem
      ensures Valid()
      ensures Reply(blocks, p) == Allocator.Malloc(old(blocks), size, lib.mem.Length)
      ensures p.None? ==> lib.mem[..] == old(lib.mem[..]) && lib.brk == old(lib.brk)
      ensures Kept(old(lib.mem[..]), lib.mem[..], old(blocks))
      ensures p.Some? ==>
                && p.value == c.ptr && b.ptr != c.ptr && c.alloc && c in blocks && b in blocks
                && size + DSIZE <= c.size
                && Copied(old(lib.mem[..]), lib.mem[..], b.ptr, c.ptr, Smaller(size, b.size - DSIZE))
    {
      hide Word, Tiles, Coalesced, HasTags, Tagged, SamePayload, Copied, SameOutside, Sized, AdjustedSize, Growth,
        Gains, Served, FirstFit, Image, Kept, Allocator.Malloc;
      ghost var m, bs := lib.mem[..], blocks;
      BrkOf(bs, lib.brk);
      c := MallocServes(bs, size, lib.mem.Length);
      p := Malloc(size);
      if p.None? {
        return;
      }
      ghost var m', cs := lib.mem[..], blocks;
      ServedFacts(bs, Reply(cs, p), size + DSIZE, c, Brk(cs), b);
      Apart(m', cs, lib.brk, b, c);
      ghost var n := CopyPayload(p.value, bp, size, b, c);
      CopyImage(m, m', lib.mem[..], bs, cs, lib.brk, b, c, n);
    }

    /** The memcpy of mm_realloc, as long as the smaller of the request and the old payload. */
    method CopyPayload(dst: nat, src: nat, size: nat, ghost b: Block, ghost c: Block) returns (ghost n: nat)
      requires lib.Valid() && HasTags(lib.mem[..], b) && Sized(b) && src == b.ptr && dst == c.ptr
      requires size + DSIZE <= c.size && c.ptr + c.size <= lib.mem.Length && b.ptr + b.size <= lib.mem.Length
      requires b.ptr + b.size <= c.ptr || c.ptr + c.size <= b.ptr
      modifies lib.mem
      ensures n == Smaller(size, b.size - DSIZE)
      ensures SameOutside(old(lib.mem[..]), lib.mem[..], dst, dst + n)
      ensures Copied(old(lib.mem[..]), lib.mem[..], src, dst, n)
    {
      hide Word, SizeBits, MemLib.Get;
      TagBits(b);
      var copySize := SizeBits(lib.Get(Hdrp(src))) - DSIZE;
      if size < copySize {
        copySize := size;
      }
      n := copySize;
      lib.Copy(dst, src, copySize);
    }
  }

  /** A request of almost 4 GB right after mm_init: the first block is returned although its tags still say
      that it is free, and the footer of the prologue is destroyed. */
  method WrappedRequest(mm: Mm) returns (p: Option<nat>)
    requires mm.lib.Valid() && mm.lib.brk == 0 && INITIAL + CHUNKSIZE <= mm.lib.mem.Length
    modifies mm, mm.lib, mm.lib.mem
    ensures p == Some(16) && mm.lib.brk == 4112 <= mm.lib.mem.Length
    ensures mm.lib.Get(4) == 9 && mm.lib.Get(8) == 1
    ensures mm.lib.Get(12) == 4096 && mm.lib.Get(4104) == 4096 && mm.lib.Get(4108) == EPILOGUE
  {
    hide Word, Tiles, Coalesced, Kept, Extend, AdjustedSize, Growth, SameOutside, MemLib.Get;
    var r := mm.Init();
    InitForm(mm.lib.mem.Length);
    ghost var bs, m, b := mm.blocks, mm.lib.mem[..], Block(16, 4096, false);
    BrkOf(bs, mm.lib.brk);
    OwnTags(m, bs, mm.lib.brk, 0);
    RequestWraps(0xFFFF_FFF1);
    assert bs[1..][0] == b && FirstFit(bs[1..], 0) == 0 && FirstFit(bs, 0) == 1;
    p := mm.Malloc(0xFFFF_FFF1);
    WordFrame(m, mm.lib.mem[..], 8, 4108, 4);
    WordFrame(m, mm.lib.mem[..], 8, 4108, 4108);
  }
}
