/** The allocator of mm.c as functions on block lists.

  Nothing here mentions memory: which block a request gets depends on the block list, the request
  and the heap limit alone.  Class `Mm.Mm` is proved to do on tag words what these functions say.
 */
module Allocator {
  import opened Blocks
  import opened Words
  import opened Wrappers

  const CHUNKSIZE: nat := 4096

  /** Bytes the four words of `mm_init` take: padding, prologue and epilogue. */
  const INITIAL: nat := 16

  /** The largest request whose size arithmetic does not wrap around (lemma RequestArithmetic). */
  const MAX_REQUEST: nat := 0xFFFF_FFE8

  datatype Reply = Reply(blocks: seq<Block>, ptr: Option<nat>)

  /** Block size for a request, in 32-bit arithmetic. */
  function AdjustedSize(size: nat): (asize: nat) {
    if size <= 8 then 16 else 8 * ((size + 15) % TWO_32 / 8)
  }

  /** Bytes to grow the heap by for a block of asize bytes, in 32-bit arithmetic. */
  function Growth(asize: nat): (n: nat) {
    var words := (if asize > CHUNKSIZE then asize else CHUNKSIZE) / 8;
    (if words % 2 == 1 then (words + 1) * 8 else words * 8) % TWO_32
  }

  /** One past the last byte of the heap. */
  function Brk(bs: seq<Block>): nat
    requires bs != []
  {
    bs[|bs| - 1].ptr + bs[|bs| - 1].size
  }

  predicate Fits(b: Block, asize: nat) {
    !b.alloc && asize <= b.size
  }

  /** Index of the lowest block that fits, or the length of the list. */
  function FirstFit(bs: seq<Block>, asize: nat): (k: nat)
    ensures k <= |bs|
    ensures k < |bs| ==> Fits(bs[k], asize)
    ensures forall j :: 0 <= j < k ==> !Fits(bs[j], asize)
  {
    if bs == [] || Fits(bs[0], asize) then 0 else 1 + FirstFit(bs[1..], asize)
  }

  /** Allocate asize bytes at the front of b; a rest of 16 bytes or more stays free. */
  function Split(b: Block, asize: nat): seq<Block> {
    if b.size >= asize + 16
    then [Block(b.ptr, asize, true), Block(b.ptr + asize, b.size - asize, false)]
    else [b.(alloc := true)]
  }

  function Place(bs: seq<Block>, k: nat, asize: nat): seq<Block>
    requires k < |bs|
  {
    bs[..k] + Split(bs[k], asize) + bs[k + 1..]
  }

  /** A free block of n bytes at the end, merged with a free tail. */
  function Extend(bs: seq<Block>, n: nat, limit: nat): (r: Option<seq<Block>>)
    requires bs != []
    ensures r.Some? ==> r.value != []
  {
    if AsInt(n) < 0 || Brk(bs) + n > limit then None
    else Some(Merge(bs + [Block(Brk(bs), n, false)]))
  }

  function Init(limit: nat): Option<seq<Block>> {
    if INITIAL > limit then None else Extend([PROLOGUE], CHUNKSIZE, limit)
  }

  /** Take the first block that fits, or grow the heap by n bytes and take its last block. */
  function Allocate(bs: seq<Block>, asize: nat, n: nat, limit: nat): Reply
    requires bs != []
  {
    var k := FirstFit(bs, asize);
    if k < |bs| then Reply(Place(bs, k, asize), Some(bs[k].ptr)) else Grow(bs, asize, n, limit)
  }

  function Grow(bs: seq<Block>, asize: nat, n: nat, limit: nat): Reply
    requires bs != []
  {
    match Extend(bs, n, limit)
    case None => Reply(bs, None)
    case Some(cs) => Reply(Place(cs, |cs| - 1, asize), Some(cs[|cs| - 1].ptr))
  }

  /** The free block that a request for asize bytes is taken from, if there is one. */
  function Chosen(bs: seq<Block>, asize: nat, n: nat, limit: nat): Option<Block>
    requires bs != []
  {
    var k := FirstFit(bs, asize);
    if k < |bs| then Some(bs[k])
    else
      match Extend(bs, n, limit)
      case None => None
      case Some(cs) => Some(cs[|cs| - 1])
  }

  function Malloc(bs: seq<Block>, size: nat, limit: nat): Reply
    requires bs != []
  {
    if size == 0 then Reply(bs, None)
    else Allocate(bs, AdjustedSize(size), Growth(AdjustedSize(size)), limit)
  }

  /** Mark the block free and merge all maximal runs of free blocks. */
  function Free(bs: seq<Block>, p: nat): seq<Block> {
    Merge(Release(bs, {p}))
  }

  function Realloc(bs: seq<Block>, p: Option<nat>, size: nat, limit: nat): Reply
    requires bs != []
    requires p.None? ==> size > 0
  {
    match p
    case None => Malloc(bs, size, limit)
    case Some(oldptr) =>
      if size == 0 then Reply(Free(bs, oldptr), None)
      else
        var r := Malloc(bs, size, limit);
        if r.ptr.None? then r else Reply(Free(r.blocks, oldptr), r.ptr)
  }

  /** p is the payload address of an ordinary allocated block. */
  ghost predicate IsLive(bs: seq<Block>, p: nat) {
    p != PROLOGUE.ptr && exists b :: b in bs && b.alloc && b.ptr == p
  }

  // ---------- arithmetic of requests ----------

  /** The size arithmetic is right exactly up to MAX_REQUEST: above it, either the block size
      wraps around or the heap extension does.  Up to it, the block size is the least multiple of
      8 with room for the request and two tags (and at least 16), and the extension the least
      multiple of 16 that is at least that size and CHUNKSIZE. */
  lemma {:induction false} RequestArithmetic(size: nat)
    requires 0 < size < TWO_32
    ensures var asize := AdjustedSize(size);
            (size + 8 <= asize && asize <= Growth(asize)) <==> size <= MAX_REQUEST
    ensures size <= MAX_REQUEST ==>
              var asize := AdjustedSize(size);
              && asize % 8 == 0 && 16 <= asize && (asize == 16 || asize < size + 16)
              && Growth(asize) % 16 == 0
              && (if asize > CHUNKSIZE then asize else CHUNKSIZE) <= Growth(asize)
              && Growth(asize) < (if asize > CHUNKSIZE then asize else CHUNKSIZE) + 16
  {
    AdjustedIs(size);
    GrowthIs(AdjustedSize(size));
    hide Growth, AdjustedSize;
  }

  /** The block size is the least multiple of 8 with room, unless it wraps. */
  lemma {:induction false} AdjustedIs(size: nat)
    requires 0 < size < TWO_32
    ensures var asize := AdjustedSize(size);
            && asize % 8 == 0 && asize < TWO_32
            && (size <= 8 ==> asize == 16)
            && (8 < size <= 0xFFFF_FFF0 ==> 16 <= asize && size + 8 <= asize < size + 16)
            && (size > 0xFFFF_FFF0 ==> asize <= 8)
  {
    if size > 0xFFFF_FFF0 {
      assert (size + 15) % TWO_32 == size + 15 - TWO_32;
    } else {
      assert (size + 15) % TWO_32 == size + 15;
    }
  }

  /** The extension is the least multiple of 16 that is at least asize and CHUNKSIZE, unless it wraps. */
  lemma {:induction false} GrowthIs(asize: nat)
    requires asize % 8 == 0 && asize < TWO_32
    ensures var n := if asize > CHUNKSIZE then asize else CHUNKSIZE;
            Growth(asize) == if n == TWO_32 - 8 then 0 else if n % 16 == 8 then n + 8 else n
  {
  }

  /** mm_malloc hands extend_heap a number of 8-byte words, which it rounds up to an even one. */
  lemma {:induction false} GrowthRounds(asize: nat)
    requires asize <= Growth(asize)
    ensures var words := (if asize > CHUNKSIZE then asize else CHUNKSIZE) / 8;
            && 2 <= words && (words + words % 2) * 8 == Growth(asize) < TWO_32
            && Growth(asize) % 8 == 0
  {
  }

  /** The rounding of extend_heap, for the word counts that mm_malloc can ask for. */
  lemma {:induction false} WordBytes(words: nat)
    requires 2 <= words < TWO_32 / 8
    ensures var size := (words + words % 2) * 8;
            && 16 <= size <= TWO_32 && size % 8 == 0
            && size % TWO_32 == (if size == TWO_32 then 0 else size)
            && size == (if words % 2 == 1 then (words + 1) * 8 else words * 8)
  {
    var pairs := (words + 1) / 2;
    Sixteens(pairs);
    if words % 2 == 1 {
      assert words == 2 * pairs - 1;
    } else {
      assert words == 2 * pairs;
    }
  }

  lemma {:induction false} Sixteens(pairs: nat)
    requires 1 <= pairs <= TWO_32 / 16
    ensures 16 * pairs % 8 == 0
    ensures 16 * pairs % TWO_32 == if pairs == TWO_32 / 16 then 0 else 16 * pairs
  {
    assert 16 * pairs == 8 * (2 * pairs);
  }

  lemma {:induction false} RequestFits(size: nat)
    requires 0 < size <= MAX_REQUEST
    ensures var asize := AdjustedSize(size);
            size + 8 <= asize && asize % 8 == 0 && 16 <= asize <= Growth(asize) && Growth(asize) % 8 == 0
  {
    RequestArithmetic(size);
    GrowthRounds(AdjustedSize(size));
  }

  /** Above MAX_REQUEST the arithmetic wraps: for the first 8 sizes the extension becomes 0, for the next
      8 the block size becomes 0, and for the last 7 it becomes 8. */
  lemma {:induction false} RequestWraps(size: nat)
    requires MAX_REQUEST < size < TWO_32
    ensures size <= 0xFFFF_FFF0 ==> AdjustedSize(size) == TWO_32 - 8 && Growth(AdjustedSize(size)) == 0
    ensures 0xFFFF_FFF1 <= size <= 0xFFFF_FFF8 ==> AdjustedSize(size) == 0
    ensures 0xFFFF_FFF9 <= size ==> AdjustedSize(size) == 8
    ensures Growth(0) == Growth(8) == CHUNKSIZE
  {
  }

  /** The block sizes that mm_malloc can arrive at. */
  lemma {:induction false} RequestKind(size: nat)
    requires 0 < size < TWO_32
    ensures var asize := AdjustedSize(size);
            && asize % 8 == 0 && asize < TWO_32
            && (size <= MAX_REQUEST ==> 16 <= asize <= Growth(asize) && asize != TWO_32 - 8)
            && (size > MAX_REQUEST ==> asize in {0, 8, TWO_32 - 8})
  {
    RequestArithmetic(size);
  }

  /** The word count of mm_malloc, and what extend_heap makes of it. */
  lemma {:induction false} GrowthWords(asize: nat)
    requires asize <= 8 || 16 <= asize <= Growth(asize) || asize == TWO_32 - 8
    ensures var words := (if asize > CHUNKSIZE then asize else CHUNKSIZE) / 8;
            && 2 <= words < TWO_32 / 8
            && (words + words % 2) * 8 == (if asize == TWO_32 - 8 then TWO_32 else Growth(asize))
    ensures asize != TWO_32 - 8 ==> asize <= Growth(asize) < TWO_32 && 16 <= Growth(asize) && Growth(asize) % 8 == 0
    ensures asize <= 8 ==> Growth(asize) == CHUNKSIZE
    ensures asize == TWO_32 - 8 ==> Growth(asize) == 0
  {
    if 16 <= asize <= Growth(asize) {
      GrowthRounds(asize);
    }
  }

  // ---------- one step ----------

  lemma {:induction false} FirstFitLowest(bs: seq<Block>, brk: nat, asize: nat, b: Block)
    requires WellFormed(bs, brk) && b in bs && Fits(b, asize)
    ensures var k := FirstFit(bs, asize); k < |bs| && bs[k].ptr <= b.ptr
  {
    var j :| 0 <= j < |bs| && bs[j] == b;
    TilesOrder(bs, PROLOGUE.ptr, brk);
  }

  lemma {:induction false} NoHugeBlock(bs: seq<Block>, brk: nat, asize: nat, k: nat)
    requires WellFormed(bs, brk) && brk < TWO_31 && k < |bs| && Fits(bs[k], asize)
    ensures asize < TWO_31
  {
    TilesBounds(bs, PROLOGUE.ptr, brk);
    assert bs[k] in bs;
  }

  lemma {:induction false} BrkOf(bs: seq<Block>, brk: nat)
    requires WellFormed(bs, brk)
    ensures brk == Brk(bs) && INITIAL <= brk && brk % 8 == 0
  {
    TilesOrder(bs, PROLOGUE.ptr, brk);
    TilesBounds(bs, PROLOGUE.ptr, brk);
    assert PROLOGUE in bs && bs[|bs| - 1] in bs;
  }

  /** Splitting keeps the list well formed and allocates one block of at least asize bytes. */
  lemma {:induction false} PlaceFacts(bs: seq<Block>, brk: nat, k: nat, asize: nat)
    requires WellFormed(bs, brk) && k < |bs| && Fits(bs[k], asize)
    requires asize % 8 == 0 && 16 <= asize
    ensures var cs := Place(bs, k, asize);
            && WellFormed(cs, brk)
            && Live(cs) == Live(bs[..k]) + [Split(bs[k], asize)[0]] + Live(bs[k + 1..])
            && Live(bs) == Live(bs[..k]) + Live(bs[k + 1..])
  {
    var pre, b, post, mid := bs[..k], bs[k], bs[k + 1..], Split(bs[k], asize);
    TilesAt(bs, PROLOGUE.ptr, brk, k);
    CoalescedAt(bs, k);
    SplitFacts(b, asize);
    Compose(pre, mid, post, PROLOGUE.ptr, b.ptr, b.ptr + b.size, brk);
    TilesOne(b);
    LiveConcat3(pre, [b], post);
    LiveConcat3(pre, mid, post);
  }

  lemma {:induction false} SplitFacts(b: Block, asize: nat)
    requires Sized(b) && Fits(b, asize) && asize % 8 == 0 && 16 <= asize
    ensures var mid := Split(b, asize);
            && Tiles(mid, b.ptr, b.ptr + b.size) && Coalesced(mid) && Live(mid) == [mid[0]]
            && mid[0].ptr == b.ptr && mid[0].alloc && asize <= mid[0].size < asize + 16
            && TakenSize(mid[0].size, b.size, asize)
            && (b.size - asize >= 16 ==> |mid| == 2 && mid[1] == Block(b.ptr + asize, b.size - asize, false))
            && (b.size - asize < 16 ==> |mid| == 1)
  {
    var mid := Split(b, asize);
    if |mid| == 2 {
      assert mid[1..] == [mid[1]] && mid[1..][1..] == [];
      assert Live(mid) == [mid[0]] + Live(mid[1..]);
      assert Live(mid[1..]) == Live(mid[1..][1..]);
    } else {
      assert mid[1..] == [];
    }
  }

  /** Of a free block with `room` bytes, a request for asize bytes takes exactly those, unless the rest
      would be too small for a block. */
  ghost predicate TakenSize(size: nat, room: nat, asize: nat) {
    size == if room - asize >= 16 then asize else room
  }

  /** b is the free block of at least asize bytes with the lowest address. */
  ghost predicate LowestFit(bs: seq<Block>, asize: nat, b: Block) {
    && b in bs && !b.alloc && asize <= b.size
    && forall d :: d in bs && !d.alloc && asize <= d.size ==> b.ptr <= d.ptr
  }

  ghost predicate HasRoom(bs: seq<Block>, asize: nat) {
    exists b :: b in bs && !b.alloc && asize <= b.size
  }

  /** The block c that a request for asize bytes gets in the heap bs that ends at brk, and where the heap
      ends then: the front of the lowest free block with room, or else of the tail after growing by n. */
  ghost predicate Granted(bs: seq<Block>, brk: nat, asize: nat, n: nat, c: Block, brk': nat)
    requires bs != []
  {
    if HasRoom(bs, asize) then
      brk' == brk && exists b :: LowestFit(bs, asize, b) && c.ptr == b.ptr && TakenSize(c.size, b.size, asize)
    else
      var last := bs[|bs| - 1];
      && brk' == brk + n && c.ptr == (if last.alloc then brk else last.ptr)
      && c.ptr <= brk' && TakenSize(c.size, brk' - c.ptr, asize)
  }

  /** cs has the allocated blocks of bs and b, which is new. */
  ghost predicate Gains(bs: seq<Block>, cs: seq<Block>, b: Block) {
    && Without(Live(cs), {b.ptr}) == Live(bs)
    && (forall c :: c in cs && c.alloc <==> c == b || (c in bs && c.alloc))
    && (forall c :: c in bs && c.alloc ==> c.ptr != b.ptr)
  }

  /** The reply to a request on bs: block b of at least asize bytes is new, and the heap ends at brk. */
  ghost predicate Served(bs: seq<Block>, r: Reply, asize: nat, b: Block, brk: nat) {
    && r.ptr == Some(b.ptr) && b.alloc && asize <= b.size
    && Gains(bs, r.blocks, b) && WellFormed(r.blocks, brk)
  }

  lemma {:induction false} ServedFacts(bs: seq<Block>, r: Reply, asize: nat, b: Block, brk: nat, c: Block)
    requires Served(bs, r, asize, b, brk) && c in bs && c.alloc
    ensures r.ptr == Some(b.ptr) && b.alloc && asize <= b.size && b in r.blocks
    ensures c in r.blocks && c.ptr != b.ptr && Gains(bs, r.blocks, b)
  {
  }

  lemma {:induction false} GainsOne(bs: seq<Block>, cs: seq<Block>, b: Block, x: seq<Block>, y: seq<Block>)
    requires Live(bs) == x + y && Live(cs) == x + [b] + y && b.alloc
    requires forall c :: c in bs && c.alloc ==> c.ptr != b.ptr
    ensures Gains(bs, cs, b)
  {
    LiveMembers(bs);
    LiveMembers(cs);
    assert forall c :: c in x || c in y ==> c in Live(bs);
    forall c
      ensures c in cs && c.alloc <==> c == b || (c in bs && c.alloc)
    {
      assert c in Live(cs) <==> c in x || c == b || c in y;
      assert c in Live(bs) <==> c in x || c in y;
    }
    WithoutOne(x, b, y);
  }

  lemma {:induction false} WithoutOne(x: seq<Block>, b: Block, y: seq<Block>)
    requires forall c :: c in x || c in y ==> c.ptr != b.ptr
    ensures Without(x + [b] + y, {b.ptr}) == x + y
  {
    WithoutConcat(x, [b], {b.ptr});
    WithoutConcat(x + [b], y, {b.ptr});
    WithoutAbsent(x, {b.ptr});
    WithoutAbsent(y, {b.ptr});
  }

  lemma {:induction false} PlaceGains(bs: seq<Block>, brk: nat, k: nat, asize: nat)
    requires WellFormed(bs, brk) && k < |bs| && Fits(bs[k], asize)
    requires asize % 8 == 0 && 16 <= asize
    ensures Served(bs, Reply(Place(bs, k, asize), Some(bs[k].ptr)), asize, Split(bs[k], asize)[0], brk)
  {
    PlaceFacts(bs, brk, k, asize);
    assert bs[k] in bs;
    forall c | c in bs && c.alloc
      ensures c.ptr != bs[k].ptr
    {
      if c.ptr == bs[k].ptr {
        SamePtr(bs, PROLOGUE.ptr, brk, c, bs[k]);
      }
    }
    GainsOne(bs, Place(bs, k, asize), Split(bs[k], asize)[0], Live(bs[..k]), Live(bs[k + 1..]));
  }

  /** Extending grows the free tail by n bytes, or adds a free block when the last one is in use. */
  lemma {:induction false} ExtendForm(bs: seq<Block>, brk: nat, n: nat)
    requires WellFormed(bs, brk) && n % 8 == 0 && 16 <= n
    ensures var cs, last := Merge(bs + [Block(brk, n, false)]), bs[|bs| - 1];
            cs == if last.alloc then bs + [Block(brk, n, false)]
                  else bs[..|bs| - 1] + [Block(last.ptr, last.size + n, false)]
  {
    var f := Block(brk, n, false);
    Appended(bs, brk, f);
    if bs[|bs| - 1].alloc {
      CoalescedConcat(bs, [f]);
      MergeUnique(bs + [f], bs + [f], PROLOGUE.ptr, brk + n);
    } else {
      var cs := GrownTail(bs, brk, n);
      MergeUnique(bs + [f], cs, PROLOGUE.ptr, brk + n);
    }
  }

  lemma {:induction false} ExtendLast(bs: seq<Block>, brk: nat, n: nat)
    requires WellFormed(bs, brk) && n % 8 == 0 && 16 <= n
    ensures var cs := Merge(bs + [Block(brk, n, false)]);
            cs != [] && Fits(cs[|cs| - 1], n)
  {
    ExtendForm(bs, brk, n);
  }

  lemma {:induction false} ExtendFacts(bs: seq<Block>, brk: nat, n: nat)
    requires WellFormed(bs, brk) && n % 8 == 0 && 16 <= n
    ensures var cs := Merge(bs + [Block(brk, n, false)]);
            WellFormed(cs, brk + n) && Live(cs) == Live(bs)
  {
    var f := Block(brk, n, false);
    Appended(bs, brk, f);
    MergedWellFormed(bs + [f], brk + n);
  }

  lemma {:induction false} Appended(bs: seq<Block>, brk: nat, f: Block)
    requires WellFormed(bs, brk) && f.ptr == brk && f.size % 8 == 0 && 16 <= f.size && !f.alloc
    ensures Tiles(bs + [f], PROLOGUE.ptr, brk + f.size) && Live(bs + [f]) == Live(bs)
    ensures Coalesced([f])
  {
    BrkOf(bs, brk);
    TilesOne(f);
    TilesConcat(bs, [f], PROLOGUE.ptr, brk, brk + f.size);
    FreeTailLive(bs, f);
  }

  lemma {:induction false} FreeTailLive(bs: seq<Block>, f: Block)
    requires !f.alloc
    ensures Live(bs + [f]) == Live(bs)
  {
    LiveConcat(bs, [f]);
    assert [f][1..] == [];
    var x := Live(bs);
    assert x + [] == x;
  }

  lemma {:induction false} GrownTail(bs: seq<Block>, brk: nat, n: nat) returns (cs: seq<Block>)
    requires WellFormed(bs, brk) && n % 8 == 0 && !bs[|bs| - 1].alloc
    ensures var k := |bs| - 1; cs == bs[..k] + [Block(bs[k].ptr, bs[k].size + n, false)]
    ensures Tiles(cs, PROLOGUE.ptr, brk + n) && Coalesced(cs) && Live(cs) == Live(bs)
  {
    var k := |bs| - 1;
    var g := Block(bs[k].ptr, bs[k].size + n, false);
    BrkOf(bs, brk);
    TilesAt(bs, PROLOGUE.ptr, brk, k);
    CoalescedAt(bs, k);
    TilesOne(g);
    CoalescedConcat(bs[..k], [g]);
    TilesConcat(bs[..k], [g], PROLOGUE.ptr, g.ptr, brk + n);
    assert bs == bs[..k] + [bs[k]];
    FreeTailLive(bs[..k], bs[k]);
    FreeTailLive(bs[..k], g);
    cs := bs[..k] + [g];
  }

  /** A successful allocation adds exactly one block of at least asize bytes; the heap stays well
      formed, and it grows only when no free block fits. */
  lemma {:induction false} AllocateFacts(bs: seq<Block>, brk: nat, asize: nat, n: nat, limit: nat) returns (b: Block)
    requires WellFormed(bs, brk) && brk <= limit
    requires asize % 8 == 0 && 16 <= asize <= n && n % 8 == 0
    ensures var r, fits := Allocate(bs, asize, n, limit), FirstFit(bs, asize) < |bs|;
            && (r.ptr.None? ==> r.blocks == bs)
            && (r.ptr.Some? ==>
                  && Served(bs, r, asize, b, if fits then brk else brk + n)
                  && Granted(bs, brk, asize, n, b, if fits then brk else brk + n)
                  && (fits || brk + n <= limit))
  {
    hide Served, Granted;
    BrkOf(bs, brk);
    b := PROLOGUE;
    var k := FirstFit(bs, asize);
    if k < |bs| {
      b := Split(bs[k], asize)[0];
      PlaceGains(bs, brk, k, asize);
      FitGranted(bs, brk, asize, n, k);
    } else if Extend(bs, n, limit).Some? {
      b := ExtendGains(bs, Extend(bs, n, limit).value, brk, asize, n);
      TailGranted(bs, brk, asize, n);
    }
  }

  lemma {:induction false} FitGranted(bs: seq<Block>, brk: nat, asize: nat, n: nat, k: nat)
    requires WellFormed(bs, brk) && k == FirstFit(bs, asize) < |bs| && asize % 8 == 0 && 16 <= asize
    ensures Granted(bs, brk, asize, n, Split(bs[k], asize)[0], brk)
  {
    TilesOrder(bs, PROLOGUE.ptr, brk);
    TilesBounds(bs, PROLOGUE.ptr, brk);
    SplitFacts(bs[k], asize);
    hide Tiles, Coalesced, Split, FirstFit;
    forall d | d in bs && !d.alloc && asize <= d.size
      ensures bs[k].ptr <= d.ptr
    {
      FirstFitLowest(bs, brk, asize, d);
    }
    assert bs[k] in bs && LowestFit(bs, asize, bs[k]);
  }

  lemma {:induction false} TailGranted(bs: seq<Block>, brk: nat, asize: nat, n: nat)
    requires WellFormed(bs, brk) && FirstFit(bs, asize) == |bs|
    requires asize % 8 == 0 && 16 <= asize <= n && n % 8 == 0
    ensures var cs := Merge(bs + [Block(brk, n, false)]);
            cs != [] && Granted(bs, brk, asize, n, Split(cs[|cs| - 1], asize)[0], brk + n)
  {
    BrkOf(bs, brk);
    ExtendForm(bs, brk, n);
    hide Tiles, Coalesced, FirstFit;
    forall b | b in bs
      ensures !(!b.alloc && asize <= b.size)
    {
      var j :| 0 <= j < |bs| && bs[j] == b;
      assert !Fits(bs[j], asize);
    }
  }

  lemma {:induction false} ExtendGains(bs: seq<Block>, cs: seq<Block>, brk: nat, asize: nat, n: nat) returns (b: Block)
    requires WellFormed(bs, brk) && cs == Merge(bs + [Block(brk, n, false)])
    requires asize % 8 == 0 && 16 <= asize <= n && n % 8 == 0
    ensures cs != [] && var k := |cs| - 1;
            b == Split(cs[k], asize)[0] && Served(bs, Reply(Place(cs, k, asize), Some(cs[k].ptr)), asize, b, brk + n)
  {
    ExtendFacts(bs, brk, n);
    ExtendLast(bs, brk, n);
    b := Split(cs[|cs| - 1], asize)[0];
    PlaceGains(cs, brk + n, |cs| - 1, asize);
    GainsSame(bs, cs, Place(cs, |cs| - 1, asize), b);
  }

  /** The same for a request of size bytes. */
  lemma {:induction false} MallocFacts(bs: seq<Block>, brk: nat, size: nat, limit: nat) returns (b: Block)
    requires WellFormed(bs, brk) && brk <= limit && 0 < size <= MAX_REQUEST
    ensures var r, asize := Malloc(bs, size, limit), AdjustedSize(size);
            && (r.ptr.None? ==> r.blocks == bs)
            && (r.ptr.Some? ==>
                  && var brk' := if FirstFit(bs, asize) < |bs| then brk else brk + Growth(asize);
                  Served(bs, r, size + 8, b, brk') && Granted(bs, brk, asize, Growth(asize), b, brk') && brk' <= limit)
  {
    hide AdjustedSize, Growth, Gains, WellFormed, Allocate, Granted;
    RequestFits(size);
    b := AllocateFacts(bs, brk, AdjustedSize(size), Growth(AdjustedSize(size)), limit);
  }

  /** The same again, with the end of the heap read off the lists. */
  lemma {:induction false} MallocServes(bs: seq<Block>, size: nat, limit: nat) returns (b: Block)
    requires bs != [] && WellFormed(bs, Brk(bs)) && Brk(bs) <= limit && 0 < size <= MAX_REQUEST
    ensures var r := Malloc(bs, size, limit);
            r.ptr.Some? ==>
              && r.blocks != [] && Brk(bs) <= Brk(r.blocks) <= limit
              && (Brk(bs) % 16 == 0 ==> Brk(r.blocks) % 16 == 0)
              && Served(bs, r, size + 8, b, Brk(r.blocks))
              && var asize := AdjustedSize(size); Granted(bs, Brk(bs), asize, Growth(asize), b, Brk(r.blocks))
  {
    hide Tiles, Coalesced, Gains, AdjustedSize, Growth, Malloc, Served, Granted;
    b := MallocFacts(bs, Brk(bs), size, limit);
    var r := Malloc(bs, size, limit);
    if r.ptr.Some? {
      var n := Growth(AdjustedSize(size));
      GrowthEven(size);
      ServedBrk(bs, r, size + 8, b, if FirstFit(bs, AdjustedSize(size)) < |bs| then Brk(bs) else Brk(bs) + n);
      SumEven(Brk(bs), n);
    }
  }

  /** A request is served whenever the heap can grow by its extension, and then grows by no more. */
  lemma {:induction false} MallocEnough(bs: seq<Block>, size: nat, limit: nat)
    requires bs != [] && WellFormed(bs, Brk(bs)) && 0 < size <= MAX_REQUEST
    requires Brk(bs) + Growth(AdjustedSize(size)) <= limit < TWO_31
    ensures var r := Malloc(bs, size, limit);
            r.ptr.Some? && r.blocks != [] && Brk(r.blocks) <= Brk(bs) + Growth(AdjustedSize(size))
  {
    hide Tiles, Coalesced, Gains, AdjustedSize, Growth, Malloc, Served, Granted;
    MallocFails(bs, Brk(bs), size, limit);
    var b := MallocFacts(bs, Brk(bs), size, limit);
    var n := Growth(AdjustedSize(size));
    ServedBrk(bs, Malloc(bs, size, limit), size + 8, b, if FirstFit(bs, AdjustedSize(size)) < |bs| then Brk(bs) else Brk(bs) + n);
  }

  /** A larger limit changes no reply but NULL. */
  lemma {:induction false} MallocMoreHeap(bs: seq<Block>, size: nat, limit: nat, limit': nat)
    requires bs != [] && limit <= limit' && Malloc(bs, size, limit).ptr.Some?
    ensures Malloc(bs, size, limit') == Malloc(bs, size, limit)
  {
  }

  lemma {:induction false} GrowthEven(size: nat)
    requires 0 < size <= MAX_REQUEST
    ensures Growth(AdjustedSize(size)) % 16 == 0
  {
    RequestArithmetic(size);
  }

  lemma {:induction false} SumEven(x: nat, n: nat)
    requires n % 16 == 0
    ensures x % 16 == 0 ==> (x + n) % 16 == 0
  {
  }

  lemma {:induction false} ServedBrk(bs: seq<Block>, r: Reply, asize: nat, b: Block, brk: nat)
    requires Served(bs, r, asize, b, brk)
    ensures r.blocks != [] && brk == Brk(r.blocks)
  {
    BrkOf(r.blocks, brk);
  }

  lemma {:induction false} GainsSame(bs: seq<Block>, cs: seq<Block>, ds: seq<Block>, b: Block)
    requires Live(bs) == Live(cs) && Gains(cs, ds, b)
    ensures Gains(bs, ds, b)
  {
    LiveMembers(bs);
    LiveMembers(cs);
    assert forall c :: c in bs && c.alloc <==> c in Live(bs);
    assert forall c :: c in cs && c.alloc <==> c in Live(cs);
  }

  /** `mm_malloc` returns NULL exactly for size 0 or when neither a free block fits nor the heap can
      grow by the rounded extension. */
  lemma {:induction false} MallocFails(bs: seq<Block>, brk: nat, size: nat, limit: nat)
    requires WellFormed(bs, brk) && brk <= limit < TWO_31 && size <= MAX_REQUEST
    ensures Malloc(bs, size, limit).ptr.None? <==>
            || size == 0
            || ((forall b :: b in bs ==> !Fits(b, AdjustedSize(size)))
                && brk + Growth(AdjustedSize(size)) > limit)
  {
    if size > 0 {
      var asize := AdjustedSize(size);
      var k := FirstFit(bs, asize);
      TilesOrder(bs, PROLOGUE.ptr, brk);
      assert k < |bs| ==> bs[k] in bs && Fits(bs[k], asize);
    }
  }

  /** Freeing removes exactly the named block from the allocated ones. */
  lemma {:induction false} FreeFacts(bs: seq<Block>, brk: nat, p: nat)
    requires WellFormed(bs, brk) && p != PROLOGUE.ptr
    ensures WellFormed(Free(bs, p), brk)
    ensures Live(Free(bs, p)) == Without(Live(bs), {p})
    ensures forall c :: c in Free(bs, p) && c.alloc <==> c in bs && c.alloc && c.ptr != p
  {
    var rs := Release(bs, {p});
    ReleaseTiles(bs, PROLOGUE.ptr, brk, {p});
    ReleaseLive(bs, {p});
    MergedWellFormed(rs, brk);
    LiveMembers(bs);
    LiveMembers(Free(bs, p));
    WithoutMembers(Live(bs), {p});
    forall c
      ensures c in Free(bs, p) && c.alloc <==> c in bs && c.alloc && c.ptr != p
    {
      assert c in Live(Free(bs, p)) <==> c in Without(Live(bs), {p});
    }
  }

  lemma {:induction false} MergedWellFormed(rs: seq<Block>, brk: nat)
    requires rs != [] && rs[0] == PROLOGUE && Tiles(rs, PROLOGUE.ptr, brk)
    ensures WellFormed(Merge(rs), brk) && Live(Merge(rs)) == Live(rs)
  {
    MergeTiles(rs, PROLOGUE.ptr, brk);
    MergeCoalesced(rs);
    MergeLive(rs);
    assert Merge(rs) == Join(rs[0], Merge(rs[1..]));
  }

  /** A successful realloc to a positive size puts a new block with room for it in place of the old
      one and keeps all others; NULL changes nothing; size 0 frees. */
  lemma {:induction false} ReallocFacts(bs: seq<Block>, p: nat, size: nat, limit: nat) returns (c: Block)
    requires bs != [] && WellFormed(bs, Brk(bs)) && Brk(bs) <= limit && size <= MAX_REQUEST && IsLive(bs, p)
    ensures var r := Realloc(bs, Some(p), size, limit);
            && (size == 0 ==> r == Reply(Free(bs, p), None))
            && (size > 0 && r.ptr.None? ==> r.blocks == bs)
            && (r.ptr.Some? ==>
                  && r.ptr.value == c.ptr != p && c.alloc && size + 8 <= c.size
                  && (forall d :: d in r.blocks && d.alloc <==> d == c || (d in bs && d.alloc && d.ptr != p))
                  && r.blocks != [] && WellFormed(r.blocks, Brk(r.blocks)) && Brk(r.blocks) <= limit
                  && var asize := AdjustedSize(size); Granted(bs, Brk(bs), asize, Growth(asize), c, Brk(r.blocks)))
  {
    hide Tiles, Coalesced, AdjustedSize, Growth, Malloc, Free, Granted;
    c := PROLOGUE;
    if size > 0 {
      c := MallocServes(bs, size, limit);
      var r := Malloc(bs, size, limit);
      if r.ptr.None? {
        NullKeeps(bs, size, limit);
      } else {
        FreeFacts(r.blocks, Brk(r.blocks), p);
        BrkOf(Free(r.blocks, p), Brk(r.blocks));
      }
    }
  }

  lemma {:induction false} NullKeeps(bs: seq<Block>, size: nat, limit: nat)
    requires bs != [] && Malloc(bs, size, limit).ptr.None?
    ensures Malloc(bs, size, limit).blocks == bs
  {
  }

  // ---------- several steps ----------

  function FreeAll(bs: seq<Block>, ps: seq<nat>): seq<Block>
    decreases ps
  {
    if ps == [] then bs else FreeAll(Free(bs, ps[0]), ps[1..])
  }

  /** Freeing blocks one after the other is the same as releasing them all and merging once, so the
      order in which they are freed does not matter. */
  lemma {:induction false} FreeOrder(bs: seq<Block>, brk: nat, ps: seq<nat>)
    requires WellFormed(bs, brk) && PROLOGUE.ptr !in ps
    ensures FreeAll(bs, ps) == Merge(Release(bs, set p | p in ps))
    decreases ps
  {
    var all := set p | p in ps;
    ReleaseTiles(bs, PROLOGUE.ptr, brk, all);
    ReleaseLive(bs, all);
    if ps == [] {
      WithoutAbsent(Live(bs), all);
      MergeUnique(Release(bs, all), bs, PROLOGUE.ptr, brk);
    } else {
      var rest := set p | p in ps[1..];
      var cs := Free(bs, ps[0]);
      FreeFacts(bs, brk, ps[0]);
      FreeOrder(cs, brk, ps[1..]);
      ReleaseTiles(cs, PROLOGUE.ptr, brk, rest);
      ReleaseLive(cs, rest);
      WithoutTwice(Live(bs), {ps[0]}, rest);
      assert {ps[0]} + rest == all;
      MergedWellFormed(Release(cs, rest), brk);
      MergeUnique(Release(bs, all), Merge(Release(cs, rest)), PROLOGUE.ptr, brk);
    }
  }

  lemma {:induction false} AnyOrder(bs: seq<Block>, brk: nat, ps: seq<nat>, qs: seq<nat>)
    requires WellFormed(bs, brk) && PROLOGUE.ptr !in ps && forall p :: p in ps <==> p in qs
    ensures FreeAll(bs, ps) == FreeAll(bs, qs)
  {
    var s, t := set p | p in ps, set p | p in qs;
    FreeOrder(bs, brk, ps);
    FreeOrder(bs, brk, qs);
    assert s == t;
    assert FreeAll(bs, ps) == Merge(Release(bs, s)) && FreeAll(bs, qs) == Merge(Release(bs, t));
  }

  /** Freeing what was just allocated gives back the old list exactly when a free block fitted, and
      otherwise the old list with its free tail grown (or created) by exactly the extension. */
  lemma {:induction false} FreeUndoesMalloc(bs: seq<Block>, brk: nat, size: nat, limit: nat)
    requires WellFormed(bs, brk) && brk <= limit && 0 < size <= MAX_REQUEST
    requires Malloc(bs, size, limit).ptr.Some?
    ensures var r, asize := Malloc(bs, size, limit), AdjustedSize(size);
            var back := Free(r.blocks, r.ptr.value);
            && (back == bs <==> FirstFit(bs, asize) < |bs|)
            && (FirstFit(bs, asize) == |bs| ==> back == Merge(bs + [Block(brk, Growth(asize), false)]))
  {
    hide AdjustedSize, Growth, WellFormed, Allocate, Merge;
    RequestFits(size);
    FreeUndoesAllocate(bs, brk, AdjustedSize(size), Growth(AdjustedSize(size)), limit);
  }

  lemma {:induction false} FreeUndoesAllocate(bs: seq<Block>, brk: nat, asize: nat, n: nat, limit: nat)
    requires WellFormed(bs, brk) && brk <= limit
    requires asize % 8 == 0 && 16 <= asize <= n && n % 8 == 0
    requires Allocate(bs, asize, n, limit).ptr.Some?
    ensures var r := Allocate(bs, asize, n, limit);
            var back := Free(r.blocks, r.ptr.value);
            && (back == bs <==> FirstFit(bs, asize) < |bs|)
            && (FirstFit(bs, asize) == |bs| ==> back == Merge(bs + [Block(brk, n, false)]))
  {
    var b := AllocateFacts(bs, brk, asize, n, limit);
    var r, fits := Allocate(bs, asize, n, limit), FirstFit(bs, asize) < |bs|;
    FreeUndoesGain(bs, r.blocks, brk, if fits then brk else brk + n, b);
    if !fits {
      ExtendUnique(bs, Free(r.blocks, b.ptr), brk, n);
    }
  }

  lemma {:induction false} FreeUndoesGain(bs: seq<Block>, cs: seq<Block>, brk: nat, brk': nat, b: Block)
    requires WellFormed(bs, brk) && WellFormed(cs, brk') && Gains(bs, cs, b)
    ensures var back := Free(cs, b.ptr);
            WellFormed(back, brk') && Live(back) == Live(bs) && (brk' == brk ==> back == bs)
  {
    assert PROLOGUE in bs;
    FreeFacts(cs, brk', b.ptr);
    if brk' == brk {
      CoalescedUnique(Free(cs, b.ptr), bs, PROLOGUE.ptr, brk);
    }
  }

  /** The heap that mm_init leaves. */
  lemma {:induction false} InitForm(limit: nat)
    ensures Init(limit).Some? <==> INITIAL + CHUNKSIZE <= limit
    ensures Init(limit).Some? ==>
              && Init(limit).value == [PROLOGUE, Block(INITIAL, CHUNKSIZE, false)]
              && WellFormed(Init(limit).value, INITIAL + CHUNKSIZE)
  {
    TilesOne(PROLOGUE);
    assert WellFormed([PROLOGUE], INITIAL);
    ExtendForm([PROLOGUE], INITIAL, CHUNKSIZE);
    ExtendFacts([PROLOGUE], INITIAL, CHUNKSIZE);
  }

  lemma {:induction false} ExtendUnique(bs: seq<Block>, cs: seq<Block>, brk: nat, n: nat)
    requires WellFormed(bs, brk) && n % 8 == 0 && 16 <= n
    requires WellFormed(cs, brk + n) && Live(cs) == Live(bs)
    ensures cs == Merge(bs + [Block(brk, n, false)]) && cs != bs
  {
    ExtendFacts(bs, brk, n);
    CoalescedUnique(cs, Merge(bs + [Block(brk, n, false)]), PROLOGUE.ptr, brk + n);
    BrkOf(bs, brk);
    BrkOf(cs, brk + n);
  }

  /** With nothing allocated, one free block covers the heap between prologue and epilogue. */
  lemma {:induction false} NothingLive(bs: seq<Block>, brk: nat)
    requires WellFormed(bs, brk) && Live(bs) == [PROLOGUE]
    ensures INITIAL <= brk
    ensures bs == if brk == INITIAL then [PROLOGUE] else [PROLOGUE, Block(INITIAL, brk - INITIAL, false)]
  {
    LiveMembers(bs);
    BrkOf(bs, brk);
    TilesOrder(bs, PROLOGUE.ptr, brk);
    TilesBounds(bs, PROLOGUE.ptr, brk);
    forall i | 1 <= i < |bs|
      ensures !bs[i].alloc
    {
      assert bs[i] in bs && bs[i] != PROLOGUE && bs[i] !in Live(bs);
    }
    assert |bs| > 2 ==> InUse(bs, 1);
    if |bs| > 1 {
      assert Tiles(bs[1..], INITIAL, brk) && bs[1..][0] == bs[1];
      assert bs == [PROLOGUE, bs[1]];
    } else {
      assert bs == [PROLOGUE];
    }
  }
}
