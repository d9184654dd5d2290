/** What a request gets, said without following the steps of mm_malloc: these laws leave a heap list, a
  request and a heap limit exactly one reply.
 */
module Policy {
  import opened Blocks
  import opened Words
  import opened Wrappers
  import opened Allocator

  /** The reply r to a request for asize bytes on the heap bs, where a heap without room grows by n bytes,
      and the blocks at the addresses in `gone` are given up in return for block c. */
  ghost predicate Answer(bs: seq<Block>, asize: nat, n: nat, limit: nat, gone: set<nat>, r: Reply, c: Block, brk: nat)
    requires bs != []
  {
    if !HasRoom(bs, asize) && Brk(bs) + n > limit then r == Reply(bs, None)
    else
      && Granted(bs, Brk(bs), asize, n, c, brk) && c.alloc && r.ptr == Some(c.ptr) && WellFormed(r.blocks, brk)
      && forall d :: d in r.blocks && d.alloc <==> d == c || (d in bs && d.alloc && d.ptr !in gone)
  }

  /** mm_malloc answers so: the lowest free block with room, or the grown tail, or NULL if neither is
      possible. */
  lemma {:induction false} MallocAnswer(bs: seq<Block>, size: nat, limit: nat) returns (c: Block, brk: nat)
    requires bs != [] && WellFormed(bs, Brk(bs)) && Brk(bs) <= limit < TWO_31 && 0 < size <= MAX_REQUEST
    ensures var asize := AdjustedSize(size);
            Answer(bs, asize, Growth(asize), limit, {}, Malloc(bs, size, limit), c, brk)
  {
    hide Tiles, Coalesced, AdjustedSize, Growth, Malloc, Granted, HasRoom, Live, Without;
    var r := Malloc(bs, size, limit);
    c := MallocServes(bs, size, limit);
    NullIff(bs, size, limit);
    if r.ptr.None? {
      NullKeeps(bs, size, limit);
    }
    brk := Brk(r.blocks);
  }

  /** NULL comes exactly when no free block has room and the heap cannot grow. */
  lemma {:induction false} NullIff(bs: seq<Block>, size: nat, limit: nat)
    requires bs != [] && WellFormed(bs, Brk(bs)) && Brk(bs) <= limit < TWO_31 && 0 < size <= MAX_REQUEST
    ensures var asize := AdjustedSize(size);
            Malloc(bs, size, limit).ptr.None? <==> !HasRoom(bs, asize) && Brk(bs) + Growth(asize) > limit
  {
    hide AdjustedSize, Growth, Malloc, Tiles, Coalesced;
    MallocFails(bs, Brk(bs), size, limit);
  }

  /** So does mm_realloc, with the old block still in place when the new one is chosen. */
  lemma {:induction false} ReallocAnswer(bs: seq<Block>, p: nat, size: nat, limit: nat) returns (c: Block, brk: nat)
    requires bs != [] && WellFormed(bs, Brk(bs)) && Brk(bs) <= limit < TWO_31 && 0 < size <= MAX_REQUEST
    requires IsLive(bs, p)
    ensures var asize := AdjustedSize(size);
            Answer(bs, asize, Growth(asize), limit, {p}, Realloc(bs, Some(p), size, limit), c, brk)
  {
    hide Tiles, Coalesced, AdjustedSize, Growth, Malloc, Granted, HasRoom, Allocator.Free;
    var r := Realloc(bs, Some(p), size, limit);
    c := ReallocFacts(bs, p, size, limit);
    NullIff(bs, size, limit);
    brk := Brk(r.blocks);
  }

  /** And mm_realloc(NULL, size) answers like mm_malloc. */
  lemma {:induction false} ReallocNullAnswer(bs: seq<Block>, size: nat, limit: nat) returns (c: Block, brk: nat)
    requires bs != [] && WellFormed(bs, Brk(bs)) && Brk(bs) <= limit < TWO_31 && 0 < size <= MAX_REQUEST
    ensures var asize := AdjustedSize(size);
            Answer(bs, asize, Growth(asize), limit, {}, Realloc(bs, None, size, limit), c, brk)
  {
    hide Answer, AdjustedSize, Growth, Malloc, WellFormed;
    c, brk := MallocAnswer(bs, size, limit);
  }

  /** The free block that mm_malloc picks, for any block size, those that have wrapped around included. */
  lemma {:induction false} ChosenIs(bs: seq<Block>, asize: nat, n: nat, limit: nat)
    requires bs != [] && WellFormed(bs, Brk(bs)) && n % 8 == 0 && 16 <= n < TWO_32 && limit < TWO_31
    ensures var b, last := Chosen(bs, asize, n, limit), bs[|bs| - 1];
            if HasRoom(bs, asize) then b.Some? && LowestFit(bs, asize, b.value)
            else if Brk(bs) + n > limit then b.None?
            else var start := if last.alloc then Brk(bs) else last.ptr;
                 start <= Brk(bs) && b == Some(Block(start, Brk(bs) + n - start, false))
  {
    var k := FirstFit(bs, asize);
    if k < |bs| {
      assert bs[k] in bs;
      forall d | d in bs && !d.alloc && asize <= d.size
        ensures bs[k].ptr <= d.ptr
      {
        FirstFitLowest(bs, Brk(bs), asize, d);
      }
    } else {
      forall b | b in bs
        ensures !(!b.alloc && asize <= b.size)
      {
        var j :| 0 <= j < |bs| && bs[j] == b;
        assert !Fits(bs[j], asize);
      }
      ExtendForm(bs, Brk(bs), n);
    }
  }

  // ---------- there is no other answer ----------

  lemma {:induction false} GrantedUnique(bs: seq<Block>, brk: nat, asize: nat, n: nat, c: Block, brk': nat, d: Block, brk'': nat)
    requires WellFormed(bs, brk) && c.alloc && d.alloc
    requires Granted(bs, brk, asize, n, c, brk') && Granted(bs, brk, asize, n, d, brk'')
    ensures c == d && brk' == brk''
  {
    if HasRoom(bs, asize) {
      var b :| LowestFit(bs, asize, b) && c.ptr == b.ptr && TakenSize(c.size, b.size, asize);
      var e :| LowestFit(bs, asize, e) && d.ptr == e.ptr && TakenSize(d.size, e.size, asize);
      SamePtr(bs, PROLOGUE.ptr, brk, b, e);
    }
  }

  /** Two heaps with the same allocated blocks list them in the same order. */
  lemma {:induction false} LiveSame(bs: seq<Block>, cs: seq<Block>, lo: nat, lo': nat, hi: nat)
    requires Tiles(bs, lo, hi) && Tiles(cs, lo', hi)
    requires forall b :: b in bs && b.alloc <==> b in cs && b.alloc
    ensures Live(bs) == Live(cs)
    decreases |bs| + |cs|
  {
    TilesBounds(bs, lo, hi);
    TilesBounds(cs, lo', hi);
    assert cs != [] ==> cs[0] in cs;
    if bs != [] && !bs[0].alloc {
      assert forall b :: b in bs <==> b == bs[0] || b in bs[1..];
      LiveSame(bs[1..], cs, lo + bs[0].size, lo', hi);
    } else if cs != [] && !cs[0].alloc {
      assert forall b :: b in cs <==> b == cs[0] || b in cs[1..];
      LiveSame(bs, cs[1..], lo, lo' + cs[0].size, hi);
    } else if bs != [] {
      assert bs[0] in cs;
      SameHead(bs, cs, lo, lo', hi);
      LiveSame(bs[1..], cs[1..], lo + bs[0].size, lo' + cs[0].size, hi);
    }
  }

  /** Both begin with their lowest block, which is the same one. */
  lemma {:induction false} SameHead(bs: seq<Block>, cs: seq<Block>, lo: nat, lo': nat, hi: nat)
    requires Tiles(bs, lo, hi) && Tiles(cs, lo', hi) && bs != [] && cs != [] && bs[0].alloc && cs[0].alloc
    requires forall b :: b in bs && b.alloc <==> b in cs && b.alloc
    ensures bs[0] == cs[0]
    ensures forall b :: b in bs[1..] && b.alloc <==> b in cs[1..] && b.alloc
  {
    TilesBounds(bs, lo, hi);
    TilesBounds(cs, lo', hi);
    TilesBounds(bs[1..], lo + bs[0].size, hi);
    TilesBounds(cs[1..], lo' + cs[0].size, hi);
    assert bs[0] in bs && cs[0] in cs;
    assert bs[0].ptr == cs[0].ptr;
    SamePtr(bs, lo, hi, bs[0], cs[0]);
    assert forall b :: b in bs <==> b == bs[0] || b in bs[1..];
    assert forall b :: b in cs <==> b == cs[0] || b in cs[1..];
  }

  lemma {:induction false} AnswerUnique(bs: seq<Block>, asize: nat, n: nat, limit: nat, gone: set<nat>,
                                        r: Reply, c: Block, brk: nat, s: Reply, d: Block, brk': nat)
    requires bs != [] && WellFormed(bs, Brk(bs))
    requires Answer(bs, asize, n, limit, gone, r, c, brk) && Answer(bs, asize, n, limit, gone, s, d, brk')
    ensures r == s
  {
    hide Granted, HasRoom, Tiles, Coalesced;
    if HasRoom(bs, asize) || Brk(bs) + n <= limit {
      GrantedUnique(bs, Brk(bs), asize, n, c, brk, d, brk');
      LiveSame(r.blocks, s.blocks, PROLOGUE.ptr, PROLOGUE.ptr, brk);
      CoalescedUnique(r.blocks, s.blocks, PROLOGUE.ptr, brk);
    }
  }

  /** Whatever answers a request so is the reply of mm_malloc. */
  lemma {:induction false} MallocDetermined(bs: seq<Block>, size: nat, limit: nat, r: Reply, c: Block, brk: nat)
    requires bs != [] && WellFormed(bs, Brk(bs)) && Brk(bs) <= limit < TWO_31 && 0 < size <= MAX_REQUEST
    requires Answer(bs, AdjustedSize(size), Growth(AdjustedSize(size)), limit, {}, r, c, brk)
    ensures r == Malloc(bs, size, limit)
  {
    hide Answer, AdjustedSize, Growth, Malloc, Tiles, Coalesced;
    var d, brk' := MallocAnswer(bs, size, limit);
    AnswerUnique(bs, AdjustedSize(size), Growth(AdjustedSize(size)), limit, {}, r, c, brk, Malloc(bs, size, limit), d, brk');
  }

  lemma {:induction false} ReallocDetermined(bs: seq<Block>, p: nat, size: nat, limit: nat, r: Reply, c: Block, brk: nat)
    requires bs != [] && WellFormed(bs, Brk(bs)) && Brk(bs) <= limit < TWO_31 && 0 < size <= MAX_REQUEST
    requires IsLive(bs, p)
    requires Answer(bs, AdjustedSize(size), Growth(AdjustedSize(size)), limit, {p}, r, c, brk)
    ensures r == Realloc(bs, Some(p), size, limit)
  {
    hide Answer, AdjustedSize, Growth, Realloc, Tiles, Coalesced, IsLive;
    var d, brk' := ReallocAnswer(bs, p, size, limit);
    AnswerUnique(bs, AdjustedSize(size), Growth(AdjustedSize(size)), limit, {p}, r, c, brk, Realloc(bs, Some(p), size, limit), d, brk');
  }
}
