/** What the bytes of the heap look like for a given block list, and what keeps it so. */
module Tags {
  import opened Words
  import opened Blocks
  import opened Allocator

  /** PACK(size, alloc) of a multiple of 8 */
  function Pack(size: nat, alloc: bool): nat {
    size + if alloc then 1 else 0
  }

  /** Header and footer of b. */
  function TagOf(b: Block): nat {
    Pack(b.size, b.alloc)
  }

  /** The epilogue header: PACK(0, 1). */
  const EPILOGUE: nat := 1

  /** Header and footer of b are in place. */
  ghost predicate HasTags(m: seq<byte>, b: Block) {
    && 4 <= b.ptr && 8 <= b.size && b.ptr + b.size - 4 <= |m|
    && Word(m, b.ptr - 4) == TagOf(b)
    && Word(m, b.ptr + b.size - 8) == TagOf(b)
  }

  ghost predicate Tagged(m: seq<byte>, bs: seq<Block>) {
    forall b :: b in bs ==> HasTags(m, b)
  }

  /** The heap up to brk holds exactly the blocks bs (which need not be coalesced) and the epilogue. */
  ghost predicate Image(m: seq<byte>, bs: seq<Block>, brk: nat) {
    && bs != [] && bs[0] == PROLOGUE && Tiles(bs, PROLOGUE.ptr, brk)
    && INITIAL <= brk <= |m| && Tagged(m, bs) && Word(m, brk - 4) == EPILOGUE
  }

  ghost predicate SamePayload(m: seq<byte>, m': seq<byte>, b: Block) {
    |m'| == |m| && forall k :: b.ptr <= k < b.ptr + b.size - 8 && k < |m| ==> m'[k] == m[k]
  }

  /** No payload byte of an allocated block of bs differs. */
  ghost predicate Kept(m: seq<byte>, m': seq<byte>, bs: seq<Block>) {
    forall b :: b in bs && b.alloc ==> SamePayload(m, m', b)
  }

  lemma {:induction false} TagBits(b: Block)
    requires b.size % 8 == 0
    ensures SizeBits(TagOf(b)) == b.size && AllocBit(TagOf(b)) == b.alloc
  {
    var half := 4 * (b.size / 8);
    assert b.size == 2 * half;
    LowestBit(half);
    EightPlusOne(b.size);
  }

  lemma {:induction false} LowestBit(half: nat)
    ensures (2 * half) % 2 == 0 && (2 * half + 1) % 2 == 1
  {
  }

  lemma {:induction false} EightPlusOne(size: nat)
    requires size % 8 == 0
    ensures (size + 1) % 8 == 1
  {
  }

  lemma {:induction false} KeptSame(m: seq<byte>, bs: seq<Block>)
    ensures Kept(m, m, bs)
  {
  }

  lemma {:induction false} TaggedFrame(m: seq<byte>, m': seq<byte>, bs: seq<Block>, lo: nat, hi: nat, x: int, y: int)
    requires Tiles(bs, lo, hi) && Tagged(m, bs) && SameOutside(m, m', x, y)
    requires hi - 4 <= x || y <= lo - 4
    ensures Tagged(m', bs)
  {
    TilesBounds(bs, lo, hi);
    forall b | b in bs
      ensures HasTags(m', b)
    {
      assert HasTags(m, b);
    }
  }

  /** Changes inside the extent of some blocks do not reach the tags around them. */
  lemma {:induction false} ImageReplace(m: seq<byte>, m': seq<byte>, pre: seq<Block>, mid: seq<Block>, mid': seq<Block>,
                                        post: seq<Block>, a: nat, z: nat, brk: nat)
    requires Image(m, pre + mid + post, brk)
    requires pre != [] && Tiles(pre, PROLOGUE.ptr, a) && Tiles(mid', a, z) && Tiles(post, z, brk)
    requires SameOutside(m, m', a - 4, z - 4) && Tagged(m', mid')
    ensures Image(m', pre + mid' + post, brk)
  {
    assert Tagged(m, pre) && Tagged(m, post) by {
      assert forall b :: b in pre || b in post ==> b in pre + mid + post;
    }
    TaggedFrame(m, m', pre, PROLOGUE.ptr, a, a - 4, z - 4);
    TaggedFrame(m, m', post, z, brk, a - 4, z - 4);
    TilesConcat(pre, mid', PROLOGUE.ptr, a, z);
    TilesConcat(pre + mid', post, PROLOGUE.ptr, z, brk);
    TilesBounds(post, z, brk);
    assert (pre + mid + post)[0] == pre[0];
  }

  lemma {:induction false} KeptAround(m: seq<byte>, m': seq<byte>, pre: seq<Block>, mid: seq<Block>,
                                      post: seq<Block>, a: nat, z: nat, brk: nat)
    requires Tiles(pre, PROLOGUE.ptr, a) && Tiles(post, z, brk)
    requires forall b :: b in mid ==> !b.alloc
    requires SameOutside(m, m', a - 4, z - 4)
    ensures Kept(m, m', pre + mid + post)
  {
    TilesBounds(pre, PROLOGUE.ptr, a);
    TilesBounds(post, z, brk);
  }

  lemma {:induction false} OwnTags(m: seq<byte>, bs: seq<Block>, brk: nat, k: nat)
    requires Image(m, bs, brk) && k < |bs|
    ensures HasTags(m, bs[k]) && Sized(bs[k]) && bs[k].ptr + bs[k].size <= brk
  {
    TilesBounds(bs, PROLOGUE.ptr, brk);
    assert bs[k] in bs;
  }

  /** The word before a header is the footer of the block before. */
  lemma {:induction false} PrevTags(m: seq<byte>, bs: seq<Block>, brk: nat, k: nat)
    requires Image(m, bs, brk) && 0 < k < |bs|
    ensures var p := bs[k - 1];
            && HasTags(m, p) && Sized(p) && p.ptr + p.size == bs[k].ptr
            && Word(m, bs[k].ptr - 8) == TagOf(p)
  {
    OwnTags(m, bs, brk, k - 1);
    TilesAt(bs, PROLOGUE.ptr, brk, k - 1);
    assert bs[k - 1 + 1..][0] == bs[k];
  }

  /** The word behind a footer is the header of the next block, or the epilogue. */
  lemma {:induction false} NextTags(m: seq<byte>, bs: seq<Block>, brk: nat, k: nat)
    requires Image(m, bs, brk) && k < |bs|
    ensures bs[k].ptr + bs[k].size == if k + 1 < |bs| then bs[k + 1].ptr else brk
    ensures k + 1 < |bs| ==> HasTags(m, bs[k + 1]) && Sized(bs[k + 1]) && bs[k + 1].ptr + bs[k + 1].size <= brk
    ensures 4 <= bs[k].ptr + bs[k].size <= brk
    ensures Word(m, bs[k].ptr + bs[k].size - 4) == if k + 1 < |bs| then TagOf(bs[k + 1]) else EPILOGUE
  {
    OwnTags(m, bs, brk, k);
    TilesAt(bs, PROLOGUE.ptr, brk, k);
    if k + 1 < |bs| {
      OwnTags(m, bs, brk, k + 1);
      assert bs[k + 1..][0] == bs[k + 1];
    } else {
      assert bs[k + 1..] == [];
    }
  }

  lemma {:induction false} WordFrame(m: seq<byte>, m': seq<byte>, lo: int, hi: int, p: nat)
    requires SameOutside(m, m', lo, hi) && p + 4 <= |m| && (p + 4 <= lo || hi <= p)
    ensures Word(m', p) == Word(m, p)
  {
  }

  /** Two PUTs, at `first` and then at `second`, have given block f both of its tags. */
  lemma {:induction false} Retagged(m: seq<byte>, m': seq<byte>, m'': seq<byte>, f: Block, first: nat, second: nat)
    requires 4 <= f.ptr && 8 <= f.size && f.ptr + f.size - 4 <= |m|
    requires || (first == f.ptr - 4 && second == f.ptr + f.size - 8)
             || (second == f.ptr - 4 && first == f.ptr + f.size - 8)
    requires SameOutside(m, m', first, first + 4) && Word(m', first) == TagOf(f)
    requires SameOutside(m', m'', second, second + 4) && Word(m'', second) == TagOf(f)
    ensures HasTags(m'', f) && SameOutside(m, m'', f.ptr - 4, f.ptr + f.size - 4)
  {
    WordFrame(m', m'', second, second + 4, first);
  }

  /** What mm.c can see of block k of an image and of the blocks beside it. */
  ghost predicate Around(m: seq<byte>, bs: seq<Block>, brk: nat, k: nat)
    requires 0 < k < |bs|
  {
    var p, b := bs[k - 1], bs[k];
    && HasTags(m, b) && Sized(b) && HasTags(m, p) && Sized(p)
    && p.ptr + p.size == b.ptr && b.ptr + b.size <= brk <= |m|
    && Word(m, b.ptr - 8) == TagOf(p)
    && Word(m, b.ptr + b.size - 4) == (if k + 1 < |bs| then TagOf(bs[k + 1]) else EPILOGUE)
    && (k + 1 < |bs| ==>
          var n := bs[k + 1];
          HasTags(m, n) && Sized(n) && b.ptr + b.size == n.ptr && n.ptr + n.size <= brk)
    && (k + 1 == |bs| ==> b.ptr + b.size == brk)
  }

  lemma {:induction false} SeeAround(m: seq<byte>, bs: seq<Block>, brk: nat, k: nat)
    requires Image(m, bs, brk) && 0 < k < |bs|
    ensures Around(m, bs, brk, k)
  {
    OwnTags(m, bs, brk, k);
    PrevTags(m, bs, brk, k);
    NextTags(m, bs, brk, k);
  }

  /** The free block that takes the place of block k and its free neighbours. */
  function Run(bs: seq<Block>, k: nat): Block
    requires 0 < k < |bs|
  {
    var left, right := !bs[k - 1].alloc, k + 1 < |bs| && !bs[k + 1].alloc;
    Block(if left then bs[k - 1].ptr else bs[k].ptr,
          bs[k].size + (if left then bs[k - 1].size else 0) + (if right then bs[k + 1].size else 0),
          false)
  }

  /** Once the tags of that block are written, the heap holds the merged list. */
  lemma {:induction false} MergeRun(m: seq<byte>, m': seq<byte>, bs: seq<Block>, brk: nat, k: nat)
    requires Image(m, bs, brk) && 0 < k < |bs| && !bs[k].alloc
    requires Coalesced(bs[..k]) && Coalesced(bs[k + 1..])
    requires var f := Run(bs, k); HasTags(m', f) && SameOutside(m, m', f.ptr - 4, f.ptr + f.size - 4)
    ensures Image(m', Merge(bs), brk) && Kept(m, m', bs) && Run(bs, k) in Merge(bs)
  {
    hide Tagged, HasTags, Word, Kept, Coalesced, SameOutside, Sized, Merge, Tiles;
    var i := if bs[k - 1].alloc then k else k - 1;
    var j := if k + 1 < |bs| && !bs[k + 1].alloc then k + 2 else k + 1;
    var pre, mid, f, post := bs[..i], bs[i..j], Run(bs, k), bs[j..];
    var z := f.ptr + f.size;
    RunFacts(m, bs, brk, k, i, j);
    var lo := TilesSplit(bs, PROLOGUE.ptr, brk, i);
    var hi := TilesSplit(bs, PROLOGUE.ptr, brk, j);
    MergeMiddle(bs, brk, i, j, f);
    ThreeParts(bs, i, j);
    TilesOne(f);
    TaggedOne(m', f);
    ImageReplace(m, m', pre, mid, [f], post, f.ptr, z, brk);
    KeptAround(m, m', pre, mid, post, f.ptr, z, brk);
  }

  lemma {:induction false} RunFacts(m: seq<byte>, bs: seq<Block>, brk: nat, k: nat, i: nat, j: nat)
    requires Image(m, bs, brk) && 0 < k < |bs| && !bs[k].alloc
    requires Coalesced(bs[..k]) && Coalesced(bs[k + 1..])
    requires i == if bs[k - 1].alloc then k else k - 1
    requires j == if k + 1 < |bs| && !bs[k + 1].alloc then k + 2 else k + 1
    ensures 0 < i < j <= |bs| && bs[i - 1].alloc && (j < |bs| ==> bs[j].alloc)
    ensures Coalesced(bs[..i]) && Coalesced(bs[j..])
    ensures var f := Run(bs, k);
            Sized(f) && f.ptr == bs[i].ptr && f.ptr + f.size == if j < |bs| then bs[j].ptr else brk
  {
    hide Tiles, Tagged, HasTags, Word;
    SeeAround(m, bs, brk, k);
    LeftRun(bs, k);
    RightRun(bs, k);
    RunSized(bs, k);
    hide Sized;
    if j == k + 2 {
      NextTags(m, bs, brk, k + 1);
    }
  }

  lemma {:induction false} RunSized(bs: seq<Block>, k: nat)
    requires 0 < k < |bs| && !bs[k].alloc && Sized(bs[k - 1]) && Sized(bs[k]) && (k + 1 < |bs| ==> Sized(bs[k + 1]))
    ensures Sized(Run(bs, k))
  {
    EightsAdd(bs[k].size, bs[k - 1].size);
    if k + 1 < |bs| {
      EightsAdd(bs[k].size, bs[k + 1].size);
      EightsAdd(bs[k].size + bs[k - 1].size, bs[k + 1].size);
    }
  }

  lemma {:induction false} LeftRun(bs: seq<Block>, k: nat)
    requires 0 < k < |bs| && Coalesced(bs[..k]) && bs[0].alloc
    ensures var i := if bs[k - 1].alloc then k else k - 1;
            0 < i && bs[i - 1].alloc && Coalesced(bs[..i])
  {
    if !bs[k - 1].alloc {
      CoalescedAt(bs[..k], k - 1);
      assert bs[..k][..k - 1] == bs[..k - 1];
    }
  }

  lemma {:induction false} RightRun(bs: seq<Block>, k: nat)
    requires k < |bs| && Coalesced(bs[k + 1..])
    ensures var j := if k + 1 < |bs| && !bs[k + 1].alloc then k + 2 else k + 1;
            (j < |bs| ==> bs[j].alloc) && Coalesced(bs[j..])
  {
    if k + 1 < |bs| && !bs[k + 1].alloc {
      CoalescedAt(bs[k + 1..], 0);
      assert bs[k + 1..][1..] == bs[k + 2..];
    }
  }

  lemma {:induction false} MergeMiddle(bs: seq<Block>, brk: nat, i: nat, j: nat, f: Block)
    requires Tiles(bs, PROLOGUE.ptr, brk) && 0 < i < j <= |bs|
    requires forall l :: i <= l < j ==> !bs[l].alloc
    requires Tiles(bs[..i], PROLOGUE.ptr, f.ptr) && Tiles(bs[j..], f.ptr + f.size, brk)
    requires Coalesced(bs[..i]) && Coalesced(bs[j..])
    requires bs[i - 1].alloc && (j < |bs| ==> bs[j].alloc)
    requires Sized(f) && !f.alloc
    ensures Merge(bs) == bs[..i] + [f] + bs[j..]
  {
    var pre, mid, post := bs[..i], bs[i..j], bs[j..];
    TilesOne(f);
    Compose(pre, [f], post, PROLOGUE.ptr, f.ptr, f.ptr + f.size, brk);
    NoneLive(mid);
    LiveConcat3(pre, mid, post);
    LiveConcat3(pre, [f], post);
    ThreeParts(bs, i, j);
    MergeUnique(bs, pre + [f] + post, PROLOGUE.ptr, brk);
  }

  lemma {:induction false} ThreeParts(bs: seq<Block>, i: nat, j: nat)
    requires i <= j <= |bs|
    ensures bs == bs[..i] + bs[i..j] + bs[j..]
  {
  }

  /** A free block f behind the last block, with a new epilogue behind it. */
  lemma {:induction false} ExtendImage(m: seq<byte>, m': seq<byte>, bs: seq<Block>, brk: nat, f: Block)
    requires Image(m, bs, brk) && f.ptr == brk && Sized(f) && !f.alloc && brk + f.size <= |m|
    requires SameOutside(m, m', brk - 4, brk + f.size)
    requires HasTags(m', f) && Word(m', brk + f.size - 4) == EPILOGUE
    ensures Image(m', bs + [f], brk + f.size) && Kept(m, m', bs)
    ensures Coalesced(bs) ==> Coalesced((bs + [f])[..|bs|]) && Coalesced((bs + [f])[|bs| + 1..])
  {
    assert (bs + [f])[..|bs|] == bs && (bs + [f])[|bs| + 1..] == [];
    TaggedFrame(m, m', bs, PROLOGUE.ptr, brk, brk - 4, brk + f.size);
    TilesOne(f);
    TilesConcat(bs, [f], PROLOGUE.ptr, brk, brk + f.size);
    TilesBounds(bs, PROLOGUE.ptr, brk);
  }

  /** The four words of mm_init. */
  lemma {:induction false} InitImage(m: seq<byte>)
    requires INITIAL <= |m|
    requires Word(m, 4) == TagOf(PROLOGUE) && Word(m, 8) == TagOf(PROLOGUE) && Word(m, 12) == EPILOGUE
    ensures Image(m, [PROLOGUE], INITIAL) && WellFormed([PROLOGUE], INITIAL)
  {
    TilesOne(PROLOGUE);
  }

  /** The tags of the blocks that replace block k are written. */
  lemma {:induction false} PlaceImage(m: seq<byte>, m': seq<byte>, bs: seq<Block>, brk: nat, k: nat, asize: nat)
    requires Image(m, bs, brk) && k < |bs| && Fits(bs[k], asize) && asize % 8 == 0 && 16 <= asize
    requires Tagged(m', Split(bs[k], asize))
    requires SameOutside(m, m', bs[k].ptr - 4, bs[k].ptr + bs[k].size - 4)
    ensures Image(m', Place(bs, k, asize), brk) && Kept(m, m', bs)
  {
    var b := bs[k];
    TilesAt(bs, PROLOGUE.ptr, brk, k);
    SplitFacts(b, asize);
    ImageReplace(m, m', bs[..k], [b], Split(b, asize), bs[k + 1..], b.ptr, b.ptr + b.size, brk);
    KeptAround(m, m', bs[..k], [b], bs[k + 1..], b.ptr, b.ptr + b.size, brk);
  }

  lemma {:induction false} TilesFirst(bs: seq<Block>, brk: nat, k: nat)
    requires WellFormed(bs, brk) && 0 < k < |bs|
    ensures bs[k] != PROLOGUE
  {
    TilesOrder(bs, PROLOGUE.ptr, brk);
  }

  /** The tags of block k are rewritten with the allocated bit cleared. */
  lemma {:induction false} ReleaseImage(m: seq<byte>, m': seq<byte>, bs: seq<Block>, brk: nat, k: nat)
    requires Image(m, bs, brk) && 0 < k < |bs| && Coalesced(bs)
    requires var f := bs[k].(alloc := false);
             HasTags(m', f) && SameOutside(m, m', f.ptr - 4, f.ptr + f.size - 4)
    ensures var rs := Release(bs, {bs[k].ptr});
            && rs == bs[k := bs[k].(alloc := false)]
            && Image(m', rs, brk) && Kept(m, m', rs)
            && Coalesced(rs[..k]) && Coalesced(rs[k + 1..])
  {
    hide Tagged, HasTags, Kept, Coalesced;
    var b, f := bs[k], bs[k].(alloc := false);
    ReleaseOne(bs, brk, k);
    UpdateParts(bs, k, f);
    TilesAt(bs, PROLOGUE.ptr, brk, k);
    CoalescedAt(bs, k);
    OwnTags(m, bs, brk, k);
    TilesOne(f);
    TaggedOne(m', f);
    ImageReplace(m, m', bs[..k], [b], [f], bs[k + 1..], b.ptr, b.ptr + b.size, brk);
    KeptAround(m, m', bs[..k], [f], bs[k + 1..], b.ptr, b.ptr + b.size, brk);
  }

  lemma {:induction false} EightsAdd(x: nat, y: nat)
    requires x % 8 == 0 && y % 8 == 0
    ensures (x + y) % 8 == 0
  {
    assert x + y == 8 * (x / 8 + y / 8);
  }

  lemma {:induction false} TaggedOne(m: seq<byte>, f: Block)
    requires HasTags(m, f)
    ensures Tagged(m, [f])
  {
  }

  lemma {:induction false} UpdateParts(bs: seq<Block>, k: nat, f: Block)
    requires k < |bs|
    ensures var rs := bs[k := f];
            rs == bs[..k] + [f] + bs[k + 1..] && rs[..k] == bs[..k] && rs[k + 1..] == bs[k + 1..]
  {
  }

  lemma {:induction false} ReleaseOne(bs: seq<Block>, brk: nat, k: nat)
    requires Tiles(bs, PROLOGUE.ptr, brk) && k < |bs|
    ensures Release(bs, {bs[k].ptr}) == bs[k := bs[k].(alloc := false)]
  {
    TilesOrder(bs, PROLOGUE.ptr, brk);
    TilesBounds(bs, PROLOGUE.ptr, brk);
    hide Tiles, Release;
    forall i | 0 <= i < |bs| && i != k
      ensures bs[i].ptr != bs[k].ptr
    {
      assert bs[i] in bs && bs[k] in bs;
    }
    ReleaseOnly(bs, k);
  }

  lemma {:induction false} ReleaseOnly(bs: seq<Block>, k: nat)
    requires k < |bs| && forall i :: 0 <= i < |bs| && i != k ==> bs[i].ptr != bs[k].ptr
    ensures Release(bs, {bs[k].ptr}) == bs[k := bs[k].(alloc := false)]
  {
    hide Release;
  }

  lemma {:induction false} KeptExtended(m: seq<byte>, m': seq<byte>, m'': seq<byte>, bs: seq<Block>, f: Block)
    requires Kept(m, m', bs) && Kept(m', m'', bs + [f])
    ensures Kept(m, m'', bs)
  {
    forall b | b in bs && b.alloc
      ensures SamePayload(m, m'', b)
    {
      assert b in bs + [f];
      assert SamePayload(m, m', b) && SamePayload(m', m'', b);
    }
  }

  /** After an extension the merged run is the last block. */
  lemma {:induction false} LastRun(bs: seq<Block>, brk: nat, f: Block)
    requires WellFormed(bs, brk) && f.ptr == brk && !f.alloc && f.size % 8 == 0 && 16 <= f.size
    ensures var cs := Merge(bs + [f]);
            cs != [] && cs[|cs| - 1] == Run(bs + [f], |bs|)
  {
    BrkOf(bs, brk);
    ExtendForm(bs, brk, f.size);
    assert f == Block(brk, f.size, false);
  }

  lemma {:induction false} TagsFrame(m: seq<byte>, m': seq<byte>, b: Block, lo: int, hi: int)
    requires HasTags(m, b) && SameOutside(m, m', lo, hi)
    requires b.ptr + b.size - 4 <= lo || hi <= b.ptr - 4
    ensures HasTags(m', b)
  {
  }

  lemma {:induction false} KeptLive(m: seq<byte>, m': seq<byte>, m'': seq<byte>, bs: seq<Block>, cs: seq<Block>)
    requires Kept(m, m', bs) && Kept(m', m'', cs) && Live(bs) == Live(cs)
    ensures Kept(m, m'', bs)
  {
    LiveMembers(bs);
    LiveMembers(cs);
    forall b | b in bs && b.alloc
      ensures SamePayload(m, m'', b)
    {
      assert b in Live(cs);
      assert SamePayload(m, m', b) && SamePayload(m', m'', b);
    }
  }

  lemma {:induction false} KeptFreed(m: seq<byte>, m': seq<byte>, m'': seq<byte>, bs: seq<Block>, p: nat)
    requires Kept(m, m', Release(bs, {p})) && Kept(m', m'', Release(bs, {p}))
    requires forall c :: c in Free(bs, p) && c.alloc <==> c in bs && c.alloc && c.ptr != p
    ensures Kept(m, m'', Free(bs, p))
  {
    var rs := Release(bs, {p});
    forall b | b in Free(bs, p) && b.alloc
      ensures SamePayload(m, m'', b)
    {
      var i :| 0 <= i < |bs| && bs[i] == b;
      assert rs[i] == b;
      assert SamePayload(m, m', b) && SamePayload(m', m'', b);
    }
  }

  /** n bytes at q are those that were at p. */
  ghost predicate Copied(m: seq<byte>, m': seq<byte>, p: nat, q: nat, n: int) {
    |m'| == |m| && p + n <= |m| && q + n <= |m| && forall k :: q <= k < q + n ==> m'[k] == m[k - q + p]
  }

  /** Writing into the payload of one block touches neither tags nor other payloads. */
  lemma {:induction false} PayloadWrite(m: seq<byte>, m': seq<byte>, bs: seq<Block>, brk: nat, c: Block, lo: int, hi: int)
    requires Image(m, bs, brk) && c in bs
    requires SameOutside(m, m', lo, hi) && c.ptr <= lo && hi <= c.ptr + c.size - 8
    ensures Image(m', bs, brk)
    ensures forall b :: b in bs && b != c ==> SamePayload(m, m', b)
  {
    TilesBounds(bs, PROLOGUE.ptr, brk);
    forall b | b in bs
      ensures HasTags(m', b) && (b != c ==> SamePayload(m, m', b))
    {
      assert HasTags(m, b);
      TilesDisjoint(bs, PROLOGUE.ptr, brk, b, c);
    }
  }

  /** What malloc has done for a realloc: the old block b and the new block c are apart. */
  lemma {:induction false} Apart(m: seq<byte>, cs: seq<Block>, brk: nat, b: Block, c: Block)
    requires Image(m, cs, brk) && b in cs && c in cs && b.ptr != c.ptr
    ensures HasTags(m, b) && Sized(b) && Sized(c)
    ensures b.ptr + b.size <= brk && c.ptr + c.size <= brk
    ensures b.ptr + b.size <= c.ptr || c.ptr + c.size <= b.ptr
  {
    TilesBounds(cs, PROLOGUE.ptr, brk);
    TilesDisjoint(cs, PROLOGUE.ptr, brk, b, c);
  }

  /** The payload bytes through malloc (m to m') and memcpy (m' to m''). */
  lemma {:induction false} CopyKept(m: seq<byte>, m': seq<byte>, m'': seq<byte>, bs: seq<Block>, cs: seq<Block>,
                                    b: Block, c: Block, n: int)
    requires Kept(m, m', bs) && b in bs && b.alloc && Gains(bs, cs, c)
    requires forall d :: d in cs && d != c ==> SamePayload(m', m'', d)
    requires n <= b.size - 8 && n <= c.size - 8 && Copied(m', m'', b.ptr, c.ptr, n)
    ensures Kept(m, m'', bs) && Copied(m, m'', b.ptr, c.ptr, n)
  {
    forall d | d in bs && d.alloc
      ensures SamePayload(m, m'', d)
    {
      assert SamePayload(m, m', d) && SamePayload(m', m'', d);
    }
    assert SamePayload(m, m', b);
  }

  lemma {:induction false} CopyImage(m: seq<byte>, m': seq<byte>, m'': seq<byte>, bs: seq<Block>, cs: seq<Block>, brk: nat,
                                     b: Block, c: Block, n: nat)
    requires Kept(m, m', bs) && b in bs && b.alloc && Gains(bs, cs, c)
    requires Image(m', cs, brk) && c in cs && n <= b.size - 8 && n <= c.size - 8
    requires SameOutside(m', m'', c.ptr, c.ptr + n) && Copied(m', m'', b.ptr, c.ptr, n)
    ensures Image(m'', cs, brk) && Kept(m, m'', bs) && Copied(m, m'', b.ptr, c.ptr, n)
  {
    hide Image, Kept, Copied, SameOutside, SamePayload, Gains;
    PayloadWrite(m', m'', cs, brk, c, c.ptr, c.ptr + n);
    CopyKept(m, m', m'', bs, cs, b, c, n);
  }

  /** The payload bytes when the old block is then freed (m' to m''). */
  lemma {:induction false} FreedAfterCopy(m: seq<byte>, m': seq<byte>, m'': seq<byte>, bs: seq<Block>, ds: seq<Block>,
                                          b: Block, c: Block, n: int)
    requires Kept(m, m', bs) && Kept(m', m'', ds) && c in ds && c.alloc
    requires Copied(m, m', b.ptr, c.ptr, n) && n <= c.size - 8
    ensures forall d :: d in bs && d in ds && d.alloc ==> SamePayload(m, m'', d)
    ensures Copied(m, m'', b.ptr, c.ptr, n)
  {
    forall d | d in bs && d in ds && d.alloc
      ensures SamePayload(m, m'', d)
    {
      assert SamePayload(m, m', d) && SamePayload(m', m'', d);
    }
    assert SamePayload(m', m'', c);
  }

  /** Both tags of b, taken apart. */
  lemma {:induction false} TagWords(m: seq<byte>, b: Block)
    requires HasTags(m, b) && b.size % 8 == 0
    ensures 4 <= b.ptr && 8 <= b.size && b.ptr + b.size - 4 <= |m|
    ensures SizeBits(Word(m, b.ptr - 4)) == b.size && AllocBit(Word(m, b.ptr - 4)) == b.alloc
    ensures SizeBits(Word(m, b.ptr + b.size - 8)) == b.size && AllocBit(Word(m, b.ptr + b.size - 8)) == b.alloc
  {
    TagBits(b);
  }

  lemma {:induction false} HeaderOf(m: seq<byte>, b: Block)
    requires HasTags(m, b)
    ensures 4 <= b.ptr && b.ptr + b.size - 4 <= |m| && Word(m, b.ptr - 4) == TagOf(b)
  {
  }

  /** Tags of c and then of d written into the two parts of b. */
  lemma {:induction false} SplitTagged(m: seq<byte>, m': seq<byte>, m'': seq<byte>, b: Block, c: Block, d: Block)
    requires c.ptr == b.ptr && d.ptr == c.ptr + c.size && b.size == c.size + d.size
    requires HasTags(m', c) && SameOutside(m, m', c.ptr - 4, c.ptr + c.size - 4)
    requires HasTags(m'', d) && SameOutside(m', m'', d.ptr - 4, d.ptr + d.size - 4)
    ensures Tagged(m'', [c, d]) && SameOutside(m, m'', b.ptr - 4, b.ptr + b.size - 4)
  {
    TagsFrame(m', m'', c, d.ptr - 4, d.ptr + d.size - 4);
  }

  /** Walking the tags from lo to hi can give only one list of blocks. */
  lemma {:induction false} WalkUnique(m: seq<byte>, bs: seq<Block>, cs: seq<Block>, lo: nat, hi: nat)
    requires Tiles(bs, lo, hi) && Tagged(m, bs) && Tiles(cs, lo, hi) && Tagged(m, cs)
    ensures bs == cs
  {
    TilesBounds(bs, lo, hi);
    TilesBounds(cs, lo, hi);
    assert bs != [] ==> bs[0] in bs && HasTags(m, bs[0]);
    assert cs != [] ==> cs[0] in cs && HasTags(m, cs[0]);
    if bs != [] && cs != [] {
      TagBits(bs[0]);
      TagBits(cs[0]);
      assert bs[0] == cs[0];
      WalkUnique(m, bs[1..], cs[1..], lo + bs[0].size, hi);
      assert bs == [bs[0]] + bs[1..] && cs == [cs[0]] + cs[1..];
    }
  }

  /** The two words before the payload of b, and then its tags, are written. */
  lemma {:induction false} Untouched(m: seq<byte>, m': seq<byte>, m'': seq<byte>, b: Block)
    requires 8 <= b.ptr && 8 <= b.size && b.ptr + b.size - 4 <= |m|
    requires SameOutside(m, m', b.ptr - 8, b.ptr) && SameOutside(m', m'', b.ptr - 4, b.ptr + b.size - 4)
    ensures SameOutside(m, m'', b.ptr - 8, b.ptr + b.size - 4)
    ensures Word(m'', b.ptr - 8) == Word(m', b.ptr - 8)
  {
    WordFrame(m', m'', b.ptr - 4, b.ptr + b.size - 4, b.ptr - 8);
  }

  lemma {:induction false} FreshSized(f: Block)
    requires f.ptr % 8 == 0 && f.size % 8 == 0 && 16 <= f.size
    ensures Sized(f)
  {
  }
}
