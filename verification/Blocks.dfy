/** Lists of blocks, as values.

  A block is what one pair of boundary tags in mm.c describes: `ptr` is the payload address
  (the `bp` of mm.c, as an offset from the start of the heap) and `size` the whole block with
  its header and footer.  The block occupies the bytes ptr - 4, ..., ptr + size - 5 and its
  payload the bytes ptr, ..., ptr + size - 9.
 */
module Blocks {

  datatype Block = Block(ptr: nat, size: nat, alloc: bool)

  /** The prologue: two tag words, no payload, always allocated. */
  const PROLOGUE: Block := Block(8, 8, true)

  /** Sizes and payload addresses are multiples of 8, and ordinary blocks have at least 16 bytes. */
  predicate Sized(b: Block) {
    b.ptr % 8 == 0 && b.size % 8 == 0 && (b.size >= 16 || b == PROLOGUE)
  }

  /** The blocks lie one after the other, the first at lo and the last ending at hi. */
  predicate Tiles(bs: seq<Block>, lo: nat, hi: nat) {
    if bs == [] then lo == hi
    else bs[0].ptr == lo && Sized(bs[0]) && Tiles(bs[1..], lo + bs[0].size, hi)
  }

  /** No two neighbours are both free. */
  predicate Coalesced(bs: seq<Block>) {
    forall i :: 0 <= i < |bs| - 1 ==> InUse(bs, i)
  }

  /** Block i or the one behind it is allocated. */
  predicate InUse(bs: seq<Block>, i: nat)
    requires i < |bs| - 1
  {
    bs[i].alloc || bs[i + 1].alloc
  }

  /** A block list mm.c may be in between calls: prologue first, no gap up to brk, coalesced. */
  predicate WellFormed(bs: seq<Block>, brk: nat) {
    bs != [] && bs[0] == PROLOGUE && Tiles(bs, PROLOGUE.ptr, brk) && Coalesced(bs)
  }

  /** The allocated blocks, in address order. */
  function Live(bs: seq<Block>): seq<Block> {
    if bs == [] then []
    else if bs[0].alloc then [bs[0]] + Live(bs[1..])
    else Live(bs[1..])
  }

  /** Total size of the blocks. */
  function Bytes(bs: seq<Block>): nat {
    if bs == [] then 0 else bs[0].size + Bytes(bs[1..])
  }

  /** Put b in front of a list, joining it with the head of the list when both are free. */
  function Join(b: Block, rest: seq<Block>): (r: seq<Block>)
    ensures r != []
  {
    if rest != [] && !b.alloc && !rest[0].alloc
    then [Block(b.ptr, b.size + rest[0].size, false)] + rest[1..]
    else [b] + rest
  }

  /** Replace every maximal run of free blocks by one free block. */
  function Merge(bs: seq<Block>): seq<Block> {
    if bs == [] then [] else Join(bs[0], Merge(bs[1..]))
  }

  /** Mark the blocks with the given payload addresses as free. */
  function Release(bs: seq<Block>, ps: set<nat>): (r: seq<Block>)
    ensures |r| == |bs|
    ensures forall i :: 0 <= i < |bs| ==> r[i] == if bs[i].ptr in ps then bs[i].(alloc := false) else bs[i]
  {
    if bs == [] then []
    else [if bs[0].ptr in ps then bs[0].(alloc := false) else bs[0]] + Release(bs[1..], ps)
  }

  /** The members of a list whose payload address is not in ps. */
  function Without(bs: seq<Block>, ps: set<nat>): seq<Block> {
    if bs == [] then []
    else if bs[0].ptr in ps then Without(bs[1..], ps)
    else [bs[0]] + Without(bs[1..], ps)
  }

  // ---------- tilings ----------

  lemma {:induction false} TilesBounds(bs: seq<Block>, lo: nat, hi: nat)
    requires Tiles(bs, lo, hi)
    ensures lo <= hi
    ensures forall b :: b in bs ==> Sized(b) && lo <= b.ptr && b.ptr + b.size <= hi
  {
    if bs != [] {
      TilesBounds(bs[1..], lo + bs[0].size, hi);
    }
  }

  /** Later blocks lie behind earlier ones. */
  lemma {:induction false} TilesOrder(bs: seq<Block>, lo: nat, hi: nat)
    requires Tiles(bs, lo, hi)
    ensures forall i, j :: 0 <= i < j < |bs| ==> bs[i].ptr + bs[i].size <= bs[j].ptr
    ensures bs != [] ==> bs[|bs| - 1].ptr + bs[|bs| - 1].size == hi
  {
    if bs != [] {
      var rest := bs[1..];
      TilesOrder(rest, lo + bs[0].size, hi);
      TilesBounds(rest, lo + bs[0].size, hi);
      forall i, j | 0 <= i < j < |bs|
        ensures bs[i].ptr + bs[i].size <= bs[j].ptr
      {
        assert bs[j] == rest[j - 1] && bs[j] in rest;
        if i > 0 {
          assert bs[i] == rest[i - 1];
        }
      }
    }
  }

  lemma {:induction false} TilesOne(b: Block)
    requires Sized(b)
    ensures Tiles([b], b.ptr, b.ptr + b.size) && Coalesced([b])
    ensures Live([b]) == if b.alloc then [b] else []
  {
    assert [b][1..] == [];
  }

  /** Blocks of one tiling are the same block or have disjoint extents. */
  lemma {:induction false} TilesDisjoint(bs: seq<Block>, lo: nat, hi: nat, b: Block, c: Block)
    requires Tiles(bs, lo, hi) && b in bs && c in bs
    ensures b == c || b.ptr + b.size <= c.ptr || c.ptr + c.size <= b.ptr
  {
    TilesOrder(bs, lo, hi);
  }

  /** A payload address names at most one block. */
  lemma {:induction false} SamePtr(bs: seq<Block>, lo: nat, hi: nat, b: Block, c: Block)
    requires Tiles(bs, lo, hi) && b in bs && c in bs && b.ptr == c.ptr
    ensures b == c
  {
    TilesDisjoint(bs, lo, hi, b, c);
    TilesBounds(bs, lo, hi);
  }

  lemma {:induction false} OnlyBlock(bs: seq<Block>, brk: nat, b: Block)
    requires WellFormed(bs, brk) && b in bs
    ensures forall c :: c in bs && c.ptr == b.ptr ==> c == b
  {
    forall c | c in bs && c.ptr == b.ptr
      ensures c == b
    {
      SamePtr(bs, PROLOGUE.ptr, brk, c, b);
    }
  }

  lemma {:induction false} TilesConcat(a: seq<Block>, b: seq<Block>, lo: nat, mid: nat, hi: nat)
    requires Tiles(a, lo, mid) && Tiles(b, mid, hi)
    ensures Tiles(a + b, lo, hi)
  {
    if a == [] {
      assert a + b == b;
    } else {
      TilesConcat(a[1..], b, lo + a[0].size, mid, hi);
      assert (a + b)[1..] == a[1..] + b;
    }
  }

  lemma {:induction false} TilesSplit(bs: seq<Block>, lo: nat, hi: nat, k: nat) returns (mid: nat)
    requires Tiles(bs, lo, hi) && k <= |bs|
    ensures Tiles(bs[..k], lo, mid) && Tiles(bs[k..], mid, hi)
    ensures k < |bs| ==> mid == bs[k].ptr
    ensures k == |bs| ==> mid == hi
  {
    if k == 0 {
      assert bs[..0] == [] && bs[0..] == bs;
      mid := lo;
    } else {
      mid := TilesSplit(bs[1..], lo + bs[0].size, hi, k - 1);
      assert bs[..k][1..] == bs[1..][..k - 1] && bs[k..] == bs[1..][k - 1..];
    }
  }

  /** Block k of a tiling, with what lies before and behind it. */
  lemma {:induction false} TilesAt(bs: seq<Block>, lo: nat, hi: nat, k: nat)
    requires Tiles(bs, lo, hi) && k < |bs|
    ensures Sized(bs[k]) && bs == bs[..k] + [bs[k]] + bs[k + 1..]
    ensures Tiles(bs[..k], lo, bs[k].ptr) && Tiles(bs[k + 1..], bs[k].ptr + bs[k].size, hi)
  {
    var mid := TilesSplit(bs, lo, hi, k);
    assert bs[k..][1..] == bs[k + 1..];
  }

  lemma {:induction false} CoalescedAt(bs: seq<Block>, k: nat)
    requires Coalesced(bs) && k < |bs|
    ensures Coalesced(bs[..k]) && Coalesced(bs[k + 1..])
    ensures k > 0 && !bs[k].alloc ==> bs[..k][k - 1].alloc
    ensures k + 1 < |bs| && !bs[k].alloc ==> bs[k + 1..][0].alloc
  {
    CoalescedPart(bs, 0, k);
    CoalescedPart(bs, k + 1, |bs|);
    assert bs[0..k] == bs[..k] && bs[k + 1..|bs|] == bs[k + 1..];
    assert k > 0 ==> InUse(bs, k - 1);
    assert k + 1 < |bs| ==> InUse(bs, k);
  }

  lemma {:induction false} TilesBytes(bs: seq<Block>, lo: nat, hi: nat)
    requires Tiles(bs, lo, hi)
    ensures Bytes(bs) == hi - lo
  {
    if bs != [] {
      TilesBytes(bs[1..], lo + bs[0].size, hi);
    }
  }

  // ---------- live blocks ----------

  lemma {:induction false} LiveConcat(a: seq<Block>, b: seq<Block>)
    ensures Live(a + b) == Live(a) + Live(b)
  {
    if a == [] {
      assert a + b == b;
    } else {
      LiveConcat(a[1..], b);
      assert (a + b)[1..] == a[1..] + b;
    }
  }

  lemma {:induction false} LiveConcat3(pre: seq<Block>, mid: seq<Block>, post: seq<Block>)
    ensures Live(pre + mid + post) == Live(pre) + Live(mid) + Live(post)
    ensures Live(mid) == [] ==> Live(pre + mid + post) == Live(pre) + Live(post)
  {
    LiveConcat(pre, mid);
    LiveConcat(pre + mid, post);
    var x := Live(pre);
    assert x + [] == x;
  }

  lemma {:induction false} LiveMembers(bs: seq<Block>)
    ensures forall b :: b in Live(bs) <==> b in bs && b.alloc
  {
    if bs != [] {
      LiveMembers(bs[1..]);
    }
  }

  lemma {:induction false} NoneLive(bs: seq<Block>)
    requires forall l :: 0 <= l < |bs| ==> !bs[l].alloc
    ensures Live(bs) == []
  {
    LiveMembers(bs);
    assert Live(bs) != [] ==> Live(bs)[0] in Live(bs);
  }

  /** The first live block lies behind every leading free one. */
  lemma {:induction false} LiveHead(bs: seq<Block>, lo: nat, hi: nat)
    requires Tiles(bs, lo, hi) && Coalesced(bs) && bs != [] && !bs[0].alloc
    ensures bs[0].size == (if Live(bs) == [] then hi else Live(bs)[0].ptr) - lo
  {
    if |bs| > 1 {
      assert InUse(bs, 0);
      assert bs[1..][0] == bs[1];
    }
  }

  /** A coalesced tiling is determined by its extent and its allocated blocks. */
  lemma {:induction false} CoalescedUnique(bs: seq<Block>, cs: seq<Block>, lo: nat, hi: nat)
    requires Tiles(bs, lo, hi) && Coalesced(bs)
    requires Tiles(cs, lo, hi) && Coalesced(cs)
    requires Live(bs) == Live(cs)
    ensures bs == cs
  {
    TilesBounds(bs, lo, hi);
    TilesBounds(cs, lo, hi);
    assert bs != [] ==> bs[0] in bs;
    assert cs != [] ==> cs[0] in cs;
    if bs != [] && cs != [] {
      if !bs[0].alloc {
        LiveHead(bs, lo, hi);
      }
      if !cs[0].alloc {
        LiveHead(cs, lo, hi);
      }
      assert bs[0] == cs[0];
      CoalescedTail(bs);
      CoalescedTail(cs);
      if bs[0].alloc {
        assert Live(bs)[1..] == Live(bs[1..]) && Live(cs)[1..] == Live(cs[1..]);
      }
      CoalescedUnique(bs[1..], cs[1..], lo + bs[0].size, hi);
      assert bs == [bs[0]] + bs[1..];
      assert cs == [cs[0]] + cs[1..];
    }
  }

  lemma {:induction false} CoalescedTail(bs: seq<Block>)
    requires Coalesced(bs) && bs != []
    ensures Coalesced(bs[1..])
  {
    forall i | 0 <= i < |bs[1..]| - 1
      ensures InUse(bs[1..], i)
    {
      assert InUse(bs, i + 1);
    }
  }

  lemma {:induction false} CoalescedPart(bs: seq<Block>, i: nat, j: nat)
    requires Coalesced(bs) && i <= j <= |bs|
    ensures Coalesced(bs[i..j])
  {
    forall k | 0 <= k < |bs[i..j]| - 1
      ensures InUse(bs[i..j], k)
    {
      assert InUse(bs, i + k);
    }
  }

  lemma {:induction false} CoalescedConcat(a: seq<Block>, b: seq<Block>)
    requires Coalesced(a) && Coalesced(b)
    requires a == [] || b == [] || a[|a| - 1].alloc || b[0].alloc
    ensures Coalesced(a + b)
  {
    var c := a + b;
    forall k | 0 <= k < |c| - 1
      ensures InUse(c, k)
    {
      if k < |a| - 1 {
        assert InUse(a, k);
      } else if k >= |a| {
        assert InUse(b, k - |a|);
      }
    }
  }

  /** A coalesced tiling from three parts. */
  lemma {:induction false} Compose(pre: seq<Block>, mid: seq<Block>, post: seq<Block>, lo: nat, a: nat, z: nat, hi: nat)
    requires Tiles(pre, lo, a) && Tiles(mid, a, z) && Tiles(post, z, hi)
    requires Coalesced(pre) && Coalesced(mid) && Coalesced(post) && mid != []
    requires pre == [] || pre[|pre| - 1].alloc || mid[0].alloc
    requires post == [] || post[0].alloc || mid[|mid| - 1].alloc
    ensures Tiles(pre + mid + post, lo, hi) && Coalesced(pre + mid + post)
  {
    TilesConcat(pre, mid, lo, a, z);
    TilesConcat(pre + mid, post, lo, z, hi);
    CoalescedConcat(pre, mid);
    CoalescedConcat(pre + mid, post);
  }

  // ---------- merging ----------

  lemma {:induction false} MergeTiles(bs: seq<Block>, lo: nat, hi: nat)
    requires Tiles(bs, lo, hi)
    ensures Tiles(Merge(bs), lo, hi)
  {
    if bs != [] {
      MergeTiles(bs[1..], lo + bs[0].size, hi);
      var rest := Merge(bs[1..]);
      var m := Join(bs[0], rest);
      if rest != [] && !bs[0].alloc && !rest[0].alloc {
        assert m[1..] == rest[1..];
      } else {
        assert m[1..] == rest;
      }
    }
  }

  lemma {:induction false} MergeCoalesced(bs: seq<Block>)
    ensures Coalesced(Merge(bs))
  {
    if bs != [] {
      MergeCoalesced(bs[1..]);
      var rest := Merge(bs[1..]);
      var m := Merge(bs);
      forall i | 0 <= i < |m| - 1
        ensures InUse(m, i)
      {
        if rest != [] && !bs[0].alloc && !rest[0].alloc {
          assert InUse(rest, i);
        } else if i > 0 {
          assert InUse(rest, i - 1);
        }
      }
    }
  }

  lemma {:induction false} MergeLive(bs: seq<Block>)
    ensures Live(Merge(bs)) == Live(bs)
  {
    if bs != [] {
      MergeLive(bs[1..]);
      var rest := Merge(bs[1..]);
      if rest != [] && !bs[0].alloc && !rest[0].alloc {
        assert Join(bs[0], rest)[1..] == rest[1..];
      } else {
        assert Join(bs[0], rest)[1..] == rest;
      }
    }
  }

  /** Merging is the only way to coalesce a tiling without touching its allocated blocks. */
  lemma {:induction false} MergeUnique(bs: seq<Block>, cs: seq<Block>, lo: nat, hi: nat)
    requires Tiles(bs, lo, hi)
    requires Tiles(cs, lo, hi) && Coalesced(cs) && Live(cs) == Live(bs)
    ensures cs == Merge(bs)
  {
    MergeTiles(bs, lo, hi);
    MergeCoalesced(bs);
    MergeLive(bs);
    CoalescedUnique(cs, Merge(bs), lo, hi);
  }

  // ---------- releasing ----------

  lemma {:induction false} ReleaseTiles(bs: seq<Block>, lo: nat, hi: nat, ps: set<nat>)
    requires Tiles(bs, lo, hi) && PROLOGUE.ptr !in ps
    ensures Tiles(Release(bs, ps), lo, hi)
  {
    if bs != [] {
      ReleaseTiles(bs[1..], lo + bs[0].size, hi, ps);
      assert Release(bs, ps)[1..] == Release(bs[1..], ps);
    }
  }

  lemma {:induction false} ReleaseLive(bs: seq<Block>, ps: set<nat>)
    ensures Live(Release(bs, ps)) == Without(Live(bs), ps)
  {
    if bs != [] {
      ReleaseLive(bs[1..], ps);
      assert Release(bs, ps)[1..] == Release(bs[1..], ps);
      if bs[0].alloc {
        assert Live(bs)[1..] == Live(bs[1..]);
      }
    }
  }

  lemma {:induction false} WithoutMembers(bs: seq<Block>, ps: set<nat>)
    ensures forall b :: b in Without(bs, ps) <==> b in bs && b.ptr !in ps
  {
    if bs != [] {
      WithoutMembers(bs[1..], ps);
    }
  }

  lemma {:induction false} WithoutTwice(bs: seq<Block>, ps: set<nat>, qs: set<nat>)
    ensures Without(Without(bs, ps), qs) == Without(bs, ps + qs)
  {
    if bs != [] {
      WithoutTwice(bs[1..], ps, qs);
      if bs[0].ptr !in ps {
        assert Without(bs, ps)[1..] == Without(bs[1..], ps);
      }
    }
  }

  lemma {:induction false} WithoutConcat(a: seq<Block>, b: seq<Block>, ps: set<nat>)
    ensures Without(a + b, ps) == Without(a, ps) + Without(b, ps)
  {
    if a == [] {
      assert a + b == b;
    } else {
      WithoutConcat(a[1..], b, ps);
      HeadAndTail(a, b);
      if a[0].ptr !in ps {
        HeadAndTail([a[0]] + Without(a[1..], ps), Without(b, ps));
      }
    }
  }

  lemma {:induction false} HeadAndTail<T>(a: seq<T>, b: seq<T>)
    requires a != []
    ensures a + b != [] && (a + b)[0] == a[0] && (a + b)[1..] == a[1..] + b
    ensures a + b == [a[0]] + (a[1..] + b)
  {
  }

  lemma {:induction false} WithoutAbsent(bs: seq<Block>, ps: set<nat>)
    requires forall b :: b in bs ==> b.ptr !in ps
    ensures Without(bs, ps) == bs
  {
    if bs != [] {
      WithoutAbsent(bs[1..], ps);
    }
  }
}
