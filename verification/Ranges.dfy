/** The range list of mdriver.c: a linked list of the extents of the live payloads. */
module Ranges {
  import opened MemLib

  const ALIGNMENT: nat := 8

  /** First and last byte of a payload. */
  datatype Range = Range(lo: nat, hi: nat)

  /** What add_range finds; everything but Added makes it return 0. */
  datatype Finding = Added | Misaligned | OutsideHeap | Overlapping

  /** range_t */
  class RangeNode {
    const lo: nat
    const hi: nat
    var next: RangeNode?

    constructor (lo: nat, hi: nat, next: RangeNode?)
      ensures this.lo == lo && this.hi == hi && this.next == next
    {
      this.lo := lo;
      this.hi := hi;
      this.next := next;
    }
  }

  /** The test of add_range: an end of the new range lies in the recorded one. */
  predicate Hit(lo: nat, hi: nat, r: Range) {
    (r.lo <= lo <= r.hi) || (r.lo <= hi <= r.hi)
  }

  predicate Overlap(lo: nat, hi: nat, r: Range) {
    lo <= r.hi && r.lo <= hi
  }

  /** The new range sticks out of the recorded one on both sides. */
  predicate Encloses(lo: nat, hi: nat, r: Range) {
    lo < r.lo && r.hi < hi
  }

  function RangesOf(nodes: seq<RangeNode>): (rs: seq<Range>)
    ensures |rs| == |nodes|
    ensures forall i :: 0 <= i < |nodes| ==> rs[i] == Range(nodes[i].lo, nodes[i].hi)
  {
    if nodes == [] then [] else [Range(nodes[0].lo, nodes[0].hi)] + RangesOf(nodes[1..])
  }

  /** The list without the first entry that starts at lo. */
  function RemoveFirst(rs: seq<Range>, lo: nat): seq<Range> {
    if rs == [] then []
    else if rs[0].lo == lo then rs[1..]
    else [rs[0]] + RemoveFirst(rs[1..], lo)
  }

  /** The overlap test is right about a recorded range exactly when the new one does not enclose it. */
  lemma {:induction false} HitIsOverlap(lo: nat, hi: nat, r: Range)
    requires lo <= hi && r.lo <= r.hi
    ensures (Hit(lo, hi, r) <==> Overlap(lo, hi, r)) <==> !Encloses(lo, hi, r)
  {
  }

  /** Against a whole list, a payload passes exactly when each recorded one is apart or enclosed. */
  lemma {:induction false} PassesIff(lo: nat, hi: nat, rs: seq<Range>)
    requires lo <= hi && forall r :: r in rs ==> r.lo <= r.hi
    ensures (forall r :: r in rs ==> !Hit(lo, hi, r)) <==> (forall r :: r in rs ==> !Overlap(lo, hi, r) || Encloses(lo, hi, r))
  {
    hide Hit;
    forall r | r in rs
      ensures !Hit(lo, hi, r) <==> !Overlap(lo, hi, r) || Encloses(lo, hi, r)
    {
      HitIsOverlap(lo, hi, r);
    }
  }

  /** So a new payload around a recorded one passes the test although they overlap. */
  lemma {:induction false} EnclosingMissed()
    ensures !Hit(16, 63, Range(32, 39)) && Overlap(16, 63, Range(32, 39))
  {
  }

  lemma {:induction false} RemoveFirstAt(rs: seq<Range>, lo: nat, k: nat)
    requires k < |rs| && rs[k].lo == lo && forall i :: 0 <= i < k ==> rs[i].lo != lo
    ensures RemoveFirst(rs, lo) == rs[..k] + rs[k + 1..]
  {
    if k > 0 {
      RemoveFirstAt(rs[1..], lo, k - 1);
      assert rs[..k] + rs[k + 1..] == [rs[0]] + (rs[1..][..k - 1] + rs[1..][k..]);
    } else {
      assert rs[..0] + rs[1..] == rs[1..];
    }
  }

  lemma {:induction false} RemoveFirstAbsent(rs: seq<Range>, lo: nat)
    requires forall i :: 0 <= i < |rs| ==> rs[i].lo != lo
    ensures RemoveFirst(rs, lo) == rs
  {
    if rs != [] {
      RemoveFirstAbsent(rs[1..], lo);
    }
  }

  class RangeList {
    var head: RangeNode?
    ghost var nodes: seq<RangeNode>
    ghost var repr: set<RangeNode>

    /** `nodes` are the nodes reached from head, all different. */
    ghost predicate Valid()
      reads this, repr
    {
      && (forall i :: 0 <= i < |nodes| ==> nodes[i] in repr)
      && head == (if nodes == [] then null else nodes[0])
      && (forall i {:trigger nodes[i].next} :: 0 <= i < |nodes| ==>
            nodes[i].next == if i + 1 < |nodes| then nodes[i + 1] else null)
      && (forall i, j :: 0 <= i < j < |nodes| ==> nodes[i] != nodes[j])
    }

    ghost function Ranges(): seq<Range>
      reads this
    {
      RangesOf(nodes)
    }

    constructor ()
      ensures Valid() && repr == {} && Ranges() == []
    {
      head := null;
      nodes := [];
      repr := {};
    }

    /** clear_ranges, without the calls of free */
    method Clear()
      modifies this
      ensures Valid() && repr == {} && Ranges() == []
    {
      head := null;
      nodes := [];
      repr := {};
    }

    /** add_range */
    method Add(lo: nat, size: nat, lib: MemLib) returns (f: Finding)
      requires Valid() && size > 0
      modifies this
      ensures Valid()
      ensures f == var hi := lo + size - 1;
                   if lo % ALIGNMENT != 0 then Misaligned
                   else if lo < lib.HeapLo() || lo > lib.HeapHi() || hi < lib.HeapLo() || hi > lib.HeapHi() then OutsideHeap
                   else if exists r :: r in old(Ranges()) && Hit(lo, hi, r) then Overlapping
                   else Added
      ensures Ranges() == if f == Added then [Range(lo, lo + size - 1)] + old(Ranges()) else old(Ranges())
      ensures fresh(repr - old(repr))
    {
      var hi := lo + size - 1;
      if lo % ALIGNMENT != 0 {
        return Misaligned;
      }
      if lo < lib.HeapLo() || lo > lib.HeapHi() || hi < lib.HeapLo() || hi > lib.HeapHi() {
        return OutsideHeap;
      }
      var hit := AnyHit(lo, hi);
      if hit {
        return Overlapping;
      }
      var p := new RangeNode(lo, hi, head);
      head := p;
      nodes := [p] + nodes;
      repr := repr + {p};
      assert nodes[1..] == old(nodes);
      return Added;
    }

    /** The loop of add_range. */
    method AnyHit(lo: nat, hi: nat) returns (hit: bool)
      requires Valid()
      ensures hit <==> exists r :: r in Ranges() && Hit(lo, hi, r)
    {
      var p := head;
      ghost var k := 0;
      while p != null
        invariant k <= |nodes| && p == if k < |nodes| then nodes[k] else null
        invariant forall i :: 0 <= i < k ==> !Hit(lo, hi, Ranges()[i])
        decreases |nodes| - k
      {
        assert Ranges()[k] == Range(p.lo, p.hi);
        if (lo >= p.lo && lo <= p.hi) || (hi >= p.lo && hi <= p.hi) {
          assert Ranges()[k] in Ranges();
          return true;
        }
        p := p.next;
        k := k + 1;
      }
      return false;
    }

    /** remove_range */
    method Remove(lo: nat)
      requires Valid()
      modifies this, repr
      ensures Valid() && Ranges() == RemoveFirst(old(Ranges()), lo)
      ensures repr == old(repr)
    {
      var p := head;
      var prev: RangeNode? := null;
      ghost var k := 0;
      while p != null
        invariant k <= |nodes| && p == if k < |nodes| then nodes[k] else null
        invariant prev == if k == 0 then null else nodes[k - 1]
        invariant forall i :: 0 <= i < k ==> nodes[i].lo != lo
        decreases |nodes| - k
      {
        if p.lo == lo {
          RemoveFirstAt(Ranges(), lo, k);
          RemovedRanges(nodes, k);
          Unlink(prev, p, k);
          return;
        }
        prev := p;
        p := p.next;
        k := k + 1;
      }
      RemoveFirstAbsent(Ranges(), lo);
    }

    /** The assignment through prevpp: the pointer to p now points to what follows p. */
    method Unlink(prev: RangeNode?, p: RangeNode, ghost k: nat)
      requires Valid() && k < |nodes| && p == nodes[k] && prev == if k == 0 then null else nodes[k - 1]
      modifies this, repr
      ensures Valid() && nodes == old(nodes)[..k] + old(nodes)[k + 1..]
      ensures repr == old(repr)
    {
      ghost var before := nodes;
      if prev == null {
        head := p.next;
        nodes := nodes[1..];
        assert before[..k] + before[k + 1..] == nodes;
      } else {
        prev.next := p.next;
        nodes := nodes[..k] + nodes[k + 1..];
      }
    }
  }

  lemma {:induction false} RemovedRanges(nodes: seq<RangeNode>, k: nat)
    requires k < |nodes|
    ensures var rs := RangesOf(nodes); RangesOf(nodes[..k] + nodes[k + 1..]) == rs[..k] + rs[k + 1..]
  {
  }
}
