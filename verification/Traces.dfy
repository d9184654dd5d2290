/** Request traces, and what a trace does to the allocator.

  `Replay` runs a trace on block lists alone.  The three interpreters of mdriver.c are proved to
  follow it, so a property of Replay is one of all three.
 */
module Traces {
  import opened Blocks
  import opened Words
  import opened Wrappers
  import opened Allocator
  import opened Policy

  /** traceop_t */
  datatype Op = Alloc(index: nat, size: nat) | Realloc(index: nat, size: nat) | Free(index: nat)

  /** The ids that are allocated after the first n requests. */
  function LiveIds(ops: seq<Op>, n: nat): set<nat>
    requires n <= |ops|
  {
    if n == 0 then {}
    else
      var ids := LiveIds(ops, n - 1);
      match ops[n - 1]
      case Alloc(i, _) => ids + {i}
      case Realloc(_, _) => ids
      case Free(i) => ids - {i}
  }

  /** A request that makes sense when `ids` are allocated; sizes are positive ints. */
  predicate ValidOp(op: Op, ids: set<nat>, numIds: nat) {
    match op
    case Alloc(i, size) => i < numIds && i !in ids && 0 < size < TWO_31
    case Realloc(i, size) => i in ids && 0 < size < TWO_31
    case Free(i) => i in ids
  }

  predicate WellFormedTrace(ops: seq<Op>, numIds: nat) {
    forall n :: 0 <= n < |ops| ==> ValidOp(ops[n], LiveIds(ops, n), numIds)
  }

  /** The allocator during a trace: its blocks, the payload address of every live id, and the size
      last requested for every live payload address. */
  datatype Run = Run(blocks: seq<Block>, ids: map<nat, nat>, req: map<nat, nat>)

  /** One request; None when the allocator returns NULL (or the id of a realloc or free is not live,
      which does not happen in a well-formed trace). */
  function Step(run: Run, op: Op, limit: nat): Option<Run>
    requires run.blocks != []
  {
    match op
    case Alloc(i, size) =>
      var r := Malloc(run.blocks, size, limit);
      if r.ptr.None? then None
      else Some(Run(r.blocks, run.ids[i := r.ptr.value], run.req[r.ptr.value := size]))
    case Realloc(i, size) =>
      if i !in run.ids then None
      else
        var p := run.ids[i];
        var r := Allocator.Realloc(run.blocks, Some(p), size, limit);
        if r.ptr.None? then None
        else
          var q := r.ptr.value;
          Some(Run(r.blocks, run.ids[i := q], run.req[q := size] - {p}))
    case Free(i) =>
      if i !in run.ids then None
      else Some(Run(Allocator.Free(run.blocks, run.ids[i]), run.ids - {i}, run.req - {run.ids[i]}))
  }

  /** The state after mm_init and the first n requests; None when mm_init or one of them failed. */
  function Replay(ops: seq<Op>, n: nat, limit: nat): (r: Option<Run>)
    requires n <= |ops|
  {
    if n == 0 then
      match Init(limit)
      case None => None
      case Some(bs) => Some(Run(bs, map[], map[]))
    else
      match Replay(ops, n - 1, limit)
      case None => None
      case Some(run) => if run.blocks == [] then None else Step(run, ops[n - 1], limit)
  }

  // ---------- what every run keeps ----------

  /** req has exactly the ordinary live blocks, each with room for its request and two tags. */
  ghost predicate Owned(bs: seq<Block>, req: map<nat, nat>) {
    && (forall b :: b in bs && b.alloc && b != PROLOGUE ==> b.ptr in req && 0 < req[b.ptr] <= b.size - 8)
    && (forall p :: p in req ==> IsLive(bs, p))
  }

  /** Different ids have different addresses, and the addresses are those in req. */
  ghost predicate Named(ids: map<nat, nat>, req: map<nat, nat>) {
    && (forall i :: i in ids ==> ids[i] in req)
    && (forall i, j :: i in ids && j in ids && ids[i] == ids[j] ==> i == j)
    && (forall p :: p in req ==> exists i :: i in ids && ids[i] == p)
  }

  ghost predicate RunValid(run: Run, limit: nat) {
    && run.blocks != [] && WellFormed(run.blocks, Brk(run.blocks)) && Brk(run.blocks) <= limit
    && Brk(run.blocks) % 16 == 0
    && Owned(run.blocks, run.req) && Named(run.ids, run.req)
  }

  lemma {:induction false} OwnedLive(bs: seq<Block>, req: map<nat, nat>, p: nat, ids: map<nat, nat>, i: nat)
    requires Owned(bs, req) && Named(ids, req) && i in ids && ids[i] == p
    ensures p in req && IsLive(bs, p) && p != PROLOGUE.ptr
  {
  }

  lemma {:induction false} OwnedGain(bs: seq<Block>, cs: seq<Block>, req: map<nat, nat>, b: Block, size: nat)
    requires Owned(bs, req) && PROLOGUE in bs && Gains(bs, cs, b) && b.alloc && 0 < size <= b.size - 8
    ensures b.ptr !in req && Owned(cs, req[b.ptr := size])
  {
    assert b.ptr in req ==> IsLive(bs, b.ptr);
    forall p | p in req[b.ptr := size]
      ensures IsLive(cs, p)
    {
      if p != b.ptr {
        assert IsLive(bs, p);
      } else {
        assert b in cs && PROLOGUE.alloc;
      }
    }
  }

  lemma {:induction false} OwnedDrop(bs: seq<Block>, cs: seq<Block>, req: map<nat, nat>, p: nat)
    requires Owned(bs, req)
    requires forall c :: c in cs && c.alloc <==> c in bs && c.alloc && c.ptr != p
    ensures Owned(cs, req - {p})
  {
    forall q | q in req - {p}
      ensures IsLive(cs, q)
    {
      assert IsLive(bs, q);
    }
  }

  lemma {:induction false} NamedGain(ids: map<nat, nat>, req: map<nat, nat>, i: nat, p: nat, size: nat)
    requires Named(ids, req) && i !in ids && p !in req
    ensures Named(ids[i := p], req[p := size])
  {
    var ids', req' := ids[i := p], req[p := size];
    forall q | q in req'
      ensures exists j :: j in ids' && ids'[j] == q
    {
      if q == p {
        assert i in ids';
      } else {
        var j :| j in ids && ids[j] == q;
        assert j in ids';
      }
    }
  }

  lemma {:induction false} NamedDrop(ids: map<nat, nat>, req: map<nat, nat>, i: nat)
    requires Named(ids, req) && i in ids
    ensures Named(ids - {i}, req - {ids[i]})
  {
    var ids', req' := ids - {i}, req - {ids[i]};
    forall q | q in req'
      ensures exists j :: j in ids' && ids'[j] == q
    {
      var j :| j in ids && ids[j] == q;
      assert j in ids';
    }
  }

  /** A realloc gives the id a new address. */
  lemma {:induction false} NamedMove(ids: map<nat, nat>, req: map<nat, nat>, i: nat, q: nat, size: nat)
    requires Named(ids, req) && i in ids && q !in req
    ensures Named(ids[i := q], req[q := size] - {ids[i]})
  {
    NamedDrop(ids, req, i);
    NamedGain(ids - {i}, req - {ids[i]}, i, q, size);
    assert (ids - {i})[i := q] == ids[i := q];
    assert (req - {ids[i]})[q := size] == req[q := size] - {ids[i]};
  }

  lemma {:induction false} AllocValid(run: Run, i: nat, size: nat, limit: nat)
    requires RunValid(run, limit) && i !in run.ids && 0 < size < TWO_31
    ensures var next := Step(run, Alloc(i, size), limit);
            next.Some? ==> RunValid(next.value, limit) && Brk(run.blocks) <= Brk(next.value.blocks)
  {
    hide Tiles, Coalesced, Owned, Named, Gains, Malloc;
    var r := Malloc(run.blocks, size, limit);
    var b := MallocServes(run.blocks, size, limit);
    if r.ptr.Some? {
      OwnedGain(run.blocks, r.blocks, run.req, b, size);
      NamedGain(run.ids, run.req, i, b.ptr, size);
    }
  }

  lemma {:induction false} FreeValid(run: Run, i: nat, limit: nat)
    requires RunValid(run, limit) && i in run.ids
    ensures var next := Step(run, Free(i), limit);
            next.Some? && RunValid(next.value, limit) && Brk(run.blocks) == Brk(next.value.blocks)
  {
    hide Tiles, Coalesced, Merge, Release, Live, Without;
    var bs, p := run.blocks, run.ids[i];
    assert IsLive(bs, p);
    FreeFacts(bs, Brk(bs), p);
    BrkOf(Allocator.Free(bs, p), Brk(bs));
    hide Allocator.Free;
    OwnedDrop(bs, Allocator.Free(bs, p), run.req, p);
    NamedDrop(run.ids, run.req, i);
  }

  lemma {:induction false} ReallocValid(run: Run, i: nat, size: nat, limit: nat)
    requires RunValid(run, limit) && i in run.ids && 0 < size < TWO_31
    ensures var next := Step(run, Realloc(i, size), limit);
            next.Some? ==> RunValid(next.value, limit) && Brk(run.blocks) <= Brk(next.value.blocks)
  {
    hide Tiles, Coalesced, Gains, Owned, Named, Merge, Release, Live, Without, Malloc;
    var bs, p := run.blocks, run.ids[i];
    var r := Malloc(bs, size, limit);
    var b := MallocServes(bs, size, limit);
    if r.ptr.Some? {
      OwnedLive(bs, run.req, p, run.ids, i);
      OwnedGain(bs, r.blocks, run.req, b, size);
      FreeFacts(r.blocks, Brk(r.blocks), p);
      BrkOf(Allocator.Free(r.blocks, p), Brk(r.blocks));
      hide Allocator.Free;
      OwnedDrop(r.blocks, Allocator.Free(r.blocks, p), run.req[b.ptr := size], p);
      NamedMove(run.ids, run.req, i, b.ptr, size);
    }
  }

  lemma {:induction false} StartValid(limit: nat)
    requires Init(limit).Some?
    ensures RunValid(Run(Init(limit).value, map[], map[]), limit)
    ensures Init(limit).value == [PROLOGUE, Block(INITIAL, CHUNKSIZE, false)]
  {
    InitForm(limit);
    BrkOf(Init(limit).value, INITIAL + CHUNKSIZE);
  }

  /** Every state that a well-formed trace can reach is valid: the heap is well formed and its live
      blocks are exactly those of the live ids, each with the room requested for it. */
  lemma {:induction false} ReplayValid(ops: seq<Op>, n: nat, numIds: nat, limit: nat)
    requires WellFormedTrace(ops, numIds) && n <= |ops|
    ensures var r := Replay(ops, n, limit);
            r.Some? ==> RunValid(r.value, limit) && r.value.ids.Keys == LiveIds(ops, n)
  {
    hide RunValid, Step;
    var r := Replay(ops, n, limit);
    if n == 0 {
      if r.Some? {
        StartValid(limit);
      }
    } else {
      ReplayValid(ops, n - 1, numIds, limit);
      if r.Some? {
        var before := Replay(ops, n - 1, limit).value;
        assert ValidOp(ops[n - 1], LiveIds(ops, n - 1), numIds);
        StepValid(before, ops[n - 1], numIds, limit);
        StepIds(before, ops[n - 1], limit);
      }
    }
  }

  lemma {:induction false} StepIds(run: Run, op: Op, limit: nat)
    requires run.blocks != [] && Step(run, op, limit).Some?
    ensures var ids := Step(run, op, limit).value.ids;
            ids.Keys == match op
                        case Alloc(i, _) => run.ids.Keys + {i}
                        case Realloc(_, _) => run.ids.Keys
                        case Free(i) => run.ids.Keys - {i}
  {
    hide Malloc, Allocator.Free;
  }

  lemma {:induction false} StepValid(run: Run, op: Op, numIds: nat, limit: nat)
    requires RunValid(run, limit) && ValidOp(op, run.ids.Keys, numIds)
    ensures run.blocks != []
    ensures var next := Step(run, op, limit);
            && (next.Some? ==>
                  && RunValid(next.value, limit) && next.value.blocks != []
                  && Brk(run.blocks) <= Brk(next.value.blocks))
            && (next.None? ==> !op.Free? && Malloc(run.blocks, op.size, limit).ptr.None?)
  {
    match op
    case Alloc(i, size) => AllocValid(run, i, size, limit);
    case Realloc(i, size) => ReallocValid(run, i, size, limit);
    case Free(i) => FreeValid(run, i, limit);
  }

  /** What a request of a trace gets: the answer that the heap, the size and the limit determine, recorded
      for its id. */
  lemma {:induction false} StepAnswer(run: Run, op: Op, numIds: nat, limit: nat) returns (c: Block, brk: nat)
    requires RunValid(run, limit) && ValidOp(op, run.ids.Keys, numIds) && limit < TWO_31
    ensures run.blocks != []
    ensures var next := Step(run, op, limit);
            if op.Free? then
              && next.Some? && next.value.blocks != [] && Brk(next.value.blocks) == Brk(run.blocks)
              && forall d :: d in next.value.blocks && d.alloc <==> d in run.blocks && d.alloc && d.ptr != run.ids[op.index]
            else
              var asize := AdjustedSize(op.size);
              && (next.None? <==> !HasRoom(run.blocks, asize) && Brk(run.blocks) + Growth(asize) > limit)
              && (next.Some? ==>
                    && op.index in next.value.ids && c.ptr == next.value.ids[op.index]
                    && next.value.ids == run.ids[op.index := c.ptr]
                    && next.value.req == (if op.Alloc? then run.req else run.req - {run.ids[op.index]})[c.ptr := op.size]
                    && Answer(run.blocks, asize, Growth(asize), limit, if op.Alloc? then {} else {run.ids[op.index]},
                              Reply(next.value.blocks, Some(c.ptr)), c, brk))
  {
    hide Tiles, Coalesced, AdjustedSize, Growth, Malloc, Granted, HasRoom, Owned, Named, Allocator.Free;
    c, brk := PROLOGUE, 0;
    StepValid(run, op, numIds, limit);
    match op
    case Alloc(i, size) =>
      c, brk := MallocAnswer(run.blocks, size, limit);
      NullIff(run.blocks, size, limit);
    case Realloc(i, size) =>
      OwnedLive(run.blocks, run.req, run.ids[i], run.ids, i);
      c, brk := ReallocAnswer(run.blocks, run.ids[i], size, limit);
      var d := ReallocFacts(run.blocks, run.ids[i], size, limit);
      NullIff(run.blocks, size, limit);
    case Free(i) =>
      OwnedLive(run.blocks, run.req, run.ids[i], run.ids, i);
      FreeFacts(run.blocks, Brk(run.blocks), run.ids[i]);
      FreeValid(run, i, limit);
  }

  /** The ordinary blocks cover the heap but for 16 bytes, and the heap only ever grows. */
  lemma {:induction false} HeapConserved(ops: seq<Op>, k: nat, n: nat, numIds: nat, limit: nat)
    requires WellFormedTrace(ops, numIds) && k <= n <= |ops| && Replay(ops, n, limit).Some?
    ensures Replay(ops, k, limit).Some?
    ensures var bs, cs := Replay(ops, k, limit).value.blocks, Replay(ops, n, limit).value.blocks;
            && bs != [] && cs != []
            && Bytes(cs[1..]) == Brk(cs) - INITIAL
            && INITIAL + CHUNKSIZE <= Brk(bs) <= Brk(cs) && (Brk(cs) - Brk(bs)) % 16 == 0
  {
    hide Replay, RunValid, WellFormedTrace, Bytes, Brk, LiveIds;
    GrowsFrom(ops, k, n, numIds, limit);
    GrowsFrom(ops, 0, k, numIds, limit);
    ReplayValid(ops, n, numIds, limit);
    ReplayValid(ops, k, numIds, limit);
    var before, after := Replay(ops, k, limit).value, Replay(ops, n, limit).value;
    RunBytes(before, limit);
    RunBytes(after, limit);
    SixteensApart(Brk(before.blocks), Brk(after.blocks));
    StartBrk(ops, limit);
  }

  lemma {:induction false} RunBytes(run: Run, limit: nat)
    requires RunValid(run, limit)
    ensures run.blocks != [] && Bytes(run.blocks[1..]) == Brk(run.blocks) - INITIAL && Brk(run.blocks) % 16 == 0
  {
    hide Coalesced, Owned, Named;
    TilesBytes(run.blocks, PROLOGUE.ptr, Brk(run.blocks));
  }

  lemma {:induction false} SixteensApart(x: nat, y: nat)
    requires x % 16 == 0 && y % 16 == 0
    ensures (y - x) % 16 == 0
  {
    assert y - x == 16 * (y / 16 - x / 16);
  }

  lemma {:induction false} StartBrk(ops: seq<Op>, limit: nat)
    requires Replay(ops, 0, limit).Some?
    ensures var bs := Replay(ops, 0, limit).value.blocks; bs != [] && Brk(bs) == INITIAL + CHUNKSIZE
  {
    StartValid(limit);
  }

  lemma {:induction false} GrowsFrom(ops: seq<Op>, k: nat, n: nat, numIds: nat, limit: nat)
    requires WellFormedTrace(ops, numIds) && k <= n <= |ops| && Replay(ops, n, limit).Some?
    ensures Replay(ops, k, limit).Some?
    ensures var bs, cs := Replay(ops, k, limit).value.blocks, Replay(ops, n, limit).value.blocks;
            bs != [] && cs != [] && Brk(bs) <= Brk(cs)
    decreases n
  {
    hide RunValid, Step;
    ReplayValid(ops, n, numIds, limit);
    if k == n {
      NonEmpty(Replay(ops, n, limit).value, limit);
    } else {
      GrowsFrom(ops, k, n - 1, numIds, limit);
      ReplayValid(ops, n - 1, numIds, limit);
      assert ValidOp(ops[n - 1], LiveIds(ops, n - 1), numIds);
      StepValid(Replay(ops, n - 1, limit).value, ops[n - 1], numIds, limit);
    }
  }

  lemma {:induction false} NonEmpty(run: Run, limit: nat)
    requires RunValid(run, limit)
    ensures run.blocks != []
  {
  }

  /** A trace that frees every id leaves one free block between prologue and epilogue. */
  lemma {:induction false} AllFreed(ops: seq<Op>, numIds: nat, limit: nat)
    requires WellFormedTrace(ops, numIds) && LiveIds(ops, |ops|) == {}
    requires Replay(ops, |ops|, limit).Some?
    ensures var bs := Replay(ops, |ops|, limit).value.blocks;
            && bs != [] && INITIAL + CHUNKSIZE <= Brk(bs)
            && bs == [PROLOGUE, Block(INITIAL, Brk(bs) - INITIAL, false)]
  {
    hide Replay, Step;
    HeapConserved(ops, |ops|, |ops|, numIds, limit);
    ReplayValid(ops, |ops|, numIds, limit);
    var run := Replay(ops, |ops|, limit).value;
    OnlyPrologue(run.blocks, Brk(run.blocks));
    NothingLive(run.blocks, Brk(run.blocks));
  }

  lemma {:induction false} OnlyPrologue(bs: seq<Block>, brk: nat)
    requires WellFormed(bs, brk)
    requires forall b :: b in bs && b.alloc ==> b == PROLOGUE
    ensures Live(bs) == [PROLOGUE]
  {
    TilesOrder(bs, PROLOGUE.ptr, brk);
    assert forall i :: 1 <= i < |bs| ==> bs[i] in bs && bs[i].ptr > bs[0].ptr;
    NoneLive(bs[1..]);
  }

  /** The payloads of two live ids are 8-aligned, inside the heap, and apart. */
  lemma {:induction false} PayloadsApart(run: Run, i: nat, j: nat, limit: nat)
    requires RunValid(run, limit) && i in run.ids && j in run.ids
    ensures run.ids[i] in run.req && run.ids[j] in run.req
    ensures var p, q := run.ids[i], run.ids[j];
            && p % 8 == 0 && INITIAL <= p && p + run.req[p] + 8 <= Brk(run.blocks)
            && (i != j ==> p + run.req[p] <= q || q + run.req[q] <= p)
  {
    var bs, p, q := run.blocks, run.ids[i], run.ids[j];
    assert IsLive(bs, p) && IsLive(bs, q);
    var b :| b in bs && b.alloc && b.ptr == p;
    var c :| c in bs && c.alloc && c.ptr == q;
    TilesBounds(bs, PROLOGUE.ptr, Brk(bs));
    TilesDisjoint(bs, PROLOGUE.ptr, Brk(bs), b, c);
    TilesDisjoint(bs, PROLOGUE.ptr, Brk(bs), b, PROLOGUE);
  }

  // ---------- heap limits ----------

  /** Bytes by which the requests could grow the heap if each needed an extension. */
  function Demand(ops: seq<Op>, n: nat): nat
    requires n <= |ops|
  {
    if n == 0 then INITIAL + CHUNKSIZE
    else Demand(ops, n - 1) + if ops[n - 1].Free? then 0 else Growth(AdjustedSize(ops[n - 1].size))
  }

  lemma {:induction false} DemandMonotone(ops: seq<Op>, k: nat, n: nat)
    requires k <= n <= |ops|
    ensures Demand(ops, k) <= Demand(ops, n)
    decreases n
  {
    hide Growth, AdjustedSize;
    if k < n {
      DemandMonotone(ops, k, n - 1);
    }
  }

  lemma {:induction false} StepEnough(run: Run, op: Op, numIds: nat, limit: nat)
    requires RunValid(run, limit) && ValidOp(op, run.ids.Keys, numIds) && limit < TWO_31
    requires run.blocks != [] && (op.Free? || Brk(run.blocks) + Growth(AdjustedSize(op.size)) <= limit)
    ensures var next := Step(run, op, limit);
            && next.Some? && next.value.blocks != []
            && Brk(next.value.blocks) <= Brk(run.blocks) + if op.Free? then 0 else Growth(AdjustedSize(op.size))
  {
    hide Tiles, Coalesced, Owned, Merge, Release, Malloc, Growth, AdjustedSize, Allocator.Free;
    match op
    case Free(i) => FreeValid(run, i, limit);
    case Alloc(i, size) => MallocEnough(run.blocks, size, limit);
    case Realloc(i, size) =>
      OwnedLive(run.blocks, run.req, run.ids[i], run.ids, i);
      MallocEnough(run.blocks, size, limit);
      var b := MallocServes(run.blocks, size, limit);
      var r := Malloc(run.blocks, size, limit);
      FreeFacts(r.blocks, Brk(r.blocks), run.ids[i]);
      BrkOf(Allocator.Free(r.blocks, run.ids[i]), Brk(r.blocks));
  }

  /** A limit that can be computed from the sizes in the trace is large enough to serve all of it. */
  lemma {:induction false} EnoughHeap(ops: seq<Op>, n: nat, numIds: nat, limit: nat)
    requires WellFormedTrace(ops, numIds) && n <= |ops| && Demand(ops, n) <= limit < TWO_31
    ensures var r := Replay(ops, n, limit);
            r.Some? && r.value.blocks != [] && Brk(r.value.blocks) <= Demand(ops, n)
  {
    hide RunValid, Step, Growth, AdjustedSize;
    if n == 0 {
      InitForm(limit);
    } else {
      DemandMonotone(ops, n - 1, n);
      EnoughHeap(ops, n - 1, numIds, limit);
      ReplayValid(ops, n - 1, numIds, limit);
      assert ValidOp(ops[n - 1], LiveIds(ops, n - 1), numIds);
      StepEnough(Replay(ops, n - 1, limit).value, ops[n - 1], numIds, limit);
    }
  }

  /** With a larger limit, a trace that is served is served in the same way. */
  lemma {:induction false} MoreHeap(ops: seq<Op>, n: nat, limit: nat, limit': nat)
    requires n <= |ops| && limit <= limit' && Replay(ops, n, limit).Some?
    ensures Replay(ops, n, limit') == Replay(ops, n, limit)
  {
    hide Malloc, Allocator.Free;
    if n == 0 {
      InitForm(limit);
      InitForm(limit');
    } else {
      MoreHeap(ops, n - 1, limit, limit');
      var run, op := Replay(ops, n - 1, limit).value, ops[n - 1];
      if !op.Free? {
        StepMalloc(run, op, limit);
        MallocMoreHeap(run.blocks, op.size, limit, limit');
      }
    }
  }

  /** A request that is served has found room. */
  lemma {:induction false} StepMalloc(run: Run, op: Op, limit: nat)
    requires run.blocks != [] && !op.Free? && Step(run, op, limit).Some?
    ensures Malloc(run.blocks, op.size, limit).ptr.Some?
  {
    hide Malloc, Allocator.Free;
  }

  // ---------- space ----------

  /** Bytes requested for the blocks of a list. */
  function Requested(bs: seq<Block>, req: map<nat, nat>): nat {
    if bs == [] then 0
    else (if bs[0].ptr in req then req[bs[0].ptr] else 0) + Requested(bs[1..], req)
  }

  /** The sum of the sizes requested for the payloads that are live. */
  function TotalSize(run: Run): nat {
    Requested(Live(run.blocks), run.req)
  }

  predicate Distinct(bs: seq<Block>) {
    bs == [] || ((forall b :: b in bs[1..] ==> b.ptr != bs[0].ptr) && Distinct(bs[1..]))
  }

  lemma {:induction false} LiveDistinct(bs: seq<Block>, lo: nat, hi: nat)
    requires Tiles(bs, lo, hi)
    ensures Distinct(Live(bs))
  {
    if bs != [] {
      LiveDistinct(bs[1..], lo + bs[0].size, hi);
      LiveMembers(bs[1..]);
      TilesBounds(bs[1..], lo + bs[0].size, hi);
      if bs[0].alloc {
        assert Live(bs)[1..] == Live(bs[1..]);
      }
    }
  }

  lemma {:induction false} RequestedSame(bs: seq<Block>, req: map<nat, nat>, req': map<nat, nat>)
    requires forall b :: b in bs ==> (b.ptr in req <==> b.ptr in req') && (b.ptr in req ==> req[b.ptr] == req'[b.ptr])
    ensures Requested(bs, req) == Requested(bs, req')
  {
    if bs != [] {
      RequestedSame(bs[1..], req, req');
    }
  }

  /** Taking one block out of a list takes its request out of the sum. */
  lemma {:induction false} RequestedWithout(bs: seq<Block>, req: map<nat, nat>, b: Block)
    requires Distinct(bs) && b in bs && b.ptr in req
    ensures var rest := Without(bs, {b.ptr});
            Requested(bs, req) == req[b.ptr] + Requested(rest, req - {b.ptr}) && |bs| == |rest| + 1
  {
    if bs[0] == b {
      WithoutAbsent(bs[1..], {b.ptr});
      RequestedSame(bs[1..], req, req - {b.ptr});
    } else {
      RequestedWithout(bs[1..], req, b);
      assert bs[0].ptr != b.ptr;
      assert Without(bs, {b.ptr})[1..] == Without(bs[1..], {b.ptr});
    }
  }

  lemma {:induction false} GainTotal(bs: seq<Block>, cs: seq<Block>, brk: nat, req: map<nat, nat>, b: Block, size: nat)
    requires Gains(bs, cs, b) && b.alloc && WellFormed(cs, brk) && b.ptr !in req
    ensures Requested(Live(cs), req[b.ptr := size]) == size + Requested(Live(bs), req)
    ensures |Live(cs)| == |Live(bs)| + 1
  {
    LiveDistinct(cs, PROLOGUE.ptr, brk);
    LiveMembers(cs);
    RequestedWithout(Live(cs), req[b.ptr := size], b);
    assert req[b.ptr := size] - {b.ptr} == req;
  }

  lemma {:induction false} DropTotal(bs: seq<Block>, brk: nat, req: map<nat, nat>, p: nat)
    requires WellFormed(bs, brk) && IsLive(bs, p) && p in req
    ensures var cs := Allocator.Free(bs, p);
            && Requested(Live(bs), req) == req[p] + Requested(Live(cs), req - {p})
            && |Live(bs)| == |Live(cs)| + 1
  {
    var b :| b in bs && b.alloc && b.ptr == p;
    LiveDistinct(bs, PROLOGUE.ptr, brk);
    LiveMembers(bs);
    FreeFacts(bs, brk, p);
    RequestedWithout(Live(bs), req, b);
  }

  lemma {:induction false} AllocTotal(run: Run, i: nat, size: nat, limit: nat)
    requires RunValid(run, limit) && i !in run.ids && 0 < size < TWO_31
    ensures var next := Step(run, Alloc(i, size), limit);
            next.Some? ==>
              && TotalSize(next.value) == TotalSize(run) + size
              && |Live(next.value.blocks)| == |Live(run.blocks)| + 1
  {
    hide Tiles, Coalesced, Owned, Named, Gains, Malloc, Live, Requested;
    var r := Malloc(run.blocks, size, limit);
    var b := MallocServes(run.blocks, size, limit);
    if r.ptr.Some? {
      OwnedGain(run.blocks, r.blocks, run.req, b, size);
      GainTotal(run.blocks, r.blocks, Brk(r.blocks), run.req, b, size);
    }
  }

  lemma {:induction false} FreeTotal(run: Run, i: nat, limit: nat)
    requires RunValid(run, limit) && i in run.ids
    ensures run.ids[i] in run.req
    ensures var next := Step(run, Free(i), limit);
            && next.Some?
            && TotalSize(run) == TotalSize(next.value) + run.req[run.ids[i]]
            && |Live(run.blocks)| == |Live(next.value.blocks)| + 1
  {
    hide Tiles, Coalesced, Owned, Live, Requested, Allocator.Free;
    OwnedLive(run.blocks, run.req, run.ids[i], run.ids, i);
    DropTotal(run.blocks, Brk(run.blocks), run.req, run.ids[i]);
  }

  lemma {:induction false} ReallocTotal(run: Run, i: nat, size: nat, limit: nat)
    requires RunValid(run, limit) && i in run.ids && 0 < size < TWO_31
    ensures run.ids[i] in run.req
    ensures var next := Step(run, Realloc(i, size), limit);
            next.Some? ==>
              && TotalSize(next.value) + run.req[run.ids[i]] == TotalSize(run) + size
              && |Live(next.value.blocks)| == |Live(run.blocks)|
  {
    hide Tiles, Coalesced, Owned, Named, Gains, Malloc, Live, Requested, Allocator.Free;
    var bs, p := run.blocks, run.ids[i];
    var r := Malloc(bs, size, limit);
    var b := MallocServes(bs, size, limit);
    OwnedLive(bs, run.req, p, run.ids, i);
    if r.ptr.Some? {
      OwnedGain(bs, r.blocks, run.req, b, size);
      GainTotal(bs, r.blocks, Brk(r.blocks), run.req, b, size);
      StillLive(bs, r.blocks, b, p);
      DropTotal(r.blocks, Brk(r.blocks), run.req[b.ptr := size], p);
    }
  }

  lemma {:induction false} StillLive(bs: seq<Block>, cs: seq<Block>, b: Block, p: nat)
    requires Gains(bs, cs, b) && IsLive(bs, p)
    ensures IsLive(cs, p) && p != b.ptr
  {
  }

  /** Request n of a trace, in the state that the requests before it have led to, gets the answer that heap,
      size and limit determine; the first one that gets NULL ends the run. */
  lemma {:induction false} ReplayAnswer(ops: seq<Op>, n: nat, numIds: nat, limit: nat) returns (c: Block, brk: nat)
    requires WellFormedTrace(ops, numIds) && n < |ops| && limit < TWO_31 && Replay(ops, n, limit).Some?
    ensures var run, next, op := Replay(ops, n, limit).value, Replay(ops, n + 1, limit), ops[n];
            && run.blocks != [] && (op.Free? || op.Realloc? ==> op.index in run.ids)
            && (op.Free? ==>
                  && next.Some? && next.value.ids == run.ids - {op.index}
                  && forall d :: d in next.value.blocks && d.alloc <==> d in run.blocks && d.alloc && d.ptr != run.ids[op.index])
            && (!op.Free? ==>
                  var asize := AdjustedSize(op.size);
                  if next.None? then !HasRoom(run.blocks, asize) && Brk(run.blocks) + Growth(asize) > limit
                  else
                    && next.value.ids == run.ids[op.index := c.ptr]
                    && Answer(run.blocks, asize, Growth(asize), limit, if op.Alloc? then {} else {run.ids[op.index]},
                              Reply(next.value.blocks, Some(c.ptr)), c, brk))
  {
    hide RunValid, Answer, AdjustedSize, Growth, HasRoom, Brk, WellFormedTrace, Malloc, Allocator.Free;
    var run, op := Replay(ops, n, limit).value, ops[n];
    ReplayValid(ops, n, numIds, limit);
    OpValid(ops, n, numIds);
    c, brk := StepAnswer(run, op, numIds, limit);
  }

  /** By how much a request changes the number of live ids. */
  function Change(op: Op): int {
    match op
    case Alloc(_, _) => 1
    case Realloc(_, _) => 0
    case Free(_) => -1
  }

  lemma {:induction false} LiveIdsCount(ops: seq<Op>, n: nat, numIds: nat)
    requires n < |ops| && ValidOp(ops[n], LiveIds(ops, n), numIds)
    ensures |LiveIds(ops, n + 1)| == |LiveIds(ops, n)| + Change(ops[n])
  {
  }

  lemma {:induction false} LiveStep(run: Run, op: Op, numIds: nat, limit: nat)
    requires RunValid(run, limit) && ValidOp(op, run.ids.Keys, numIds)
    ensures run.blocks != []
    ensures var next := Step(run, op, limit);
            next.Some? ==>
              |Live(next.value.blocks)| == |Live(run.blocks)| + Change(op)
  {
    NonEmpty(run, limit);
    hide RunValid, Step, Live, TotalSize;
    match op
    case Alloc(i, size) => AllocTotal(run, i, size, limit);
    case Realloc(i, size) => ReallocTotal(run, i, size, limit);
    case Free(i) => FreeTotal(run, i, limit);
  }

  lemma {:induction false} OpValid(ops: seq<Op>, n: nat, numIds: nat)
    requires WellFormedTrace(ops, numIds) && n < |ops|
    ensures ValidOp(ops[n], LiveIds(ops, n), numIds)
  {
    hide ValidOp, LiveIds;
  }

  lemma {:induction false} NoLiveIds(ops: seq<Op>)
    ensures LiveIds(ops, 0) == {} && |LiveIds(ops, 0)| == 0
  {
  }

  lemma {:induction false} ReplayStart(ops: seq<Op>, limit: nat)
    requires Replay(ops, 0, limit).Some?
    ensures Init(limit).Some? && Replay(ops, 0, limit).value == Run(Init(limit).value, map[], map[])
  {
    hide Init;
  }

  lemma {:induction false} ReplayStep(ops: seq<Op>, n: nat, limit: nat)
    requires 0 < n <= |ops| && Replay(ops, n, limit).Some?
    ensures var r := Replay(ops, n - 1, limit);
            r.Some? && r.value.blocks != [] && Replay(ops, n, limit) == Step(r.value, ops[n - 1], limit)
  {
    hide Step, Init;
  }

  /** At every point of a trace there is one live block per live id, besides the prologue. */
  lemma {:induction false} LiveCount(ops: seq<Op>, n: nat, numIds: nat, limit: nat)
    requires WellFormedTrace(ops, numIds) && n <= |ops| && Replay(ops, n, limit).Some?
    ensures |Live(Replay(ops, n, limit).value.blocks)| == |LiveIds(ops, n)| + 1
  {
    hide RunValid, Step, Live, ValidOp, WellFormedTrace, Replay;
    if n == 0 {
      ReplayStart(ops, limit);
      StartLive(limit);
      NoLiveIds(ops);
    } else {
      ReplayStep(ops, n, limit);
      var run, op := Replay(ops, n - 1, limit).value, ops[n - 1];
      LiveCount(ops, n - 1, numIds, limit);
      ReplayValid(ops, n - 1, numIds, limit);
      OpValid(ops, n - 1, numIds);
      LiveIdsCount(ops, n - 1, numIds);
      LiveStep(run, op, numIds, limit);
      hide LiveIds, Change;
    }
  }

  lemma {:induction false} StartLive(limit: nat)
    requires Init(limit).Some?
    ensures var run := Run(Init(limit).value, map[], map[]);
            Live(run.blocks) == [PROLOGUE] && TotalSize(run) == 0
  {
    StartValid(limit);
    var run := Run(Init(limit).value, map[], map[]);
    var f := Block(INITIAL, CHUNKSIZE, false);
    assert [PROLOGUE, f] == [PROLOGUE] + [f] + [];
    TilesOne(PROLOGUE);
    TilesOne(f);
    LiveConcat3([PROLOGUE], [f], []);
    assert [PROLOGUE][1..] == [] && Requested([PROLOGUE][1..], run.req) == 0;
  }

  lemma {:induction false} RequestedFits(bs: seq<Block>, req: map<nat, nat>)
    requires forall b :: b in bs && b.alloc ==> b.ptr in req && req[b.ptr] + 8 <= b.size
    ensures Requested(Live(bs), req) + 8 * |Live(bs)| <= Bytes(bs)
  {
    if bs != [] {
      RequestedFits(bs[1..], req);
      if bs[0].alloc {
        assert bs[0] in bs;
        assert Live(bs)[1..] == Live(bs[1..]);
      }
    }
  }

  /** What has been requested, 8 bytes of tags for each live block, and the 16 bytes of mm_init fit
      into the heap. */
  lemma {:induction false} SpaceBound(run: Run, limit: nat)
    requires RunValid(run, limit)
    ensures |Live(run.blocks)| >= 1
    ensures TotalSize(run) + 8 * (|Live(run.blocks)| - 1) + INITIAL <= Brk(run.blocks)
  {
    var bs := run.blocks;
    var rest := bs[1..];
    TilesBytes(bs, PROLOGUE.ptr, Brk(bs));
    TilesOrder(bs, PROLOGUE.ptr, Brk(bs));
    TilesBounds(bs, PROLOGUE.ptr, Brk(bs));
    forall b | b in rest && b.alloc
      ensures b.ptr in run.req && run.req[b.ptr] + 8 <= b.size
    {
      var i :| 0 <= i < |rest| && rest[i] == b;
      assert bs[i + 1] == b && b in bs && bs[0].ptr + bs[0].size <= b.ptr;
    }
    RequestedFits(rest, run.req);
    assert PROLOGUE.ptr !in run.req;
    assert Live(bs) == [PROLOGUE] + Live(rest) && ([PROLOGUE] + Live(rest))[1..] == Live(rest);
  }

  /** TotalSize after k requests, and the end of the heap after n of them. */
  lemma {:induction false} SpaceBoundLater(ops: seq<Op>, k: nat, n: nat, numIds: nat, limit: nat)
    requires WellFormedTrace(ops, numIds) && k <= n <= |ops| && Replay(ops, n, limit).Some?
    ensures Replay(ops, k, limit).Some? && Replay(ops, n, limit).value.blocks != []
    ensures TotalSize(Replay(ops, k, limit).value) + 8 * |LiveIds(ops, k)| + INITIAL
            <= Brk(Replay(ops, n, limit).value.blocks)
  {
    hide Replay, Step, RunValid, TotalSize, Live;
    HeapConserved(ops, k, n, numIds, limit);
    ReplayValid(ops, k, numIds, limit);
    LiveCount(ops, k, numIds, limit);
    SpaceBound(Replay(ops, k, limit).value, limit);
  }

  /** TotalSize after n requests. */
  function SizeAt(ops: seq<Op>, n: nat, limit: nat): nat
    requires n <= |ops|
  {
    var r := Replay(ops, n, limit);
    if r.None? then 0 else TotalSize(r.value)
  }

  /** peak is the largest TotalSize at any point up to n. */
  ghost predicate IsPeak(ops: seq<Op>, n: nat, limit: nat, peak: nat)
    requires n <= |ops|
  {
    && (forall k :: 0 <= k <= n ==> SizeAt(ops, k, limit) <= peak)
    && (exists k :: 0 <= k <= n && SizeAt(ops, k, limit) == peak)
  }

  /** util is the peak over the size of the heap in the end. */
  ghost predicate IsUtil(ops: seq<Op>, limit: nat, util: Option<real>) {
    var end := Replay(ops, |ops|, limit);
    && end.Some? && end.value.blocks != [] && Brk(end.value.blocks) > 0
    && exists peak :: IsPeak(ops, |ops|, limit, peak) && util == Some(peak as real / Brk(end.value.blocks) as real)
  }

  lemma {:induction false} PeakStep(ops: seq<Op>, n: nat, limit: nat, peak: nat, peak': nat)
    requires n < |ops| && IsPeak(ops, n, limit, peak)
    requires var size := SizeAt(ops, n + 1, limit); peak' == if size > peak then size else peak
    ensures IsPeak(ops, n + 1, limit, peak')
  {
    hide SizeAt;
    if peak' != peak {
      assert SizeAt(ops, n + 1, limit) == peak';
    }
  }

  /** The peak, with the tags and the 16 bytes of mm_init, fits into the final heap. */
  lemma {:induction false} PeakBound(ops: seq<Op>, numIds: nat, limit: nat, peak: nat)
    requires WellFormedTrace(ops, numIds) && Replay(ops, |ops|, limit).Some? && IsPeak(ops, |ops|, limit, peak)
    ensures Replay(ops, |ops|, limit).value.blocks != []
    ensures peak + INITIAL <= Brk(Replay(ops, |ops|, limit).value.blocks)
  {
    var k :| 0 <= k <= |ops| && SizeAt(ops, k, limit) == peak;
    SpaceBoundLater(ops, k, |ops|, numIds, limit);
  }

  // ---------- pointers ----------

  /** What a request that leads to `next` leaves in trace->blocks. */
  function PointersAfter(ps: seq<nat>, op: Op, next: Option<Run>): (qs: seq<nat>)
    ensures |qs| == |ps|
  {
    if op.Free? || next.None? || op.index !in next.value.ids || op.index >= |ps| then ps
    else ps[op.index := next.value.ids[op.index]]
  }

  /** The array trace->blocks after n requests, when it was `start` before. */
  function Pointers(ops: seq<Op>, n: nat, limit: nat, start: seq<nat>): (ps: seq<nat>)
    requires n <= |ops|
    ensures |ps| == |start|
  {
    if n == 0 then start
    else PointersAfter(Pointers(ops, n - 1, limit, start), ops[n - 1], Replay(ops, n, limit))
  }

  lemma {:induction false} PointersStart(ops: seq<Op>, limit: nat, start: seq<nat>)
    ensures Pointers(ops, 0, limit, start) == start
  {
  }

  lemma {:induction false} PointersStep(ops: seq<Op>, n: nat, limit: nat, start: seq<nat>)
    requires n < |ops|
    ensures Pointers(ops, n + 1, limit, start)
            == PointersAfter(Pointers(ops, n, limit, start), ops[n], Replay(ops, n + 1, limit))
  {
  }

  /** For an id that the trace has allocated, the pointer does not depend on what the array held before. */
  lemma {:induction false} PointersAgree(ops: seq<Op>, n: nat, k: nat, numIds: nat, limit: nat, s: seq<nat>, t: seq<nat>)
    requires WellFormedTrace(ops, numIds) && k < n <= |ops| && Replay(ops, n, limit).Some?
    requires ops[k].Alloc? && |s| == |t| == numIds
    ensures ops[k].index < numIds
    ensures Pointers(ops, n, limit, s)[ops[k].index] == Pointers(ops, n, limit, t)[ops[k].index]
    decreases n
  {
    hide RunValid, Step;
    assert ValidOp(ops[k], LiveIds(ops, k), numIds);
    if n == k + 1 {
      ReplayValid(ops, n, numIds, limit);
      assert ops[k].index in LiveIds(ops, n);
    } else {
      PointersAgree(ops, n - 1, k, numIds, limit, s, t);
    }
  }

  /** What the array holds in the end: for id i, the address that the last alloc or realloc of i returned
      (request k), whether or not it has been freed since. */
  lemma {:induction false} PointerIs(ops: seq<Op>, k: nat, n: nat, i: nat, numIds: nat, limit: nat, start: seq<nat>)
    requires WellFormedTrace(ops, numIds) && k < n <= |ops| && Replay(ops, n, limit).Some? && |start| == numIds
    requires !ops[k].Free? && ops[k].index == i && forall j :: k < j < n && ops[j].index == i ==> ops[j].Free?
    ensures var run := Replay(ops, k + 1, limit);
            && i < numIds && run.Some? && i in run.value.ids
            && Pointers(ops, n, limit, start)[i] == run.value.ids[i]
    decreases n
  {
    hide RunValid, Step;
    if n == k + 1 {
      ReplayValid(ops, k, numIds, limit);
      ReplayValid(ops, n, numIds, limit);
      OpValid(ops, k, numIds);
      LiveBelow(ops, k, numIds);
    } else {
      PointerIs(ops, k, n - 1, i, numIds, limit, start);
    }
  }

  lemma {:induction false} LiveBelow(ops: seq<Op>, n: nat, numIds: nat)
    requires WellFormedTrace(ops, numIds) && n <= |ops|
    ensures forall i :: i in LiveIds(ops, n) ==> i < numIds
  {
    if n > 0 {
      OpValid(ops, n - 1, numIds);
      LiveBelow(ops, n - 1, numIds);
    }
  }

  /** An id that is never allocated or reallocated keeps its entry. */
  lemma {:induction false} PointerKept(ops: seq<Op>, n: nat, i: nat, limit: nat, start: seq<nat>)
    requires n <= |ops| && i < |start| && forall j :: 0 <= j < n && ops[j].index == i ==> ops[j].Free?
    ensures Pointers(ops, n, limit, start)[i] == start[i]
  {
    hide Replay;
    if n > 0 {
      PointerKept(ops, n - 1, i, limit, start);
    }
  }

  /** The two arrays agree on every id that the trace allocates. */
  ghost predicate SamePointers(ops: seq<Op>, ps: seq<nat>, qs: seq<nat>) {
    forall k :: 0 <= k < |ops| && ops[k].Alloc? ==>
      ops[k].index < |ps| && ops[k].index < |qs| && ps[ops[k].index] == qs[ops[k].index]
  }

  lemma {:induction false} PointersSame(ops: seq<Op>, numIds: nat, limit: nat, s: seq<nat>, t: seq<nat>)
    requires WellFormedTrace(ops, numIds) && Replay(ops, |ops|, limit).Some? && |s| == |t| == numIds
    ensures SamePointers(ops, Pointers(ops, |ops|, limit, s), Pointers(ops, |ops|, limit, t))
  {
    forall k | 0 <= k < |ops| && ops[k].Alloc?
      ensures ops[k].index < numIds
      ensures Pointers(ops, |ops|, limit, s)[ops[k].index] == Pointers(ops, |ops|, limit, t)[ops[k].index]
    {
      PointersAgree(ops, |ops|, k, numIds, limit, s, t);
    }
  }
}
