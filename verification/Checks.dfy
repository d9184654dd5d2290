/** What eval_mm_valid has on record while it runs a trace, and why its checks pass. */
module Checks {
  import opened Blocks
  import opened Words
  import opened Wrappers
  import opened Allocator
  import opened Tags
  import opened Traces
  import opened Ranges

  /** The range list has exactly one entry for each live payload, with its requested extent. */
  ghost predicate Recorded(rs: seq<Range>, req: map<nat, nat>) {
    && (forall r :: r in rs ==> r.lo in req && r.hi + 1 == r.lo + req[r.lo])
    && (forall p :: p in req ==> exists r :: r in rs && r.lo == p)
    && (forall a, b :: 0 <= a < b < |rs| ==> rs[a].lo != rs[b].lo)
  }

  /** trace->blocks and trace->block_sizes hold address and size of every live id. */
  ghost predicate Tabled(ptrs: seq<nat>, sizes: seq<nat>, run: Run) {
    |ptrs| == |sizes| &&
    forall i :: i in run.ids ==>
      i < |ptrs| && run.ids[i] in run.req && ptrs[i] == run.ids[i] && sizes[i] == run.req[run.ids[i]]
  }

  /** trace->blocks holds the address of every live id. */
  ghost predicate Located(ptrs: seq<nat>, run: Run) {
    forall i :: i in run.ids ==> i < |ptrs| && ptrs[i] == run.ids[i]
  }

  ghost predicate Filled(m: seq<byte>, p: nat, n: nat, v: int) {
    p + n <= |m| && forall k :: p <= k < p + n ==> m[k] == v
  }

  /** Every live payload is filled with the low byte of its id. */
  ghost predicate Contents(m: seq<byte>, run: Run) {
    forall i :: i in run.ids ==> run.ids[i] in run.req && Filled(m, run.ids[i], run.req[run.ids[i]], i % 256)
  }

  /** The int that a stored byte is promoted to: char is signed on the target. */
  function CharValue(b: byte): (c: int)
    ensures -128 <= c < 128 && (c - b) % 256 == 0
  {
    if b < 128 then b else b - 256
  }

  lemma {:induction false} TabledAt(ptrs: seq<nat>, sizes: seq<nat>, run: Run, i: nat)
    requires Tabled(ptrs, sizes, run) && i in run.ids
    ensures i < |ptrs| == |sizes| && run.ids[i] in run.req
    ensures ptrs[i] == run.ids[i] && sizes[i] == run.req[run.ids[i]]
  {
  }

  // ---------- range list ----------

  lemma {:induction false} RecordedGain(rs: seq<Range>, req: map<nat, nat>, p: nat, size: nat)
    requires Recorded(rs, req) && p !in req && size > 0
    ensures Recorded([Range(p, p + size - 1)] + rs, req[p := size])
  {
    var r := Range(p, p + size - 1);
    var rs', req' := [r] + rs, req[p := size];
    forall q | q in req'
      ensures exists s :: s in rs' && s.lo == q
    {
      if q == p {
        assert r in rs';
      } else {
        var s :| s in rs && s.lo == q;
        assert s in rs';
      }
    }
    forall a, b | 0 <= a < b < |rs'|
      ensures rs'[a].lo != rs'[b].lo
    {
      assert rs'[b] == rs[b - 1] && rs[b - 1] in rs;
      if a > 0 {
        assert rs'[a] == rs[a - 1];
      }
    }
  }

  lemma {:induction false} RecordedDrop(rs: seq<Range>, req: map<nat, nat>, p: nat)
    requires Recorded(rs, req) && p in req
    ensures Recorded(RemoveFirst(rs, p), req - {p})
  {
    var r :| r in rs && r.lo == p;
    var k :| 0 <= k < |rs| && rs[k] == r;
    RemoveFirstAt(rs, p, k);
    DropOne(rs, k);
    RecordedRest(rs, rs[..k] + rs[k + 1..], req, p);
  }

  lemma {:induction false} RecordedRest(rs: seq<Range>, rs': seq<Range>, req: map<nat, nat>, p: nat)
    requires Recorded(rs, req) && forall s :: s in rs' <==> s in rs && s.lo != p
    requires forall a, b :: 0 <= a < b < |rs'| ==> rs'[a].lo != rs'[b].lo
    ensures Recorded(rs', req - {p})
  {
    forall q | q in req - {p}
      ensures exists s :: s in rs' && s.lo == q
    {
      var s :| s in rs && s.lo == q;
      assert s in rs';
    }
  }

  lemma {:induction false} DropOne(rs: seq<Range>, k: nat)
    requires k < |rs| && forall a, b :: 0 <= a < b < |rs| ==> rs[a].lo != rs[b].lo
    ensures var rs' := rs[..k] + rs[k + 1..];
            && (forall a, b :: 0 <= a < b < |rs'| ==> rs'[a].lo != rs'[b].lo)
            && (forall s :: s in rs' <==> s in rs && s.lo != rs[k].lo)
  {
    var x, y := rs[..k], rs[k + 1..];
    var rs' := x + y;
    assert rs == x + [rs[k]] + y;
    assert forall s :: s in x ==> s.lo != rs[k].lo;
    assert forall s :: s in y ==> s.lo != rs[k].lo;
    forall a, b | 0 <= a < b < |rs'|
      ensures rs'[a].lo != rs'[b].lo
    {
      assert rs'[a] == rs[if a < k then a else a + 1] && rs'[b] == rs[if b < k then b else b + 1];
    }
  }

  /** The payload of id i passes the checks of add_range against the entries for the other ids. */
  lemma {:induction false} PassesChecks(run: Run, i: nat, rs: seq<Range>, req: map<nat, nat>, limit: nat)
    requires RunValid(run, limit) && i in run.ids && run.ids[i] in run.req
    requires var p := run.ids[i];
             0 < run.req[p] && p !in req && run.req == req[p := run.req[p]] && Recorded(rs, req)
    ensures var p, size := run.ids[i], run.req[run.ids[i]];
            && p % ALIGNMENT == 0 && p + size <= Brk(run.blocks)
            && forall r :: r in rs ==> !Hit(p, p + size - 1, r)
  {
    var p, size := run.ids[i], run.req[run.ids[i]];
    PayloadsApart(run, i, i, limit);
    forall r | r in rs
      ensures !Hit(p, p + size - 1, r)
    {
      assert r.lo in req && r.lo != p && r.lo in run.req;
      var j :| j in run.ids && run.ids[j] == r.lo;
      PayloadsApart(run, i, j, limit);
      assert run.req[r.lo] == req[r.lo];
    }
  }

  /** The range list stays pairwise disjoint. */
  lemma {:induction false} RangesApart(run: Run, rs: seq<Range>, a: nat, b: nat, limit: nat)
    requires RunValid(run, limit) && Recorded(rs, run.req) && a < b < |rs|
    ensures rs[a].hi < rs[b].lo || rs[b].hi < rs[a].lo
  {
    assert rs[a] in rs && rs[b] in rs;
    var i :| i in run.ids && run.ids[i] == rs[a].lo;
    var j :| j in run.ids && run.ids[j] == rs[b].lo;
    PayloadsApart(run, i, j, limit);
  }

  // ---------- payload bytes ----------

  lemma {:induction false} FilledKept(m: seq<byte>, m': seq<byte>, b: Block, n: nat, v: int)
    requires SamePayload(m, m', b) && Filled(m, b.ptr, n, v) && n + 8 <= b.size
    ensures Filled(m', b.ptr, n, v)
  {
  }

  /** The block of a live id. */
  lemma {:induction false} BlockOf(run: Run, i: nat, limit: nat) returns (b: Block)
    requires RunValid(run, limit) && i in run.ids
    ensures b in run.blocks && b.alloc && b.ptr == run.ids[i] && b != PROLOGUE
    ensures b.ptr in run.req && 0 < run.req[b.ptr] <= b.size - 8
  {
    assert IsLive(run.blocks, run.ids[i]);
    b :| b in run.blocks && b.alloc && b.ptr == run.ids[i];
  }

  /** Live payloads that are kept keep their contents. */
  lemma {:induction false} ContentsKept(m: seq<byte>, m': seq<byte>, run: Run, keep: set<nat>, limit: nat)
    requires RunValid(run, limit) && Contents(m, run) && keep <= run.ids.Keys
    requires forall i, b :: i in keep && b in run.blocks && b.alloc && b.ptr == run.ids[i] ==> SamePayload(m, m', b)
    ensures forall i :: i in keep ==>
              run.ids[i] in run.req && Filled(m', run.ids[i], run.req[run.ids[i]], i % 256)
  {
    forall i | i in keep
      ensures run.ids[i] in run.req && Filled(m', run.ids[i], run.req[run.ids[i]], i % 256)
    {
      var b := BlockOf(run, i, limit);
      assert i in run.ids;
      FilledKept(m, m', b, run.req[b.ptr], i % 256);
    }
  }

  // ---------- one request ----------

  /** What a successful ALLOC request does to the run, with the new block c. */
  ghost predicate Grown(run: Run, next: Run, i: nat, size: nat, c: Block) {
    && i !in run.ids && c.ptr !in run.req && size + 8 <= c.size && 0 < size && c.alloc
    && next.ids == run.ids[i := c.ptr] && next.req == run.req[c.ptr := size]
    && Gains(run.blocks, next.blocks, c)
  }

  lemma {:induction false} AllocStep(run: Run, i: nat, size: nat, limit: nat) returns (c: Block)
    requires RunValid(run, limit) && i !in run.ids && 0 < size < TWO_31
    ensures run.blocks != []
    ensures var next, r := Step(run, Alloc(i, size), limit), Malloc(run.blocks, size, limit);
            && (next.None? <==> r.ptr.None?)
            && (next.Some? ==>
                  && Grown(run, next.value, i, size, c) && RunValid(next.value, limit)
                  && next.value.blocks == r.blocks && r.ptr == Some(c.ptr))
  {
    hide Tiles, Coalesced, Owned, Named, Gains, Malloc;
    c := MallocServes(run.blocks, size, limit);
    AllocValid(run, i, size, limit);
    if Malloc(run.blocks, size, limit).ptr.Some? {
      OwnedGain(run.blocks, Malloc(run.blocks, size, limit).blocks, run.req, c, size);
    }
  }

  lemma {:induction false} AllocContents(m: seq<byte>, m': seq<byte>, m'': seq<byte>, run: Run, next: Run,
                                         i: nat, size: nat, c: Block, brk: nat, limit: nat)
    requires RunValid(run, limit) && Grown(run, next, i, size, c)
    requires Contents(m, run) && Kept(m, m', run.blocks)
    requires Image(m', next.blocks, brk) && SameOutside(m', m'', c.ptr, c.ptr + size)
    requires Filled(m'', c.ptr, size, i % 256)
    ensures Image(m'', next.blocks, brk) && Contents(m'', next)
  {
    hide RunValid, Image, SamePayload, Filled, SameOutside;
    ContentsKept(m, m', run, run.ids.Keys, limit);
    assert Contents(m', run);
    PayloadWrite(m', m'', next.blocks, brk, c, c.ptr, c.ptr + size);
    ContentsKept(m', m'', run, run.ids.Keys, limit);
    ContentsGain(m'', run, next, i, size, c);
  }

  lemma {:induction false} ContentsGain(m: seq<byte>, run: Run, next: Run, i: nat, size: nat, c: Block)
    requires Contents(m, run) && c.ptr !in run.req && Filled(m, c.ptr, size, i % 256)
    requires next.ids == run.ids[i := c.ptr] && next.req == run.req[c.ptr := size]
    ensures Contents(m, next)
  {
    hide Filled;
  }

  lemma {:induction false} AllocTabled(ptrs: seq<nat>, sizes: seq<nat>, run: Run, next: Run, i: nat, size: nat, c: Block)
    requires Tabled(ptrs, sizes, run) && Grown(run, next, i, size, c) && i < |ptrs|
    ensures Tabled(ptrs[i := c.ptr], sizes[i := size], next)
  {
  }

  /** The new payload passes the checks of add_range, and its entry completes the record. */
  lemma {:induction false} GrownRange(run: Run, next: Run, i: nat, size: nat, c: Block, rs: seq<Range>, limit: nat)
    requires Grown(run, next, i, size, c) && RunValid(next, limit) && Recorded(rs, run.req)
    ensures next.blocks != [] && i in next.ids && next.ids[i] == c.ptr
    ensures c.ptr % ALIGNMENT == 0 && c.ptr + size <= Brk(next.blocks)
    ensures forall r :: r in rs ==> !Hit(c.ptr, c.ptr + size - 1, r)
    ensures Recorded([Range(c.ptr, c.ptr + size - 1)] + rs, next.req)
  {
    hide Recorded, Hit, RunValid, Gains;
    NonEmpty(next, limit);
    RecordedGain(rs, run.req, c.ptr, size);
    PassesChecks(next, i, rs, run.req, limit);
  }

  lemma {:induction false} FilledBy(m: seq<byte>, p: nat, n: nat, v: byte)
    requires p + n <= |m| && forall k :: p <= k < p + n ==> m[k] == v
    ensures Filled(m, p, n, v)
  {
  }

  // ---------- FREE ----------

  lemma {:induction false} FreeStep(run: Run, i: nat, limit: nat)
    requires RunValid(run, limit) && i in run.ids
    ensures var next, p := Step(run, Op.Free(i), limit), run.ids[i];
            && next.Some? && RunValid(next.value, limit)
            && next.value == Run(Allocator.Free(run.blocks, p), run.ids - {i}, run.req - {p})
            && p in run.req && IsLive(run.blocks, p)
    ensures run.blocks != [] && WellFormed(run.blocks, Brk(run.blocks))
    ensures forall j :: j in run.ids && j != i ==> run.ids[j] != run.ids[i]
  {
    hide Tiles, Coalesced;
    FreeValid(run, i, limit);
    OwnedLive(run.blocks, run.req, run.ids[i], run.ids, i);
  }

  lemma {:induction false} FreeContents(m: seq<byte>, m': seq<byte>, run: Run, i: nat, limit: nat)
    requires RunValid(run, limit) && i in run.ids && Contents(m, run)
    requires Kept(m, m', Allocator.Free(run.blocks, run.ids[i]))
    ensures Contents(m', Run(Allocator.Free(run.blocks, run.ids[i]), run.ids - {i}, run.req - {run.ids[i]}))
  {
    hide RunValid, SamePayload, Filled, Allocator.Free;
    FreeStep(run, i, limit);
    FreeFacts(run.blocks, Brk(run.blocks), run.ids[i]);
    ContentsKept(m, m', run, run.ids.Keys - {i}, limit);
  }

  lemma {:induction false} FreeTabled(ptrs: seq<nat>, sizes: seq<nat>, run: Run, i: nat, bs: seq<Block>)
    requires Tabled(ptrs, sizes, run) && i in run.ids
    requires forall j :: j in run.ids && j != i ==> run.ids[j] != run.ids[i]
    ensures Tabled(ptrs, sizes, Run(bs, run.ids - {i}, run.req - {run.ids[i]}))
  {
  }

  // ---------- REALLOC ----------

  /** What a successful REALLOC request does to the run: block b goes, block c comes. */
  ghost predicate Moved(run: Run, next: Run, i: nat, size: nat, b: Block, c: Block) {
    && i in run.ids && run.ids[i] == b.ptr && c.ptr !in run.req && c.ptr != b.ptr && 0 < size
    && b.ptr in run.req && 0 < run.req[b.ptr] <= b.size - 8 && size + 8 <= c.size
    && b in run.blocks && b.alloc && c in next.blocks && c.alloc
    && next.ids == run.ids[i := c.ptr] && next.req == run.req[c.ptr := size] - {b.ptr}
    && (forall d :: d in run.blocks && d.alloc && d.ptr != b.ptr ==> d in next.blocks && d != c)
    && (forall j :: j in run.ids && j != i ==> run.ids[j] != b.ptr)
  }

  lemma {:induction false} ReallocStep(run: Run, i: nat, size: nat, limit: nat) returns (b: Block, c: Block)
    requires RunValid(run, limit) && i in run.ids && 0 < size < TWO_31
    ensures run.blocks != []
    ensures var next := Step(run, Op.Realloc(i, size), limit);
            var r := Allocator.Realloc(run.blocks, Some(run.ids[i]), size, limit);
            && (next.None? <==> r.ptr.None?)
            && (next.Some? ==>
                  && Moved(run, next.value, i, size, b, c) && RunValid(next.value, limit)
                  && next.value.blocks == r.blocks && r.ptr == Some(c.ptr))
    ensures IsLive(run.blocks, run.ids[i])
  {
    hide Tiles, Coalesced, Owned, Gains, Malloc, Allocator.Free;
    var p, r := run.ids[i], Malloc(run.blocks, size, limit);
    b := BlockOf(run, i, limit);
    OwnedLive(run.blocks, run.req, p, run.ids, i);
    c := MallocServes(run.blocks, size, limit);
    ReallocValid(run, i, size, limit);
    if r.ptr.Some? {
      OwnedGain(run.blocks, r.blocks, run.req, c, size);
      FreeFacts(r.blocks, Brk(r.blocks), p);
      GainedThenFreed(run.blocks, r.blocks, Allocator.Free(r.blocks, p), b, c);
    }
  }

  lemma {:induction false} GainedThenFreed(bs: seq<Block>, cs: seq<Block>, ds: seq<Block>, b: Block, c: Block)
    requires Gains(bs, cs, c) && c.alloc && b in bs && b.alloc
    requires forall d :: d in ds && d.alloc <==> d in cs && d.alloc && d.ptr != b.ptr
    ensures c.ptr != b.ptr && c in ds
    ensures forall d :: d in bs && d.alloc && d.ptr != b.ptr ==> d in ds && d != c
  {
  }

  lemma {:induction false} MovedRange(run: Run, next: Run, i: nat, size: nat, b: Block, c: Block, rs: seq<Range>, limit: nat)
    requires Moved(run, next, i, size, b, c) && RunValid(next, limit) && Recorded(rs, run.req)
    ensures next.blocks != [] && i in next.ids && next.ids[i] == c.ptr
    ensures c.ptr % ALIGNMENT == 0 && c.ptr + size <= Brk(next.blocks)
    ensures var rest := RemoveFirst(rs, b.ptr);
            && (forall r :: r in rest ==> !Hit(c.ptr, c.ptr + size - 1, r))
            && Recorded([Range(c.ptr, c.ptr + size - 1)] + rest, next.req)
  {
    hide Recorded, Hit, RunValid;
    var req := run.req - {b.ptr};
    NonEmpty(next, limit);
    RecordedDrop(rs, run.req, b.ptr);
    assert req[c.ptr := size] == next.req;
    RecordedGain(RemoveFirst(rs, b.ptr), req, c.ptr, size);
    PassesChecks(next, i, RemoveFirst(rs, b.ptr), req, limit);
  }

  /** The bytes that the data check of eval_mm_valid looks at are those of the old payload. */
  lemma {:induction false} CopiedFill(m: seq<byte>, m': seq<byte>, p: nat, q: nat, n: int, req: nat, k: nat, v: int)
    requires Copied(m, m', p, q, n) && Filled(m, p, req, v) && k <= n && k <= req
    ensures Filled(m', q, k, v)
  {
    forall l | q <= l < q + k
      ensures m'[l] == v
    {
      assert m'[l] == m[l - q + p];
    }
  }

  lemma {:induction false} ReallocContents(m: seq<byte>, m': seq<byte>, m'': seq<byte>, run: Run, next: Run,
                                           i: nat, size: nat, b: Block, c: Block, brk: nat, limit: nat)
    requires RunValid(run, limit) && Moved(run, next, i, size, b, c)
    requires Contents(m, run)
    requires forall d :: d in run.blocks && d in next.blocks && d.alloc ==> SamePayload(m, m', d)
    requires Image(m', next.blocks, brk) && SameOutside(m', m'', c.ptr, c.ptr + size)
    requires Filled(m'', c.ptr, size, i % 256)
    ensures Image(m'', next.blocks, brk) && Contents(m'', next)
  {
    hide RunValid, Image, SamePayload, Filled, SameOutside;
    var keep := run.ids.Keys - {i};
    PayloadWrite(m', m'', next.blocks, brk, c, c.ptr, c.ptr + size);
    forall j, d | j in keep && d in run.blocks && d.alloc && d.ptr == run.ids[j]
      ensures SamePayload(m, m'', d)
    {
      assert SamePayload(m, m', d) && SamePayload(m', m'', d);
      SamePayloadTrans(m, m', m'', d);
    }
    ContentsKept(m, m'', run, keep, limit);
    MovedContents(m'', run, next, i, size, b, c);
  }

  lemma {:induction false} SamePayloadTrans(m: seq<byte>, m': seq<byte>, m'': seq<byte>, d: Block)
    requires SamePayload(m, m', d) && SamePayload(m', m'', d)
    ensures SamePayload(m, m'', d)
  {
  }

  lemma {:induction false} MovedContents(m: seq<byte>, run: Run, next: Run, i: nat, size: nat, b: Block, c: Block)
    requires Moved(run, next, i, size, b, c) && Filled(m, c.ptr, size, i % 256)
    requires forall j :: j in run.ids && j != i ==>
               run.ids[j] in run.req && Filled(m, run.ids[j], run.req[run.ids[j]], j % 256)
    ensures Contents(m, next)
  {
    hide Filled;
  }

  lemma {:induction false} MovedTabled(ptrs: seq<nat>, sizes: seq<nat>, run: Run, next: Run, i: nat, size: nat, b: Block, c: Block)
    requires Tabled(ptrs, sizes, run) && Moved(run, next, i, size, b, c)
    ensures i < |ptrs| && Tabled(ptrs[i := c.ptr], sizes[i := size], next)
  {
  }

  lemma {:induction false} MovedFacts(run: Run, next: Run, i: nat, size: nat, b: Block, c: Block)
    requires Moved(run, next, i, size, b, c)
    ensures i in run.ids && b.ptr == run.ids[i] && b in run.blocks && b.alloc && i in next.ids && next.ids[i] == c.ptr
    ensures b.ptr in run.req && run.req[b.ptr] + 8 <= b.size && 0 < run.req[b.ptr] && 0 < size
  {
  }

  /** The bytes that the data check of eval_mm_valid looks at hold the low byte of the id. */
  lemma {:induction false} MovedBytes(m: seq<byte>, m': seq<byte>, run: Run, i: nat, size: nat, b: Block, c: Block, k: nat)
    requires Contents(m, run) && i in run.ids && b.ptr == run.ids[i] && b.ptr in run.req
    requires run.req[b.ptr] + 8 <= b.size
    requires Copied(m, m', b.ptr, c.ptr, if size < b.size - 8 then size else b.size - 8)
    requires k <= size && k <= run.req[b.ptr]
    ensures c.ptr + k <= |m'| && forall l :: c.ptr <= l < c.ptr + k ==> m'[l] == i % 256
  {
    CopiedFill(m, m', b.ptr, c.ptr, if size < b.size - 8 then size else b.size - 8, run.req[b.ptr], k, i % 256);
  }

  /** A signed char never equals a number of 128 or more, and otherwise equals the byte. */
  lemma {:induction false} CharClash(m: seq<byte>, p: nat, n: nat, v: int)
    requires p + n <= |m| && n > 0 && forall k :: p <= k < p + n ==> m[k] == v
    ensures (exists k :: p <= k < p + n && CharValue(m[k]) != v) <==> v >= 128
  {
    assert m[p] == v && CharValue(m[p]) == if v < 128 then v else v - 256;
  }

  /** What the contracts of the single requests need about the next state. */
  lemma {:induction false} StepKeys(run: Run, op: Op, numIds: nat, limit: nat)
    requires RunValid(run, limit) && ValidOp(op, run.ids.Keys, numIds)
    ensures run.blocks != []
    ensures var next := Step(run, op, limit);
            next.Some? && !op.Free? ==> op.index in next.value.ids
  {
    hide Malloc, Allocator.Free;
    StepValid(run, op, numIds, limit);
  }

  /** Request n of a well-formed trace, in the state it is served in. */
  lemma {:induction false} ReplayOp(ops: seq<Op>, n: nat, numIds: nat, limit: nat)
    requires WellFormedTrace(ops, numIds) && n < |ops| && Replay(ops, n, limit).Some?
    ensures var run := Replay(ops, n, limit).value;
            && RunValid(run, limit) && ValidOp(ops[n], run.ids.Keys, numIds) && run.blocks != []
            && Replay(ops, n + 1, limit) == Step(run, ops[n], limit)
  {
    hide RunValid, Step;
    ReplayValid(ops, n, numIds, limit);
    assert ValidOp(ops[n], LiveIds(ops, n), numIds);
    NonEmpty(Replay(ops, n, limit).value, limit);
  }

  lemma {:induction false} StartServed(ptrs: seq<nat>, sizes: seq<nat>, ops: seq<Op>, limit: nat)
    requires Init(limit).Some?
    ensures var run := Run(Init(limit).value, map[], map[]);
            && RunValid(run, limit) && Located(ptrs, run) && Known(sizes, run) && TotalSize(run) == 0
            && Replay(ops, 0, limit) == Some(run) && IsPeak(ops, 0, limit, 0)
  {
    StartValid(limit);
    StartLive(limit);
    assert SizeAt(ops, 0, limit) == 0;
  }

  /** Right after mm_init. */
  lemma {:induction false} StartState(ptrs: seq<nat>, sizes: seq<nat>, rs: seq<Range>, m: seq<byte>, limit: nat)
    requires Init(limit).Some? && |ptrs| == |sizes| && rs == []
    ensures var run := Run(Init(limit).value, map[], map[]);
            RunValid(run, limit) && Tabled(ptrs, sizes, run) && Recorded(rs, run.req) && Contents(m, run)
  {
    hide RunValid;
    StartValid(limit);
  }

  // ---------- verdicts ----------

  datatype Verdict =
    | Accepted
    | InitFailed
    | NoMemoryAt(at: nat)
    | RefusedAt(at: nat, finding: Finding)
    | DataLostAt(at: nat)

  /** A realloc whose id has a low byte that no signed char equals. */
  predicate Clashes(op: Op) {
    op.Realloc? && op.index % 256 >= 128
  }

  /** How eval_mm_valid ends on a trace. */
  ghost predicate IsVerdict(ops: seq<Op>, limit: nat, v: Verdict) {
    match v
    case Accepted => Replay(ops, |ops|, limit).Some? && forall j :: 0 <= j < |ops| ==> !Clashes(ops[j])
    case InitFailed => Replay(ops, 0, limit).None?
    case NoMemoryAt(k) =>
      && k < |ops| && Replay(ops, k, limit).Some? && Replay(ops, k + 1, limit).None?
      && forall j :: 0 <= j < k ==> !Clashes(ops[j])
    case DataLostAt(k) =>
      && k < |ops| && Replay(ops, k + 1, limit).Some? && Clashes(ops[k])
      && forall j :: 0 <= j < k ==> !Clashes(ops[j])
    case RefusedAt(_, _) => false
  }

  /** eval_mm_valid accepts a well-formed trace exactly when the allocator never runs out of heap and
      no request reallocates an id whose low byte is 128 or more. */
  lemma {:induction false} AcceptedIff(ops: seq<Op>, limit: nat, v: Verdict)
    requires IsVerdict(ops, limit, v)
    ensures v == Accepted <==> Replay(ops, |ops|, limit).Some? && forall j :: 0 <= j < |ops| ==> !Clashes(ops[j])
  {
    ServedSoFar(ops, limit);
  }

  /** The verdict names the first request that goes wrong: the allocator serves exactly the requests before
      it, or it is the first realloc of such an id. */
  lemma {:induction false} VerdictIs(ops: seq<Op>, limit: nat, v: Verdict, k: nat)
    requires IsVerdict(ops, limit, v)
    ensures v == InitFailed <==> forall j :: 0 <= j <= |ops| ==> Replay(ops, j, limit).None?
    ensures v == NoMemoryAt(k) <==>
              && k < |ops| && (forall j :: 0 <= j <= |ops| ==> (Replay(ops, j, limit).Some? <==> j <= k))
              && forall j :: 0 <= j < k ==> !Clashes(ops[j])
    ensures v == DataLostAt(k) <==>
              && k < |ops| && (forall j :: 0 <= j <= k + 1 ==> Replay(ops, j, limit).Some?)
              && Clashes(ops[k]) && forall j :: 0 <= j < k ==> !Clashes(ops[j])
    ensures !v.RefusedAt?
  {
    hide Replay, Clashes;
    match v {
      case InitFailed => NoneServed(ops, limit);
      case Accepted => ServedUpTo(ops, |ops|, limit);
      case NoMemoryAt(m) => FirstFailure(ops, m, limit);
      case DataLostAt(m) => ServedUpTo(ops, m + 1, limit);
    }
    assert k < |ops| ==> Replay(ops, k + 1, limit).Some? || Replay(ops, k + 1, limit).None?;
  }

  lemma {:induction false} ServedUpTo(ops: seq<Op>, m: nat, limit: nat)
    requires m <= |ops| && Replay(ops, m, limit).Some?
    ensures forall j :: 0 <= j <= m ==> Replay(ops, j, limit).Some?
  {
    hide Replay;
    ServedSoFar(ops, limit);
  }

  lemma {:induction false} NoneServed(ops: seq<Op>, limit: nat)
    requires Replay(ops, 0, limit).None?
    ensures forall j :: 0 <= j <= |ops| ==> Replay(ops, j, limit).None?
  {
    hide Replay;
    ServedSoFar(ops, limit);
  }

  lemma {:induction false} FirstFailure(ops: seq<Op>, m: nat, limit: nat)
    requires m < |ops| && Replay(ops, m, limit).Some? && Replay(ops, m + 1, limit).None?
    ensures forall j :: 0 <= j <= |ops| ==> (Replay(ops, j, limit).Some? <==> j <= m)
  {
    hide Replay;
    ServedUpTo(ops, m, limit);
    ServedSoFar(ops, limit);
  }

  /** When the limit covers the initial heap and one extension per alloc and realloc, only such a realloc
      decides: what a caller can read off the trace. */
  lemma {:induction false} AcceptedWhenEnough(ops: seq<Op>, numIds: nat, limit: nat, v: Verdict)
    requires WellFormedTrace(ops, numIds) && Demand(ops, |ops|) <= limit < TWO_31 && IsVerdict(ops, limit, v)
    ensures v == Accepted <==> forall j :: 0 <= j < |ops| ==> !Clashes(ops[j])
  {
    hide WellFormedTrace, IsVerdict, Demand, Replay;
    EnoughHeap(ops, |ops|, numIds, limit);
    AcceptedIff(ops, limit, v);
  }

  /** The rejection for lost data does happen: on a trace of one alloc and one realloc of id 128. */
  lemma {:induction false} DataLostExample(limit: nat)
    requires INITIAL + CHUNKSIZE <= limit < TWO_31
    ensures var ops := [Alloc(128, 8), Realloc(128, 8)];
            WellFormedTrace(ops, 129) && IsVerdict(ops, limit, DataLostAt(1))
  {
    var ops := [Alloc(128, 8), Realloc(128, 8)];
    assert LiveIds(ops, 0) == {} && LiveIds(ops, 1) == {128};
    assert WellFormedTrace(ops, 129);
    var free := Block(INITIAL, CHUNKSIZE, false);
    InitForm(limit);
    var run := Run([PROLOGUE, free], map[], map[]);
    assert Replay(ops, 0, limit) == Some(run);
    FitsAt(run.blocks, 1, 16);
    assert Step(run, ops[0], limit).Some?;
    var bs := Malloc(run.blocks, 8, limit).blocks;
    assert bs == [PROLOGUE, Block(16, 16, true), Block(32, 4080, false)];
    FitsAt(bs, 2, 16);
    assert Replay(ops, 1, limit) == Step(run, ops[0], limit);
    assert Step(Replay(ops, 1, limit).value, ops[1], limit).Some?;
    assert Replay(ops, 2, limit).Some?;
  }

  lemma {:induction false} FitsAt(bs: seq<Block>, k: nat, asize: nat)
    requires k < |bs| && Fits(bs[k], asize)
    requires forall j :: 0 <= j < k ==> bs[j].alloc
    ensures FirstFit(bs, asize) == k
  {
  }

  /** Once a request has failed, none is served. */
  lemma {:induction false} ServedSoFar(ops: seq<Op>, limit: nat)
    ensures forall k, l :: 0 <= k <= l <= |ops| && Replay(ops, l, limit).Some? ==> Replay(ops, k, limit).Some?
  {
    forall k, l | 0 <= k <= l <= |ops| && Replay(ops, l, limit).Some?
      ensures Replay(ops, k, limit).Some?
    {
      ServedBefore(ops, k, l, limit);
    }
  }

  lemma {:induction false} ServedBefore(ops: seq<Op>, k: nat, l: nat, limit: nat)
    requires k <= l <= |ops| && Replay(ops, l, limit).Some?
    ensures Replay(ops, k, limit).Some?
    decreases l
  {
    if k < l {
      ServedBefore(ops, k, l - 1, limit);
    }
  }

  /** The trace and the heap limit leave only one verdict. */
  lemma {:induction false} OneVerdict(ops: seq<Op>, limit: nat, v: Verdict, w: Verdict)
    requires IsVerdict(ops, limit, v) && IsVerdict(ops, limit, w)
    ensures v == w
  {
    hide Replay;
    ServedSoFar(ops, limit);
  }

  // ---------- the totals of eval_mm_util ----------

  /** trace->block_sizes holds the size of every live id. */
  ghost predicate Known(sizes: seq<nat>, run: Run) {
    forall i :: i in run.ids ==> i < |sizes| && run.ids[i] in run.req && sizes[i] == run.req[run.ids[i]]
  }

  lemma {:induction false} AllocKnown(sizes: seq<nat>, run: Run, i: nat, size: nat, limit: nat)
    requires RunValid(run, limit) && Known(sizes, run) && i !in run.ids && i < |sizes| && 0 < size < TWO_31
    ensures run.blocks != []
    ensures var next := Step(run, Alloc(i, size), limit);
            next.Some? ==> Known(sizes[i := size], next.value) && TotalSize(next.value) == TotalSize(run) + size
  {
    hide RunValid, TotalSize;
    var c := AllocStep(run, i, size, limit);
    AllocTotal(run, i, size, limit);
  }

  lemma {:induction false} ReallocKnown(sizes: seq<nat>, run: Run, i: nat, size: nat, limit: nat)
    requires RunValid(run, limit) && Known(sizes, run) && i in run.ids && 0 < size < TWO_31
    ensures run.blocks != [] && i < |sizes|
    ensures var next := Step(run, Realloc(i, size), limit);
            next.Some? ==>
              Known(sizes[i := size], next.value) && TotalSize(next.value) == TotalSize(run) + size - sizes[i]
  {
    hide RunValid, TotalSize, Step, Malloc, Allocator.Realloc;
    var b, c := ReallocStep(run, i, size, limit);
    ReallocTotal(run, i, size, limit);
  }

  lemma {:induction false} FreeKnown(sizes: seq<nat>, run: Run, i: nat, limit: nat)
    requires RunValid(run, limit) && Known(sizes, run) && i in run.ids
    ensures run.blocks != [] && i < |sizes|
    ensures var next := Step(run, Op.Free(i), limit);
            next.Some? && Known(sizes, next.value) && TotalSize(next.value) == TotalSize(run) - sizes[i]
  {
    hide RunValid, TotalSize, Step, WellFormed, Brk, Allocator.Free, Live;
    FreeStep(run, i, limit);
    FreeTotal(run, i, limit);
  }

  // ---------- trace->blocks alone ----------

  lemma {:induction false} LocatedAt(ptrs: seq<nat>, run: Run, i: nat)
    requires Located(ptrs, run) && i in run.ids
    ensures i < |ptrs| && ptrs[i] == run.ids[i]
  {
  }

  lemma {:induction false} AllocLocated(ptrs: seq<nat>, run: Run, next: Run, i: nat, size: nat, c: Block)
    requires Located(ptrs, run) && Grown(run, next, i, size, c) && i < |ptrs|
    ensures Located(ptrs[i := c.ptr], next) && i in next.ids && next.ids[i] == c.ptr
  {
  }

  lemma {:induction false} MovedLocated(ptrs: seq<nat>, run: Run, next: Run, i: nat, size: nat, b: Block, c: Block)
    requires Located(ptrs, run) && Moved(run, next, i, size, b, c)
    ensures i < |ptrs| && Located(ptrs[i := c.ptr], next) && i in next.ids && next.ids[i] == c.ptr
  {
  }

  lemma {:induction false} FreeLocated(ptrs: seq<nat>, run: Run, i: nat, bs: seq<Block>)
    requires Located(ptrs, run) && i in run.ids
    ensures Located(ptrs, Run(bs, run.ids - {i}, run.req - {run.ids[i]}))
  {
  }

  lemma {:induction false} FreePointers(ps: seq<nat>, i: nat, next: Option<Run>)
    ensures PointersAfter(ps, Op.Free(i), next) == ps
  {
  }

  lemma {:induction false} NoReplay(ops: seq<Op>, k: nat, limit: nat)
    requires k <= |ops| && Replay(ops, k, limit).None?
    ensures Replay(ops, |ops|, limit).None?
  {
    ServedSoFar(ops, limit);
  }

  lemma {:induction false} RatioBelowOne(part: nat, whole: nat)
    requires part < whole
    ensures 0.0 <= part as real / whole as real < 1.0
  {
    assert part as real / whole as real * whole as real == part as real;
  }
}
