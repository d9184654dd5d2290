/** The trace interpreters of mdriver.c. */
module Driver {
  import opened Blocks
  import opened Words
  import opened Wrappers
  import opened Allocator
  import opened Tags
  import opened MemLib
  import opened Mm
  import opened Traces
  import opened Ranges
  import opened Checks

  /** trace_t, parsed. */
  class Trace {
    const ops: seq<Op>
    const numIds: nat
    const blocks: array<nat>
    const blockSizes: array<nat>

    constructor (ops: seq<Op>, numIds: nat)
      ensures this.ops == ops && this.numIds == numIds
      ensures blocks.Length == numIds && blockSizes.Length == numIds && blocks != blockSizes
      ensures fresh(blocks) && fresh(blockSizes)
    {
      this.ops := ops;
      this.numIds := numIds;
      blocks := new nat[numIds];
      blockSizes := new nat[numIds];
    }
  }

  /** How one request of eval_mm_valid ends. */
  datatype Outcome = Done | NoMemory | Refused(finding: Finding) | DataLost

  /** The message for malloc_error when request i ends with o. */
  function Report(i: nat, o: Outcome): Verdict {
    match o
    case Done => Accepted
    case NoMemory => NoMemoryAt(i)
    case Refused(f) => RefusedAt(i, f)
    case DataLost => DataLostAt(i)
  }

  class Driver {
    const mm: Mm
    const ranges: RangeList

    constructor (mm: Mm, ranges: RangeList)
      ensures this.mm == mm && this.ranges == ranges
    {
      this.mm := mm;
      this.ranges := ranges;
    }

    /** The interpreter has served requests up to the state `run` of the allocator, and trace->blocks
        has the addresses. */
    ghost predicate Heap(trace: Trace, run: Run)
      reads mm, mm.lib, mm.lib.mem, trace.blocks
    {
      && mm.Valid() && mm.blocks == run.blocks && RunValid(run, mm.lib.mem.Length)
      && trace.blocks.Length == trace.numIds && Located(trace.blocks[..], run)
    }

    /** The same, and trace->block_sizes has the sizes. */
    ghost predicate At(trace: Trace, run: Run)
      reads mm, mm.lib, mm.lib.mem, trace.blocks, trace.blockSizes
    {
      && mm.Valid() && mm.blocks == run.blocks && RunValid(run, mm.lib.mem.Length)
      && trace.blocks.Length == trace.numIds && trace.blockSizes.Length == trace.numIds
      && trace.blocks != trace.blockSizes
      && Tabled(trace.blocks[..], trace.blockSizes[..], run)
    }

    /** The allocator may be in any state: each interpreter begins with mem_reset_brk and mm_init. */
    ghost predicate Ready(trace: Trace)
      reads mm.lib
    {
      && mm.lib.Valid() && WellFormedTrace(trace.ops, trace.numIds)
      && trace.blocks.Length == trace.numIds && trace.blockSizes.Length == trace.numIds
      && trace.blocks != trace.blockSizes
    }

    /** What eval_mm_valid keeps besides. */
    ghost predicate Checked(run: Run)
      reads mm, mm.lib, mm.lib.mem, ranges, ranges.repr
    {
      && ranges.Valid() && Recorded(ranges.Ranges(), run.req) && Contents(mm.lib.mem[..], run)
    }

    /** The ALLOC case of eval_mm_valid. */
    method CheckAlloc(trace: Trace, index: nat, size: nat, ghost run: Run) returns (o: Outcome)
      requires At(trace, run) && Checked(run)
      requires index < trace.numIds && index !in run.ids && 0 < size < TWO_31
      modifies mm, mm.lib, mm.lib.mem, ranges, ranges.repr, trace.blocks, trace.blockSizes
      ensures mm.lib.Valid()
      ensures var next := Step(run, Alloc(index, size), mm.lib.mem.Length);
              && o == (if next.None? then NoMemory else Done)
              && (next.Some? ==>
                    && At(trace, next.value) && Checked(next.value) && index in next.value.ids
                    && trace.blocks[..] == old(trace.blocks[..])[index := next.value.ids[index]])
      ensures fresh(ranges.repr - old(ranges.repr))
    {
      hide RunValid, Recorded, Contents, Tabled, Image, Step, Kept, Grown, RangeList.Valid, RangeList.Ranges,
        Hit, WellFormed, Malloc, AdjustedSize, Usable;
      ghost var limit, m := mm.lib.mem.Length, mm.lib.mem[..];
      ghost var c := AllocStep(run, index, size, limit);
      ghost var next := Step(run, Alloc(index, size), limit);
      var p := mm.Malloc(size);
      if p.None? {
        return NoMemory;
      }
      GrownRange(run, next.value, index, size, c, ranges.Ranges(), limit);
      BrkOf(mm.blocks, mm.lib.brk);
      var f := ranges.Add(p.value, size, mm.lib);
      if f != Added {
        return Refused(f);
      }
      Record(trace, p.value, index, size, run, next.value, c, m);
      return Done;
    }

    /** The memset and the table entries after a successful malloc. */
    method Record(trace: Trace, p: nat, index: nat, size: nat, ghost run: Run, ghost next: Run, ghost c: Block, ghost m: seq<byte>)
      requires mm.Valid() && mm.blocks == next.blocks && RunValid(next, mm.lib.mem.Length)
      requires RunValid(run, mm.lib.mem.Length) && Contents(m, run) && Kept(m, mm.lib.mem[..], run.blocks)
      requires Grown(run, next, index, size, c) && p == c.ptr && p + size <= mm.lib.mem.Length
      requires trace.blocks.Length == trace.numIds && trace.blockSizes.Length == trace.numIds
      requires trace.blocks != trace.blockSizes && Tabled(trace.blocks[..], trace.blockSizes[..], run)
      requires index < trace.numIds
      modifies mm.lib.mem, trace.blocks, trace.blockSizes
      ensures mm.lib.Valid() && At(trace, next) && Contents(mm.lib.mem[..], next)
      ensures trace.blocks[..] == old(trace.blocks[..])[index := p]
    {
      hide RunValid, Contents, Tabled, Image, WellFormed, Filled, Grown, Kept, SameOutside;
      ghost var m' := mm.lib.mem[..];
      mm.lib.Fill(p, index % 256, size);
      FilledBy(mm.lib.mem[..], p, size, index % 256);
      AllocContents(m, m', mm.lib.mem[..], run, next, index, size, c, mm.lib.brk, mm.lib.mem.Length);
      AllocTabled(trace.blocks[..], trace.blockSizes[..], run, next, index, size, c);
      trace.blocks[index] := p;
      trace.blockSizes[index] := size;
    }

    /** The REALLOC case of eval_mm_valid. */
    method CheckRealloc(trace: Trace, index: nat, size: nat, ghost run: Run) returns (o: Outcome)
      requires At(trace, run) && Checked(run)
      requires index in run.ids && 0 < size < TWO_31
      modifies mm, mm.lib, mm.lib.mem, ranges, ranges.repr, trace.blocks, trace.blockSizes
      ensures mm.lib.Valid()
      ensures var next := Step(run, Realloc(index, size), mm.lib.mem.Length);
              && o == (if next.None? then NoMemory else if index % 256 >= 128 then DataLost else Done)
              && (o == Done ==>
                    && At(trace, next.value) && Checked(next.value) && index < trace.numIds && index in next.value.ids
                    && trace.blocks[..] == old(trace.blocks[..])[index := next.value.ids[index]])
      ensures fresh(ranges.repr - old(ranges.repr))
    {
      hide Moving, RunValid, Checked, Step, Moved, Mm.Valid, Tabled;
      NonEmpty(run, mm.lib.mem.Length);
      ghost var m, next := mm.lib.mem[..], Step(run, Realloc(index, size), mm.lib.mem.Length);
      var newp, f;
      ghost var b, c;
      newp, f, b, c := MoveBlock(trace, index, size, run);
      if newp.None? {
        return NoMemory;
      }
      if f != Added {
        return Refused(f);
      }
      o := CheckData(trace, newp.value, index, size, run, next.value, b, c, m);
    }

    /** A realloc has moved the payload of id `index` from block b to block c, and the range list is up to
        date, but the data check, the memset and the table entries are still to come; m are the bytes
        from before. */
    ghost predicate Moving(trace: Trace, index: nat, size: nat, run: Run, next: Run, b: Block, c: Block, m: seq<byte>)
      reads mm, mm.lib, mm.lib.mem, ranges, ranges.repr, trace.blocks, trace.blockSizes
    {
      && mm.Valid() && mm.blocks == next.blocks && RunValid(next, mm.lib.mem.Length)
      && RunValid(run, mm.lib.mem.Length) && Contents(m, run)
      && Moved(run, next, index, size, b, c) && c.ptr + size <= mm.lib.mem.Length
      && (forall d :: d in run.blocks && d in next.blocks && d.alloc ==> SamePayload(m, mm.lib.mem[..], d))
      && Copied(m, mm.lib.mem[..], b.ptr, c.ptr, Smaller(size, b.size - 8))
      && trace.blocks.Length == trace.numIds && trace.blockSizes.Length == trace.numIds
      && trace.blocks != trace.blockSizes && Tabled(trace.blocks[..], trace.blockSizes[..], run)
      && ranges.Valid() && Recorded(ranges.Ranges(), next.req)
    }

    /** mm_realloc, and the two changes to the range list. */
    method MoveBlock(trace: Trace, index: nat, size: nat, ghost run: Run)
      returns (newp: Option<nat>, f: Finding, ghost b: Block, ghost c: Block)
      requires At(trace, run) && Checked(run)
      requires index in run.ids && 0 < size < TWO_31
      modifies mm, mm.lib, mm.lib.mem, ranges, ranges.repr
      ensures mm.lib.Valid() && f == Added
      ensures var next := Step(run, Realloc(index, size), mm.lib.mem.Length);
              && newp.Some? == next.Some?
              && (next.Some? ==>
                    && newp.value == c.ptr && index in next.value.ids && next.value.ids[index] == c.ptr
                    && Moving(trace, index, size, run, next.value, b, c, old(mm.lib.mem[..])))
      ensures fresh(ranges.repr - old(ranges.repr))
    {
      hide RunValid, Recorded, Contents, Tabled, Step, Moved, RangeList.Valid, Mm.Valid, SamePayload, Copied,
        RangeList.Ranges, Allocator.Realloc;
      f := Added;
      b, c := ReallocStep(run, index, size, mm.lib.mem.Length);
      ghost var next := Step(run, Realloc(index, size), mm.lib.mem.Length);
      TabledAt(trace.blocks[..], trace.blockSizes[..], run, index);
      var oldp := trace.blocks[index];
      newp := mm.Realloc(Some(oldp), size);
      mm.LibValid();
      if newp.Some? {
        MovedFacts(run, next.value, index, size, b, c);
        f := Rerecord(oldp, newp.value, index, size, run, next.value, b, c);
      }
    }

    /** The rest of the REALLOC case: the data check, the memset and the table entries. */
    method CheckData(trace: Trace, newp: nat, index: nat, size: nat, ghost run: Run, ghost next: Run, ghost b: Block,
                     ghost c: Block, ghost m: seq<byte>) returns (o: Outcome)
      requires Moving(trace, index, size, run, next, b, c, m) && newp == c.ptr && mm.lib.Valid()
      modifies mm.lib.mem, trace.blocks, trace.blockSizes
      ensures mm.lib.Valid()
      ensures o == if index % 256 >= 128 then DataLost else Done
      ensures o == Done ==>
                && At(trace, next) && Checked(next) && index < trace.numIds
                && trace.blocks[..] == old(trace.blocks[..])[index := newp]
    {
      hide RunValid, Contents, Tabled, Image, WellFormed, Filled, Moved, SamePayload, Copied, Mm.Valid, RangeList.Valid,
        RangeList.Ranges, Recorded;
      MovedFacts(run, next, index, size, b, c);
      TabledAt(trace.blocks[..], trace.blockSizes[..], run, index);
      var oldSize := trace.blockSizes[index];
      if size < oldSize {
        oldSize := size;
      }
      MovedBytes(m, mm.lib.mem[..], run, index, size, b, c, oldSize);
      var lost := DataDiffers(newp, oldSize, index);
      if lost {
        return DataLost;
      }
      Refill(trace, newp, index, size, run, next, b, c, m);
      return Done;
    }

    /** The FREE case of eval_mm_valid. */
    method CheckFree(trace: Trace, index: nat, ghost run: Run)
      requires At(trace, run) && Checked(run) && index in run.ids
      modifies mm, mm.lib.mem, ranges, ranges.repr
      ensures var next := Step(run, Free(index), mm.lib.mem.Length);
              next.Some? && At(trace, next.value) && Checked(next.value)
      ensures mm.lib.Valid()
      ensures fresh(ranges.repr - old(ranges.repr))
    {
      hide RunValid, Recorded, Contents, Tabled, RangeList.Valid, Mm.Valid, Step, RangeList.Ranges, RangesOf, RemoveFirst;
      FreeStep(run, index, mm.lib.mem.Length);
      TabledAt(trace.blocks[..], trace.blockSizes[..], run, index);
      var p := trace.blocks[index];
      RecordedDrop(ranges.Ranges(), run.req, p);
      ranges.Remove(p);
      FreeBlock(trace, index, p, run);
      mm.LibValid();
    }

    /** remove_range of the old payload and add_range of the new one. */
    method Rerecord(oldp: nat, newp: nat, index: nat, size: nat, ghost run: Run, ghost next: Run, ghost b: Block, ghost c: Block)
      returns (f: Finding)
      requires mm.Valid() && mm.blocks == next.blocks && RunValid(next, mm.lib.mem.Length)
      requires ranges.Valid() && Recorded(ranges.Ranges(), run.req)
      requires Moved(run, next, index, size, b, c) && oldp == b.ptr && newp == c.ptr && size > 0
      modifies ranges, ranges.repr
      ensures f == Added && ranges.Valid() && Recorded(ranges.Ranges(), next.req)
      ensures newp + size <= mm.lib.mem.Length
      ensures fresh(ranges.repr - old(ranges.repr))
    {
      hide RunValid, Recorded, Image, WellFormed, Moved, RangeList.Valid, RangeList.Ranges;
      MovedRange(run, next, index, size, b, c, ranges.Ranges(), mm.lib.mem.Length);
      BrkOf(mm.blocks, mm.lib.brk);
      ranges.Remove(oldp);
      f := ranges.Add(newp, size, mm.lib);
    }

    /** The data check: do the first n bytes of the payload differ from the low byte of the id? */
    method DataDiffers(p: nat, n: nat, index: nat) returns (lost: bool)
      requires p + n <= mm.lib.mem.Length
      ensures lost <==> exists k :: p <= k < p + n && CharValue(mm.lib.mem[..][k]) != index % 256
      ensures n > 0 && (forall k :: p <= k < p + n ==> mm.lib.mem[..][k] == index % 256) ==> (lost <==> index % 256 >= 128)
    {
      if n > 0 && forall k :: p <= k < p + n ==> mm.lib.mem[..][k] == index % 256 {
        CharClash(mm.lib.mem[..], p, n, index % 256);
      }
      for j := 0 to n
        invariant forall k :: p <= k < p + j ==> CharValue(mm.lib.mem[k]) == index % 256
      {
        if CharValue(mm.lib.mem[p + j]) != index % 256 {
          assert CharValue(mm.lib.mem[..][p + j]) != index % 256;
          return true;
        }
      }
      return false;
    }

    /** The call of mm_free, with the payloads as eval_mm_valid has filled them. */
    method FreeBlock(trace: Trace, index: nat, p: nat, ghost run: Run)
      requires At(trace, run) && index in run.ids && p == run.ids[index] && Contents(mm.lib.mem[..], run)
      modifies mm, mm.lib.mem
      ensures var next := Step(run, Free(index), mm.lib.mem.Length);
              && next.Some? && At(trace, next.value) && Contents(mm.lib.mem[..], next.value)
    {
      hide RunValid, Contents, Image, WellFormed, Filled, SameOutside, Kept, Step;
      ghost var limit, m := mm.lib.mem.Length, mm.lib.mem[..];
      FreeStep(run, index, limit);
      FreeTabled(trace.blocks[..], trace.blockSizes[..], run, index, Allocator.Free(run.blocks, p));
      mm.Free(p);
      FreeContents(m, mm.lib.mem[..], run, index, limit);
    }

    /** The memset and the table entries after a successful realloc. */
    method Refill(trace: Trace, p: nat, index: nat, size: nat, ghost run: Run, ghost next: Run, ghost b: Block, ghost c: Block,
                  ghost m: seq<byte>)
      requires mm.Valid() && mm.blocks == next.blocks && RunValid(next, mm.lib.mem.Length)
      requires RunValid(run, mm.lib.mem.Length) && Contents(m, run)
      requires Moved(run, next, index, size, b, c) && p == c.ptr && p + size <= mm.lib.mem.Length
      requires forall d :: d in run.blocks && d in next.blocks && d.alloc ==> SamePayload(m, mm.lib.mem[..], d)
      requires trace.blocks.Length == trace.numIds && trace.blockSizes.Length == trace.numIds
      requires trace.blocks != trace.blockSizes && Tabled(trace.blocks[..], trace.blockSizes[..], run)
      requires index < trace.numIds
      modifies mm.lib.mem, trace.blocks, trace.blockSizes
      ensures At(trace, next) && Contents(mm.lib.mem[..], next)
      ensures trace.blocks[..] == old(trace.blocks[..])[index := p]
    {
      hide RunValid, Contents, Tabled, Image, WellFormed, Filled, Moved, SamePayload, SameOutside;
      ghost var m' := mm.lib.mem[..];
      mm.lib.Fill(p, index % 256, size);
      FilledBy(mm.lib.mem[..], p, size, index % 256);
      ReallocContents(m, m', mm.lib.mem[..], run, next, index, size, b, c, mm.lib.brk, mm.lib.mem.Length);
      MovedTabled(trace.blocks[..], trace.blockSizes[..], run, next, index, size, b, c);
      trace.blocks[index] := p;
      trace.blockSizes[index] := size;
    }

    /** One round of the loop of eval_mm_valid. */
    method CheckOp(trace: Trace, op: Op, ghost run: Run) returns (o: Outcome)
      requires At(trace, run) && Checked(run) && ValidOp(op, run.ids.Keys, trace.numIds)
      modifies mm, mm.lib, mm.lib.mem, ranges, ranges.repr, trace.blocks, trace.blockSizes
      ensures mm.lib.Valid()
      ensures var next := Step(run, op, mm.lib.mem.Length);
              && o == (if next.None? then NoMemory else if Clashes(op) then DataLost else Done)
              && (o == Done ==>
                    && At(trace, next.value) && Checked(next.value)
                    && trace.blocks[..] == PointersAfter(old(trace.blocks[..]), op, next))
      ensures fresh(ranges.repr - old(ranges.repr))
    {
      hide RunValid, Recorded, Contents, Tabled, Image, WellFormed, RangeList.Valid, Mm.Valid, RangeList.Ranges, Step;
      o := Done;
      ghost var limit := mm.lib.mem.Length;
      StepKeys(run, op, trace.numIds, limit);
      match op {
        case Alloc(index, size) => o := CheckAlloc(trace, index, size, run);
        case Realloc(index, size) => o := CheckRealloc(trace, index, size, run);
        case Free(index) => CheckFree(trace, index, run);
      }
    }

    /** eval_mm_valid: every failure it reports is one of the allocator running out of heap, or of its
        own data check on an id that no signed char can match. */
    method EvalMmValid(trace: Trace) returns (v: Verdict)
      requires Ready(trace)
      modifies mm, mm.lib, mm.lib.mem, ranges, ranges.repr, trace.blocks, trace.blockSizes
      ensures Ready(trace)
      ensures IsVerdict(trace.ops, mm.lib.mem.Length, v)
      ensures v == Accepted ==>
                var end := Replay(trace.ops, |trace.ops|, mm.lib.mem.Length);
                && At(trace, end.value) && Checked(end.value)
                && trace.blocks[..] == Pointers(trace.ops, |trace.ops|, mm.lib.mem.Length, old(trace.blocks[..]))
      ensures fresh(ranges.repr)
    {
      hide At, Checked, Step, Replay, Pointers, PointersAfter, RunValid, ValidOp;
      ghost var ops, limit, start := trace.ops, mm.lib.mem.Length, trace.blocks[..];
      PointersStart(ops, limit, start);
      var started := StartChecked(trace);
      if !started {
        return InitFailed;
      }
      for i := 0 to |trace.ops|
        invariant Replay(ops, i, limit).Some? && At(trace, Replay(ops, i, limit).value)
        invariant Checked(Replay(ops, i, limit).value) && mm.lib.Valid()
        invariant forall j :: 0 <= j < i ==> !Clashes(ops[j])
        invariant trace.blocks[..] == Pointers(ops, i, limit, start)
        invariant fresh(ranges.repr)
      {
        ghost var run := Replay(ops, i, limit).value;
        ReplayOp(ops, i, trace.numIds, limit);
        PointersStep(ops, i, limit, start);
        var o := CheckOp(trace, trace.ops[i], run);
        if o != Done {
          return Report(i, o);
        }
      }
      return Accepted;
    }

    /** The beginning of eval_mm_valid: mem_reset_brk, clear_ranges and mm_init. */
    method StartChecked(trace: Trace) returns (ok: bool)
      requires Ready(trace)
      modifies mm, mm.lib, mm.lib.mem, ranges
      ensures mm.lib.Valid() && ranges.repr == {}
      ensures var start := Replay(trace.ops, 0, mm.lib.mem.Length);
              ok == start.Some? && (ok ==> At(trace, start.value) && Checked(start.value))
    {
      hide RunValid, Recorded, Contents, Tabled, Image, WellFormed, RangesOf;
      mm.lib.ResetBrk();
      ranges.Clear();
      var r := mm.Init();
      if r < 0 {
        return false;
      }
      StartState(trace.blocks[..], trace.blockSizes[..], ranges.Ranges(), mm.lib.mem[..], mm.lib.mem.Length);
      return true;
    }

    // ---------- eval_mm_util and eval_mm_speed ----------

    /** Their call of mm_malloc, and the entry in trace->blocks. */
    method ServeAlloc(trace: Trace, index: nat, size: nat, ghost run: Run) returns (ok: bool)
      requires Heap(trace, run) && index < trace.numIds && index !in run.ids && 0 < size < TWO_31
      modifies mm, mm.lib, mm.lib.mem, trace.blocks
      ensures mm.lib.Valid()
      ensures var next := Step(run, Alloc(index, size), mm.lib.mem.Length);
              && ok == next.Some?
              && (ok ==> Heap(trace, next.value) && trace.blocks[..] == PointersAfter(old(trace.blocks[..]), Alloc(index, size), next))
    {
      hide RunValid, Located, Image, WellFormed, Step, Grown;
      ghost var limit := mm.lib.mem.Length;
      ghost var c := AllocStep(run, index, size, limit);
      ghost var next := Step(run, Alloc(index, size), limit);
      var p := mm.Malloc(size);
      if p.None? {
        return false;
      }
      AllocLocated(trace.blocks[..], run, next.value, index, size, c);
      trace.blocks[index] := p.value;
      return true;
    }

    /** Their call of mm_realloc, and the entry in trace->blocks. */
    method ServeRealloc(trace: Trace, index: nat, size: nat, ghost run: Run) returns (ok: bool)
      requires Heap(trace, run) && index in run.ids && 0 < size < TWO_31
      modifies mm, mm.lib, mm.lib.mem, trace.blocks
      ensures mm.lib.Valid()
      ensures var next := Step(run, Realloc(index, size), mm.lib.mem.Length);
              && ok == next.Some?
              && (ok ==> Heap(trace, next.value) && trace.blocks[..] == PointersAfter(old(trace.blocks[..]), Realloc(index, size), next))
    {
      hide RunValid, Located, Image, WellFormed, Step, Moved, SamePayload, Copied;
      ghost var limit := mm.lib.mem.Length;
      ghost var b, c := ReallocStep(run, index, size, limit);
      ghost var next := Step(run, Realloc(index, size), limit);
      LocatedAt(trace.blocks[..], run, index);
      var oldp := trace.blocks[index];
      var newp := mm.Realloc(Some(oldp), size);
      if newp.None? {
        return false;
      }
      MovedLocated(trace.blocks[..], run, next.value, index, size, b, c);
      trace.blocks[index] := newp.value;
      return true;
    }

    /** Their call of mm_free. */
    method ServeFree(trace: Trace, index: nat, ghost run: Run)
      requires Heap(trace, run) && index in run.ids
      modifies mm, mm.lib, mm.lib.mem
      ensures mm.lib.Valid()
      ensures var next := Step(run, Free(index), mm.lib.mem.Length);
              next.Some? && Heap(trace, next.value)
    {
      hide RunValid, Located, Image, WellFormed, Step, Kept;
      FreeStep(run, index, mm.lib.mem.Length);
      LocatedAt(trace.blocks[..], run, index);
      FreeLocated(trace.blocks[..], run, index, Allocator.Free(run.blocks, run.ids[index]));
      var p := trace.blocks[index];
      mm.Free(p);
    }

    /** mem_reset_brk and mm_init. */
    method Start(trace: Trace) returns (ok: bool)
      requires Ready(trace)
      modifies mm, mm.lib, mm.lib.mem
      ensures mm.lib.Valid()
      ensures var start := Replay(trace.ops, 0, mm.lib.mem.Length);
              && ok == start.Some?
              && (ok ==> Heap(trace, start.value) && Known(trace.blockSizes[..], start.value)
                         && TotalSize(start.value) == 0 && IsPeak(trace.ops, 0, mm.lib.mem.Length, 0))
    {
      hide RunValid, Located, Known, TotalSize, IsPeak, Image, WellFormed;
      mm.lib.ResetBrk();
      var r := mm.Init();
      if r < 0 {
        return false;
      }
      StartServed(trace.blocks[..], trace.blockSizes[..], trace.ops, mm.lib.mem.Length);
      return true;
    }

    /** One round of the loop of eval_mm_util; total and peak are total_size and max_total_size. */
    method UtilOp(trace: Trace, op: Op, total0: int, peak0: int, ghost run: Run) returns (ok: bool, total: int, peak: int)
      requires Heap(trace, run) && ValidOp(op, run.ids.Keys, trace.numIds)
      requires trace.blocks != trace.blockSizes && trace.blockSizes.Length == trace.numIds
      requires Known(trace.blockSizes[..], run) && total0 == TotalSize(run) <= peak0
      modifies mm, mm.lib, mm.lib.mem, trace.blocks, trace.blockSizes
      ensures mm.lib.Valid()
      ensures var next := Step(run, op, mm.lib.mem.Length);
              && ok == next.Some?
              && (ok ==>
                    && Heap(trace, next.value) && Known(trace.blockSizes[..], next.value)
                    && total == TotalSize(next.value) && peak == (if total > peak0 then total else peak0)
                    && trace.blocks[..] == PointersAfter(old(trace.blocks[..]), op, next))
    {
      hide RunValid, Located, Known, TotalSize, Step, PointersAfter, Mm.Valid;
      ghost var limit, sizes := mm.lib.mem.Length, trace.blockSizes[..];
      total, peak := total0, peak0;
      match op {
        case Alloc(index, size) =>
          AllocKnown(sizes, run, index, size, limit);
          ok := ServeAlloc(trace, index, size, run);
          if ok {
            trace.blockSizes[index] := size;
            total := total + size;
            peak := if total > peak then total else peak;
          }
        case Realloc(index, newSize) =>
          ReallocKnown(sizes, run, index, newSize, limit);
          var oldSize := trace.blockSizes[index];
          ok := ServeRealloc(trace, index, newSize, run);
          if ok {
            trace.blockSizes[index] := newSize;
            total := total + (newSize - oldSize);
            peak := if total > peak then total else peak;
          }
        case Free(index) =>
          FreeKnown(sizes, run, index, limit);
          FreePointers(trace.blocks[..], index, Step(run, op, limit));
          var size := trace.blockSizes[index];
          ServeFree(trace, index, run);
          ok := true;
          total := total - size;
      }
    }

    /** eval_mm_util: None is the exit through app_error.  The result is the peak of the requested
        bytes over the size of the final heap. */
    method EvalMmUtil(trace: Trace) returns (util: Option<real>)
      requires Ready(trace)
      modifies mm, mm.lib, mm.lib.mem, trace.blocks, trace.blockSizes
      ensures Ready(trace)
      ensures var end := Replay(trace.ops, |trace.ops|, mm.lib.mem.Length);
              && (util.Some? <==> end.Some?)
              && (util.Some? ==>
                    && Heap(trace, end.value)
                    && 0.0 <= util.value < 1.0 && mm.lib.brk > 0
                    && (exists peak :: IsPeak(trace.ops, |trace.ops|, mm.lib.mem.Length, peak)
                                       && util.value == peak as real / mm.lib.brk as real)
                    && trace.blocks[..] == Pointers(trace.ops, |trace.ops|, mm.lib.mem.Length, old(trace.blocks[..])))
    {
      hide Heap, Known, Step, Replay, Pointers, PointersAfter, RunValid, ValidOp, TotalSize, IsPeak;
      ghost var ops, limit, start := trace.ops, mm.lib.mem.Length, trace.blocks[..];
      PointersStart(ops, limit, start);
      var started := Start(trace);
      if !started {
        NoReplay(ops, 0, limit);
        return None;
      }
      var total, peak := 0, 0;
      for i := 0 to |trace.ops|
        invariant Replay(ops, i, limit).Some? && Heap(trace, Replay(ops, i, limit).value)
        invariant Known(trace.blockSizes[..], Replay(ops, i, limit).value) && mm.lib.Valid()
        invariant total == TotalSize(Replay(ops, i, limit).value) <= peak && IsPeak(ops, i, limit, peak)
        invariant trace.blocks[..] == Pointers(ops, i, limit, start)
      {
        ghost var run := Replay(ops, i, limit).value;
        ghost var peak0 := peak;
        ReplayOp(ops, i, trace.numIds, limit);
        PointersStep(ops, i, limit, start);
        var ok;
        ok, total, peak := UtilOp(trace, trace.ops[i], total, peak, run);
        if !ok {
          NoReplay(ops, i + 1, limit);
          return None;
        }
        PeakStep(ops, i, limit, peak0, peak);
      }
      PeakBound(ops, trace.numIds, limit, peak);
      HeapEnd(trace, Replay(ops, |ops|, limit).value);
      RatioBelowOne(peak, mm.lib.brk);
      return Some(peak as real / mm.lib.HeapSize() as real);
    }

    lemma {:induction false} HeapEnd(trace: Trace, run: Run)
      requires Heap(trace, run)
      ensures run.blocks != [] && mm.lib.brk == Brk(run.blocks) >= INITIAL
    {
      BrkOf(mm.blocks, mm.lib.brk);
    }

    /** eval_mm_speed: false is the exit through app_error. */
    method EvalMmSpeed(trace: Trace) returns (ok: bool)
      requires Ready(trace)
      modifies mm, mm.lib, mm.lib.mem, trace.blocks
      ensures Ready(trace)
      ensures var end := Replay(trace.ops, |trace.ops|, mm.lib.mem.Length);
              && (ok <==> end.Some?)
              && (ok ==> Heap(trace, end.value) && trace.blocks[..] == Pointers(trace.ops, |trace.ops|, mm.lib.mem.Length, old(trace.blocks[..])))
    {
      hide Heap, Known, Step, Replay, Pointers, PointersAfter, RunValid, TotalSize, IsPeak;
      ghost var ops, limit, start := trace.ops, mm.lib.mem.Length, trace.blocks[..];
      PointersStart(ops, limit, start);
      ok := Start(trace);
      if !ok {
        NoReplay(ops, 0, limit);
        return;
      }
      for i := 0 to |trace.ops|
        invariant ok && Replay(ops, i, limit).Some? && Heap(trace, Replay(ops, i, limit).value) && mm.lib.Valid()
        invariant trace.blocks[..] == Pointers(ops, i, limit, start)
      {
        ghost var run := Replay(ops, i, limit).value;
        ReplayOp(ops, i, trace.numIds, limit);
        PointersStep(ops, i, limit, start);
        match trace.ops[i] {
          case Alloc(index, size) => ok := ServeAlloc(trace, index, size, run);
          case Realloc(index, size) => ok := ServeRealloc(trace, index, size, run);
          case Free(index) =>
            FreePointers(trace.blocks[..], index, Step(run, ops[i], limit));
            ServeFree(trace, index, run);
        }
        if !ok {
          NoReplay(ops, i + 1, limit);
          return;
        }
      }
    }

    /** The evaluation of one trace in main: eval_mm_util and eval_mm_speed run only on a trace that
        eval_mm_valid accepts, and then neither of them reaches app_error, and all get the same pointers.
        The utilisation is that of eval_mm_util. */
    method EvaluateTrace(trace: Trace, repetitions: nat) returns (v: Verdict, util: Option<real>, ok: bool)
      requires Ready(trace)
      modifies mm, mm.lib, mm.lib.mem, ranges, ranges.repr, trace.blocks, trace.blockSizes
      ensures Ready(trace) && fresh(ranges.repr)
      ensures IsVerdict(trace.ops, mm.lib.mem.Length, v)
      ensures v == Accepted ==> ok && IsUtil(trace.ops, mm.lib.mem.Length, util) && 0.0 <= util.value < 1.0
      ensures v != Accepted ==> util == None
      ensures v == Accepted ==>
                var n := |trace.ops|;
                SamePointers(trace.ops, trace.blocks[..], Pointers(trace.ops, n, mm.lib.mem.Length, old(trace.blocks[..])))
    {
      hide Replay, IsPeak, Pointers, SamePointers, At, Checked, Heap, IsVerdict;
      ghost var ops, limit, start := trace.ops, mm.lib.mem.Length, trace.blocks[..];
      util, ok := None, true;
      v := EvalMmValid(trace);
      if v == Accepted {
        AcceptedIff(ops, limit, v);
        ghost var before := trace.blocks[..];
        util := EvalMmUtil(trace);
        UtilIs(trace, Replay(ops, |ops|, limit).value, util);
        PointersSame(ops, trace.numIds, limit, before, start);
        for r := 0 to repetitions
          invariant Ready(trace) && fresh(ranges.repr)
          invariant ok && Replay(ops, |ops|, limit).Some? && IsUtil(ops, limit, util)
          invariant SamePointers(ops, trace.blocks[..], Pointers(ops, |ops|, limit, start))
        {
          PointersSame(ops, trace.numIds, limit, trace.blocks[..], start);
          ok := EvalMmSpeed(trace);
        }
      }
    }

    lemma {:induction false} UtilIs(trace: Trace, run: Run, util: Option<real>)
      requires Heap(trace, run) && Replay(trace.ops, |trace.ops|, mm.lib.mem.Length) == Some(run) && mm.lib.brk > 0
      requires exists peak :: IsPeak(trace.ops, |trace.ops|, mm.lib.mem.Length, peak)
                              && util == Some(peak as real / mm.lib.brk as real)
      ensures IsUtil(trace.ops, mm.lib.mem.Length, util)
    {
      hide Replay, IsPeak;
      HeapEnd(trace, run);
    }

    /** The loop over the traces in main: whatever the earlier traces were, each gets its own verdict and
        utilisation. */
    method EvaluateTraces(traces: seq<Trace>, repetitions: nat) returns (vs: seq<Verdict>, utils: seq<Option<real>>)
      requires mm.lib.Valid() && forall t :: t in traces ==> Ready(t)
      modifies mm, mm.lib, mm.lib.mem, ranges, ranges.repr
      modifies set t | t in traces :: t.blocks, set t | t in traces :: t.blockSizes
      ensures |vs| == |utils| == |traces|
      ensures forall i :: 0 <= i < |traces| ==> Evaluated(traces[i], vs[i], utils[i])
    {
      hide IsVerdict, SamePointers, Pointers, IsUtil;
      vs, utils := [], [];
      for i := 0 to |traces|
        invariant mm.lib.Valid() && fresh(ranges.repr - old(ranges.repr))
        invariant |vs| == |utils| == i && forall j :: 0 <= j < i ==> Evaluated(traces[j], vs[j], utils[j])
      {
        assert traces[i] in traces;
        var v, util, ok := EvaluateTrace(traces[i], repetitions);
        vs, utils := vs + [v], utils + [util];
      }
    }

    /** What is stored for a trace: its verdict, and its utilisation if it was accepted. */
    ghost predicate Evaluated(trace: Trace, v: Verdict, util: Option<real>) {
      && IsVerdict(trace.ops, mm.lib.mem.Length, v)
      && if v == Accepted then IsUtil(trace.ops, mm.lib.mem.Length, util) else util == None
    }
  }
}
