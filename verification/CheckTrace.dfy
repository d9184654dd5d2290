/** The trace checker and balancer traces/checktrace.pl. */
module CheckTrace {
  import opened Words
  import opened Blocks
  import opened Allocator
  import opened Traces

  /** A request line, split at blanks: command, id and size (the size of a free is not used). */
  datatype Line = Line(cmd: string, id: string, size: nat)

  datatype Complaint = ReallocWithoutAlloc | AllocWithoutFree | ReusedId | FreeUnallocated | FreeFreed

  /** %HASH: the last command recorded for each outstanding id. */
  type Table = map<string, string>

  datatype Scan = Died(why: Complaint) | Scanned(table: Table)

  /** What the script prints before it exits.  Broken is the output that ends with the complaint about an
      invalid request in the residue. */
  datatype Report =
    | Died(why: Complaint)
    | Summary(balanced: bool)
    | Balanced(numOps: int, lines: seq<Line>)
    | Broken(numOps: int, lines: seq<Line>)

  /** Perl's truth of a string. */
  predicate Truthy(s: string) {
    s != "" && s != "0"
  }

  /** Perl's `!` applied to a string. */
  function Not(s: string): string {
    if Truthy(s) then "" else "1"
  }

  /** One round of the reading loop. */
  function ScanLine(table: Table, line: Line): Scan {
    var Line(cmd, id, _) := line;
    if !Truthy(cmd) then Scanned(table)
    else if cmd == "r" then
      if id !in table || !Truthy(table[id]) then Scan.Died(ReallocWithoutAlloc) else Scanned(table)
    else if cmd == "a" && id in table && table[id] == "a" then Scan.Died(AllocWithoutFree)
    else if cmd == "a" && id in table && table[id] == "f" then Scan.Died(ReusedId)
    else if cmd == "f" && id !in table then Scan.Died(FreeUnallocated)
    else if cmd == "f" && Not(table[id]) == "f" then Scan.Died(FreeFreed)
    else if cmd == "f" then Scanned(table - {id})
    else Scanned(table[id := cmd])
  }

  /** The reading loop on the lines that are left. */
  function ScanFrom(table: Table, lines: seq<Line>): Scan
    decreases |lines|
  {
    if lines == [] then Scanned(table)
    else
      match ScanLine(table, lines[0])
      case Died(why) => Scan.Died(why)
      case Scanned(next) => ScanFrom(next, lines[1..])
  }

  /** The lines that are saved for output: all but blank ones. */
  function Saved(lines: seq<Line>): seq<Line> {
    if lines == [] then []
    else if Truthy(lines[0].cmd) then [lines[0]] + Saved(lines[1..])
    else Saved(lines[1..])
  }

  /** The free requests that are appended for the given ids. */
  function Frees(ids: seq<string>): seq<Line> {
    if ids == [] then [] else [Line("f", ids[0], 0)] + Frees(ids[1..])
  }

  /** ids lists every member of s once. */
  ghost predicate Lists(ids: seq<string>, s: set<string>) {
    && |ids| == |s|
    && (forall id :: id in ids <==> id in s)
    && (forall i, j :: 0 <= i < j < |ids| ==> ids[i] != ids[j])
  }

  /** An outstanding entry that the output loop refuses. */
  predicate Residue(table: Table) {
    exists id :: id in table && table[id] != "a" && table[id] != "r"
  }

  /** Different outstanding entries, none of which the output loop refuses. */
  ghost predicate Printable(table: Table, ids: seq<string>) {
    && (forall id :: id in ids ==> id in table && (table[id] == "a" || table[id] == "r"))
    && (forall i, j :: 0 <= i < j < |ids| ==> ids[i] != ids[j])
  }

  /** What the output loop prints after the saved lines: a free for every outstanding id, or for some
      of them before one is refused.  The frees may come in any order. */
  ghost predicate Outputs(table: Table, saved: seq<Line>, oldNumOps: int, r: Report) {
    if Residue(table) then
      r.Broken? && r.numOps == oldNumOps + |table|
      && exists ids :: Printable(table, ids) && r.lines == saved + Frees(ids)
    else
      r.Balanced? && r.numOps == oldNumOps + |table|
      && exists ids :: Lists(ids, table.Keys) && r.lines == saved + Frees(ids)
  }

  /** The script on a trace whose header says oldNumOps. */
  ghost predicate Reports(lines: seq<Line>, oldNumOps: int, summary: bool, r: Report) {
    match ScanFrom(map[], lines)
    case Died(why) => r == Report.Died(why)
    case Scanned(table) =>
      if summary then r == Summary(table == map[])
      else Outputs(table, Saved(lines), oldNumOps, r)
  }

  /** The main routine. */
  method Check(lines: seq<Line>, oldNumOps: int, summary: bool) returns (r: Report)
    ensures Reports(lines, oldNumOps, summary, r)
  {
    var table: Table := map[];
    var saved: seq<Line> := [];
    for i := 0 to |lines|
      invariant ScanFrom(map[], lines) == ScanFrom(table, lines[i..])
      invariant Saved(lines) == saved + Saved(lines[i..])
    {
      var line := lines[i];
      assert lines[i..][0] == line && lines[i..][1..] == lines[i + 1..];
      var (cmd, id) := (line.cmd, line.id);
      if !Truthy(cmd) {
        continue;
      }
      saved := saved + [line];
      if cmd == "r" {
        if id !in table || !Truthy(table[id]) {
          return Report.Died(ReallocWithoutAlloc);
        }
        continue;
      }
      if cmd == "a" && id in table && table[id] == "a" {
        return Report.Died(AllocWithoutFree);
      }
      if cmd == "a" && id in table && table[id] == "f" {
        return Report.Died(ReusedId);
      }
      if cmd == "f" && id !in table {
        return Report.Died(FreeUnallocated);
      }
      if cmd == "f" && Not(table[id]) == "f" {
        return Report.Died(FreeFreed);
      }
      if cmd == "f" {
        table := table - {id};
      } else {
        table := table[id := cmd];
      }
    }
    assert lines[|lines|..] == [] && saved + [] == saved;
    if summary {
      return Summary(table == map[]);
    }
    r := Balance(table, saved, oldNumOps);
  }

  /** The output of the balanced trace, or what is printed of it before an entry is refused. */
  method Balance(table: Table, saved: seq<Line>, oldNumOps: int) returns (r: Report)
    ensures Outputs(table, saved, oldNumOps, r)
  {
    hide Lists, Frees, Printed, Printable, Residue;
    var newNumOps := oldNumOps + |table|;
    var rest, out := table.Keys, saved;
    ghost var ids: seq<string> := [];
    PrintedNothing(table, saved);
    while rest != {}
      invariant Printed(table, saved, rest, ids, out)
      decreases rest
    {
      var key :| key in rest;
      PrintedSoFar(table, saved, rest, ids, out, key);
      if table[key] != "a" && table[key] != "r" {
        r := Broken(newNumOps, out);
        return;
      }
      out := out + [Line("f", key, 0)];
      ids := ids + [key];
      rest := rest - {key};
    }
    PrintedAll(table, saved, ids, out);
    r := Balanced(newNumOps, out);
  }

  /** The saved lines and frees for ids are printed; the keys in rest are left. */
  ghost predicate Printed(table: Table, saved: seq<Line>, rest: set<string>, ids: seq<string>, out: seq<Line>) {
    && rest <= table.Keys && Lists(ids, table.Keys - rest) && Printable(table, ids)
    && out == saved + Frees(ids)
  }

  lemma {:induction false} PrintedNothing(table: Table, saved: seq<Line>)
    ensures Printed(table, saved, table.Keys, [], saved)
  {
    assert table.Keys - table.Keys == {};
  }

  lemma {:induction false} PrintedSoFar(table: Table, saved: seq<Line>, rest: set<string>, ids: seq<string>, out: seq<Line>, key: string)
    requires Printed(table, saved, rest, ids, out) && key in rest
    ensures key in table && Printable(table, ids) && out == saved + Frees(ids)
    ensures if table[key] == "a" || table[key] == "r"
            then Printed(table, saved, rest - {key}, ids + [key], out + [Line("f", key, 0)])
            else Residue(table)
  {
    hide Frees;
    var done := table.Keys - rest;
    assert table.Keys - (rest - {key}) == done + {key};
    ListsAppend(ids, done, key);
    FreesAppend(ids, key);
    OutAppend(saved, Frees(ids), Line("f", key, 0));
  }

  lemma {:induction false} PrintedAll(table: Table, saved: seq<Line>, ids: seq<string>, out: seq<Line>)
    requires Printed(table, saved, {}, ids, out)
    ensures Lists(ids, table.Keys) && out == saved + Frees(ids) && !Residue(table)
  {
    hide Frees;
    assert table.Keys - {} == table.Keys;
  }

  lemma {:induction false} NothingListed(saved: seq<Line>)
    ensures Lists([], {}) && saved + Frees([]) == saved
  {
  }

  lemma {:induction false} OutAppend(x: seq<Line>, y: seq<Line>, l: Line)
    ensures x + y + [l] == x + (y + [l])
  {
  }

  lemma {:induction false} ListsAppend(ids: seq<string>, s: set<string>, id: string)
    requires Lists(ids, s) && id !in s
    ensures Lists(ids + [id], s + {id})
  {
  }

  lemma {:induction false} FreesAppend(ids: seq<string>, id: string)
    ensures Frees(ids + [id]) == Frees(ids) + [Line("f", id, 0)]
  {
    if ids == [] {
      assert [id][1..] == [] && Frees([id][1..]) == [];
    } else {
      FreesAppend(ids[1..], id);
      assert (ids + [id])[1..] == ids[1..] + [id];
    }
  }

  // ---------- the balanced trace ----------

  lemma {:induction false} ScanConcat(table: Table, a: seq<Line>, b: seq<Line>)
    ensures ScanFrom(table, a + b) ==
            match ScanFrom(table, a)
            case Died(why) => Scan.Died(why)
            case Scanned(next) => ScanFrom(next, b)
    decreases |a|
  {
    if a == [] {
      assert a + b == b;
    } else {
      HeadAndTail(a, b);
      match ScanLine(table, a[0])
      case Died(_) =>
      case Scanned(next) => ScanConcat(next, a[1..], b);
    }
  }

  /** Blank lines make no difference. */
  lemma {:induction false} ScanSaved(table: Table, lines: seq<Line>)
    ensures ScanFrom(table, Saved(lines)) == ScanFrom(table, lines)
    decreases |lines|
  {
    if lines != [] {
      match ScanLine(table, lines[0])
      case Died(_) =>
        assert Truthy(lines[0].cmd);
      case Scanned(next) =>
        ScanSaved(next, lines[1..]);
        if Truthy(lines[0].cmd) {
          assert Saved(lines)[1..] == Saved(lines[1..]);
        }
    }
  }

  lemma {:induction false} SavedConcat(a: seq<Line>, b: seq<Line>)
    ensures Saved(a + b) == Saved(a) + Saved(b)
  {
    if a == [] {
      assert a + b == b;
    } else {
      SavedConcat(a[1..], b);
      HeadAndTail(a, b);
      if Truthy(a[0].cmd) {
        HeadAndTail([a[0]] + Saved(a[1..]), Saved(b));
      }
    }
  }

  lemma {:induction false} SavedTwice(lines: seq<Line>)
    ensures Saved(Saved(lines)) == Saved(lines)
  {
    if lines != [] {
      SavedTwice(lines[1..]);
      if Truthy(lines[0].cmd) {
        assert Saved(lines)[1..] == Saved(lines[1..]);
      }
    }
  }

  lemma {:induction false} SavedFrees(ids: seq<string>)
    ensures Saved(Frees(ids)) == Frees(ids) && |Frees(ids)| == |ids|
  {
    if ids != [] {
      SavedFrees(ids[1..]);
      assert Frees(ids)[1..] == Frees(ids[1..]);
    }
  }

  /** Freeing what is outstanding, in any order, is accepted and leaves nothing outstanding. */
  lemma {:induction false} FreesScan(table: Table, ids: seq<string>)
    requires Lists(ids, table.Keys)
    ensures ScanFrom(table, Frees(ids)) == Scanned(map[])
    decreases |ids|
  {
    if ids == [] {
      assert table == map[];
    } else {
      var rest := table - {ids[0]};
      assert rest.Keys == table.Keys - {ids[0]};
      ListsTail(ids, table.Keys);
      FreesScan(rest, ids[1..]);
      FreeLine(table, ids[0]);
      hide ScanLine;
      assert Frees(ids)[1..] == Frees(ids[1..]);
    }
  }

  lemma {:induction false} ListsTail(ids: seq<string>, s: set<string>)
    requires Lists(ids, s) && ids != []
    ensures Lists(ids[1..], s - {ids[0]})
  {
    var rest := ids[1..];
    assert forall i :: 0 <= i < |rest| ==> rest[i] == ids[i + 1];
    forall id
      ensures id in rest <==> id in s - {ids[0]}
    {
      assert ids == [ids[0]] + rest;
      assert id in ids <==> id == ids[0] || id in rest;
    }
  }

  lemma {:induction false} FreeLine(table: Table, id: string)
    requires id in table
    ensures ScanLine(table, Line("f", id, 0)) == Scanned(table - {id})
  {
  }

  /** A balanced trace has no blank line, is accepted again with nothing outstanding, and a correct
      number of requests in the header stays correct. */
  lemma {:induction false} BalancedScan(lines: seq<Line>, oldNumOps: int, r: Report)
    requires Reports(lines, oldNumOps, false, r) && r.Balanced?
    ensures ScanFrom(map[], r.lines) == Scanned(map[]) && Saved(r.lines) == r.lines
    ensures oldNumOps == |Saved(lines)| ==> r.numOps == |r.lines|
  {
    var table := ScanFrom(map[], lines).table;
    var ids :| Lists(ids, table.Keys) && r.lines == Saved(lines) + Frees(ids);
    ScanSaved(map[], lines);
    ScanConcat(map[], Saved(lines), Frees(ids));
    FreesScan(table, ids);
    SavedConcat(Saved(lines), Frees(ids));
    SavedTwice(lines);
    SavedFrees(ids);
  }

  /** Balancing a balanced trace changes nothing, and its summary says that it is balanced. */
  lemma {:induction false} BalanceTwice(lines: seq<Line>, oldNumOps: int, r: Report, summary: bool, s: Report)
    requires Reports(lines, oldNumOps, false, r) && r.Balanced?
    requires Reports(r.lines, r.numOps, summary, s)
    ensures s == if summary then Summary(true) else r
  {
    BalancedScan(lines, oldNumOps, r);
    if !summary {
      var ids :| Lists(ids, {}) && s.lines == Saved(r.lines) + Frees(ids);
      assert ids == [];
      NothingListed(r.lines);
    }
  }

  /** The checks for a reused id and for a block that is already free never fire: freeing deletes the
      entry, so an id can be allocated again. */
  lemma {:induction false} DeadChecks(table: Table, lines: seq<Line>)
    requires forall id :: id in table ==> table[id] != "f"
    ensures ScanFrom(table, lines) != Scan.Died(ReusedId) && ScanFrom(table, lines) != Scan.Died(FreeFreed)
    decreases |lines|
  {
    if lines != [] && ScanLine(table, lines[0]).Scanned? {
      DeadChecks(ScanLine(table, lines[0]).table, lines[1..]);
    }
  }

  // ---------- what the replayer gets ----------

  function ToOp(line: Line, num: string -> nat): Op {
    if line.cmd == "a" then Alloc(num(line.id), line.size)
    else if line.cmd == "r" then Realloc(num(line.id), line.size)
    else Op.Free(num(line.id))
  }

  /** The requests of a trace whose ids stand for the numbers given by num. */
  function ToOps(lines: seq<Line>, num: string -> nat): (ops: seq<Op>)
    ensures |ops| == |lines|
  {
    seq(|lines|, i requires 0 <= i < |lines| => ToOp(lines[i], num))
  }

  /** Only a, r and f requests; positive int sizes; different ids are different numbers below numIds. */
  ghost predicate Readable(lines: seq<Line>, num: string -> nat, numIds: nat) {
    && (forall i :: 0 <= i < |lines| ==>
          && lines[i].cmd in ["a", "r", "f"] && num(lines[i].id) < numIds
          && (lines[i].cmd != "f" ==> 0 < lines[i].size < TWO_31))
    && (forall i, j :: 0 <= i < |lines| && 0 <= j < |lines| && num(lines[i].id) == num(lines[j].id) ==>
          lines[i].id == lines[j].id)
  }

  /** The table after n lines against the live ids after n requests. */
  ghost predicate Agrees(lines: seq<Line>, num: string -> nat, n: nat, table: Table)
    requires n <= |lines|
  {
    && (forall id :: id in table ==> table[id] == "a" && exists k :: 0 <= k < n && lines[k].id == id)
    && LiveIds(ToOps(lines, num), n) == set id | id in table.Keys :: num(id)
  }

  lemma {:induction false} LineAgrees(lines: seq<Line>, num: string -> nat, numIds: nat, n: nat, table: Table)
    requires Readable(lines, num, numIds) && n < |lines| && Agrees(lines, num, n, table)
    ensures var ops, next := ToOps(lines, num), ScanLine(table, lines[n]);
            && (next.Scanned? <==> ValidOp(ops[n], LiveIds(ops, n), numIds))
            && (next.Scanned? ==> Agrees(lines, num, n + 1, next.table))
  {
    var ops, line := ToOps(lines, num), lines[n];
    assert num(line.id) in LiveIds(ops, n) <==> line.id in table by {
      if num(line.id) in LiveIds(ops, n) {
        var id :| id in table.Keys && num(id) == num(line.id);
        var k :| 0 <= k < n && lines[k].id == id;
        assert lines[k].id == line.id;
      }
    }
    LineValid(line, num, table, LiveIds(ops, n), numIds);
    hide ScanLine, LiveIds, ValidOp, ToOp;
    var next := ScanLine(table, line);
    if next.Scanned? {
      NextAgrees(lines, num, numIds, n, table, next.table);
    }
  }

  lemma {:induction false} LineValid(line: Line, num: string -> nat, table: Table, ids: set<nat>, numIds: nat)
    requires line.cmd in ["a", "r", "f"] && num(line.id) < numIds && (line.cmd != "f" ==> 0 < line.size < TWO_31)
    requires (forall id :: id in table ==> table[id] == "a") && (num(line.id) in ids <==> line.id in table)
    ensures ScanLine(table, line).Scanned? <==> ValidOp(ToOp(line, num), ids, numIds)
  {
  }

  lemma {:induction false} NextAgrees(lines: seq<Line>, num: string -> nat, numIds: nat, n: nat, table: Table, next: Table)
    requires Readable(lines, num, numIds) && n < |lines| && Agrees(lines, num, n, table)
    requires ScanLine(table, lines[n]) == Scanned(next)
    ensures Agrees(lines, num, n + 1, next)
  {
    hide ScanLine, LiveIds, ToOps;
    var line := lines[n];
    TableStep(table, line, next);
    forall id | id in next
      ensures next[id] == "a" && exists k :: 0 <= k < n + 1 && lines[k].id == id
    {
      if id in table {
        var k :| 0 <= k < n && lines[k].id == id;
        assert 0 <= k < n + 1;
      } else {
        assert lines[n].id == id;
      }
    }
    forall id | id in table.Keys && num(id) == num(line.id)
      ensures id == line.id
    {
      var k :| 0 <= k < n && lines[k].id == id;
    }
    LiveStep(lines, num, n);
    ImageStep(table.Keys, next.Keys, num, line);
  }

  /** The table after an accepted request. */
  lemma {:induction false} TableStep(table: Table, line: Line, next: Table)
    requires ScanLine(table, line) == Scanned(next) && line.cmd in ["a", "r", "f"]
    requires forall id :: id in table ==> table[id] == "a"
    ensures line.cmd == "a" ==> next == table[line.id := "a"]
    ensures line.cmd == "r" ==> next == table
    ensures line.cmd == "f" ==> next == table - {line.id}
  {
  }

  lemma {:induction false} LiveStep(lines: seq<Line>, num: string -> nat, n: nat)
    requires n < |lines| && lines[n].cmd in ["a", "r", "f"]
    ensures var ids, ids', i := LiveIds(ToOps(lines, num), n), LiveIds(ToOps(lines, num), n + 1), num(lines[n].id);
            && (lines[n].cmd == "a" ==> ids' == ids + {i})
            && (lines[n].cmd == "r" ==> ids' == ids)
            && (lines[n].cmd == "f" ==> ids' == ids - {i})
  {
  }

  lemma {:induction false} ImageStep(keys: set<string>, keys': set<string>, num: string -> nat, line: Line)
    requires forall id :: id in keys && num(id) == num(line.id) ==> id == line.id
    ensures var live, live' := set id | id in keys :: num(id), set id | id in keys' :: num(id);
            && (keys' == keys + {line.id} ==> live' == live + {num(line.id)})
            && (keys' == keys - {line.id} ==> live' == live - {num(line.id)})
  {
  }

  /** checktrace.pl accepts a readable trace exactly when it is well formed for the replayer; what is
      outstanding then are the live ids. */
  lemma {:induction false} AcceptsWellFormed(lines: seq<Line>, num: string -> nat, numIds: nat)
    requires Readable(lines, num, numIds)
    ensures ScanFrom(map[], lines).Scanned? <==> WellFormedTrace(ToOps(lines, num), numIds)
    ensures ScanFrom(map[], lines).Scanned? ==>
              LiveIds(ToOps(lines, num), |lines|) == set id | id in ScanFrom(map[], lines).table.Keys :: num(id)
  {
    PrefixAgrees(lines, num, numIds, |lines|);
    assert lines[..|lines|] == lines;
  }

  ghost predicate ValidUpTo(ops: seq<Op>, n: nat, numIds: nat)
    requires n <= |ops|
  {
    forall k :: 0 <= k < n ==> ValidOp(ops[k], LiveIds(ops, k), numIds)
  }

  lemma {:induction false} ValidStep(ops: seq<Op>, n: nat, numIds: nat)
    requires n < |ops|
    ensures ValidUpTo(ops, n + 1, numIds) <==> ValidUpTo(ops, n, numIds) && ValidOp(ops[n], LiveIds(ops, n), numIds)
  {
    hide ValidOp, LiveIds;
  }

  lemma {:induction false} NothingYet(lines: seq<Line>, num: string -> nat, numIds: nat)
    ensures ScanFrom(map[], lines[..0]) == Scanned(map[])
    ensures ValidUpTo(ToOps(lines, num), 0, numIds) && Agrees(lines, num, 0, map[])
  {
    var keys: set<string> := {};
    assert (set id | id in keys :: num(id)) == {};
  }

  lemma {:induction false} ScanStep(lines: seq<Line>, n: nat)
    requires n < |lines|
    ensures ScanFrom(map[], lines[..n + 1]) ==
            match ScanFrom(map[], lines[..n])
            case Died(why) => Scan.Died(why)
            case Scanned(table) => ScanLine(table, lines[n])
  {
    hide ScanLine;
    assert lines[..n + 1] == lines[..n] + [lines[n]];
    ScanConcat(map[], lines[..n], [lines[n]]);
    var scan := ScanFrom(map[], lines[..n]);
    if scan.Scanned? {
      ScanOne(scan.table, lines[n]);
    }
  }

  lemma {:induction false} PrefixAgrees(lines: seq<Line>, num: string -> nat, numIds: nat, n: nat)
    requires Readable(lines, num, numIds) && n <= |lines|
    ensures var ops, scan := ToOps(lines, num), ScanFrom(map[], lines[..n]);
            && (scan.Scanned? <==> ValidUpTo(ops, n, numIds))
            && (scan.Scanned? ==> Agrees(lines, num, n, scan.table))
  {
    hide ScanLine, ScanFrom, ValidOp, ValidUpTo, LiveIds, Readable, ToOps, Agrees;
    if n == 0 {
      NothingYet(lines, num, numIds);
    } else {
      PrefixAgrees(lines, num, numIds, n - 1);
      ScanStep(lines, n - 1);
      ValidStep(ToOps(lines, num), n - 1, numIds);
      var scan := ScanFrom(map[], lines[..n - 1]);
      if scan.Scanned? {
        LineAgrees(lines, num, numIds, n - 1, scan.table);
      }
    }
  }

  lemma {:induction false} ScanOne(table: Table, line: Line)
    ensures ScanFrom(table, [line]) == ScanLine(table, line)
  {
    assert [line][1..] == [];
  }

  lemma {:induction false} NoIds(num: string -> nat)
    ensures var keys: set<string> := {}; (set id | id in keys :: num(id)) == {}
  {
  }

  /** A balanced trace, replayed without running out of heap, leaves one free block. */
  lemma {:induction false} BalancedRunEmpties(lines: seq<Line>, oldNumOps: int, r: Report, num: string -> nat, numIds: nat, limit: nat)
    requires Reports(lines, oldNumOps, false, r) && r.Balanced? && Readable(r.lines, num, numIds)
    ensures WellFormedTrace(ToOps(r.lines, num), numIds)
    ensures var end := Replay(ToOps(r.lines, num), |r.lines|, limit);
            end.Some? ==>
              && end.value.blocks != [] && INITIAL <= Brk(end.value.blocks)
              && end.value.blocks == [PROLOGUE, Block(INITIAL, Brk(end.value.blocks) - INITIAL, false)]
  {
    hide Replay, WellFormedTrace, Readable, ToOps, LiveIds, Saved;
    BalancedScan(lines, oldNumOps, r);
    AcceptsWellFormed(r.lines, num, numIds);
    hide Reports, ScanFrom;
    NoIds(num);
    if Replay(ToOps(r.lines, num), |r.lines|, limit).Some? {
      AllFreed(ToOps(r.lines, num), numIds, limit);
    }
  }
}
