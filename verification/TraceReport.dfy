/** What checktrace.pl reports, in terms of the lines it reads: no table and no scanning order. */
module TraceReport {
  import opened CheckTrace

  /** A line that records its command for its id: not blank, and neither realloc nor free. */
  ghost predicate Sets(line: Line) {
    line.cmd != "" && line.cmd != "0" && line.cmd != "r" && line.cmd != "f"
  }

  /** Line k is the last of the first n to record a command for id, and the id is not freed after it. */
  ghost predicate LastSet(lines: seq<Line>, n: nat, id: string, k: int)
    requires n <= |lines|
  {
    && 0 <= k < n && lines[k].id == id && Sets(lines[k])
    && forall j :: k < j < n && lines[j].id == id ==> !Sets(lines[j]) && lines[j].cmd != "f"
  }

  /** After n lines, id is allocated and not freed. */
  ghost predicate Outstanding(lines: seq<Line>, n: nat, id: string)
    requires n <= |lines|
  {
    exists k :: LastSet(lines, n, id, k)
  }

  /** Line n gives reason for a complaint. */
  ghost predicate Refused(lines: seq<Line>, n: nat, why: Complaint)
    requires n < |lines|
  {
    var Line(cmd, id, _) := lines[n];
    match why
    case ReallocWithoutAlloc => cmd == "r" && !Outstanding(lines, n, id)
    case AllocWithoutFree => cmd == "a" && exists k :: LastSet(lines, n, id, k) && lines[k].cmd == "a"
    case FreeUnallocated => cmd == "f" && !Outstanding(lines, n, id)
    case _ => false
  }

  ghost predicate NoneRefused(lines: seq<Line>, n: nat)
    requires n <= |lines|
  {
    forall l, w :: 0 <= l < n ==> !Refused(lines, l, w)
  }

  /** Line m is the first that gives reason for a complaint. */
  ghost predicate FirstRefused(lines: seq<Line>, m: int, why: Complaint) {
    0 <= m < |lines| && Refused(lines, m, why) && NoneRefused(lines, m)
  }

  // ---------- the table ----------

  ghost predicate Matches(lines: seq<Line>, n: nat, table: Table)
    requires n <= |lines|
  {
    && (forall id, k :: LastSet(lines, n, id, k) ==> id in table && table[id] == lines[k].cmd)
    && (forall id :: id in table ==> Outstanding(lines, n, id))
  }

  lemma {:induction false} LastSetStep(lines: seq<Line>, n: nat, id: string, k: int)
    requires n < |lines|
    ensures LastSet(lines, n + 1, id, k) <==>
            if lines[n].id != id then LastSet(lines, n, id, k)
            else if Sets(lines[n]) then k == n
            else lines[n].cmd != "f" && LastSet(lines, n, id, k)
  {
  }

  lemma {:induction false} OutstandingStep(lines: seq<Line>, n: nat, id: string)
    requires n < |lines|
    ensures Outstanding(lines, n + 1, id) <==>
            if lines[n].id != id then Outstanding(lines, n, id)
            else if Sets(lines[n]) then true
            else lines[n].cmd != "f" && Outstanding(lines, n, id)
  {
    hide LastSet;
    LastSetStep(lines, n, id, n);
    if k :| LastSet(lines, n, id, k) {
      LastSetStep(lines, n, id, k);
    }
    var m := n + 1;
    if k :| LastSet(lines, m, id, k) {
      LastSetStep(lines, n, id, k);
    }
  }

  /** One line: a complaint exactly when there is reason for it, and otherwise the table keeps up. */
  lemma {:induction false} LineIs(lines: seq<Line>, n: nat, table: Table)
    requires n < |lines| && Matches(lines, n, table)
    ensures match ScanLine(table, lines[n])
            case Died(why) => Refused(lines, n, why)
            case Scanned(next) => (forall w :: !Refused(lines, n, w)) && Matches(lines, n + 1, next)
  {
    EntryIs(lines, n, table, lines[n].id);
    var scan := ScanLine(table, lines[n]);
    if scan.Scanned? {
      NextMatches(lines, n, table, scan.table);
    }
  }

  /** What the table has for an id. */
  lemma {:induction false} EntryIs(lines: seq<Line>, n: nat, table: Table, id: string)
    requires n <= |lines| && Matches(lines, n, table)
    ensures id in table <==> Outstanding(lines, n, id)
    ensures id in table ==> exists k :: LastSet(lines, n, id, k)
    ensures id in table ==> Truthy(table[id]) && table[id] != "f"
    ensures forall k :: LastSet(lines, n, id, k) ==> table[id] == lines[k].cmd
  {
    if id in table {
      var k :| LastSet(lines, n, id, k);
      assert Sets(lines[k]);
    }
  }

  lemma {:induction false} NextMatches(lines: seq<Line>, n: nat, table: Table, next: Table)
    requires n < |lines| && Matches(lines, n, table) && ScanLine(table, lines[n]) == Scanned(next)
    ensures Matches(lines, n + 1, next)
  {
    TableNext(lines, n, table, next);
    hide ScanLine, LastSet, Sets;
    forall id, k | LastSet(lines, n + 1, id, k)
      ensures id in next && next[id] == lines[k].cmd
    {
      LastSetStep(lines, n, id, k);
    }
    forall id | id in next
      ensures Outstanding(lines, n + 1, id)
    {
      OutstandingStep(lines, n, id);
    }
  }

  lemma {:induction false} TableNext(lines: seq<Line>, n: nat, table: Table, next: Table)
    requires n < |lines| && Matches(lines, n, table) && ScanLine(table, lines[n]) == Scanned(next)
    ensures var line := lines[n];
            next == if Sets(line) then table[line.id := line.cmd] else if line.cmd == "f" then table - {line.id} else table
  {
    EntryIs(lines, n, table, lines[n].id);
    hide Matches, LastSet;
  }

  lemma {:induction false} ScanIs(lines: seq<Line>, n: nat)
    requires n <= |lines|
    ensures match ScanFrom(map[], lines[..n])
            case Died(why) => exists m :: m < n && FirstRefused(lines, m, why)
            case Scanned(table) => Matches(lines, n, table) && NoneRefused(lines, n)
  {
    hide ScanLine, LastSet, Refused;
    if n == 0 {
      assert lines[..0] == [];
      NothingSet(lines);
    } else {
      ScanIs(lines, n - 1);
      ScanStep(lines, n - 1);
      hide ScanFrom;
      var scan := ScanFrom(map[], lines[..n - 1]);
      if scan.Scanned? {
        LineIs(lines, n - 1, scan.table);
        match ScanLine(scan.table, lines[n - 1])
        case Died(why) => assert FirstRefused(lines, n - 1, why);
        case Scanned(_) =>
      }
    }
  }

  lemma {:induction false} NothingSet(lines: seq<Line>)
    ensures Matches(lines, 0, map[]) && NoneRefused(lines, 0)
  {
  }

  // ---------- the report ----------

  lemma {:induction false} OneReason(lines: seq<Line>, m: int, why: Complaint, m': int, why': Complaint)
    requires FirstRefused(lines, m, why) && FirstRefused(lines, m', why')
    ensures m == m' && why == why'
  {
  }

  /** The script dies with a complaint exactly when the first line that gives any reason gives that one.
      Otherwise the summary says whether nothing is outstanding, and the output breaks off exactly when
      something outstanding is not an allocation. */
  lemma {:induction false} ReportIs(lines: seq<Line>, oldNumOps: int, summary: bool, r: Report)
    requires Reports(lines, oldNumOps, summary, r)
    ensures forall why :: r == Report.Died(why) <==> exists m :: FirstRefused(lines, m, why)
    ensures r.Died? <==> !NoneRefused(lines, |lines|)
    ensures r.Summary? ==> summary && (r.balanced <==> forall id :: !Outstanding(lines, |lines|, id))
    ensures r.Broken? || r.Balanced? ==>
              !summary && (r.Broken? <==> exists id, k :: LastSet(lines, |lines|, id, k) && lines[k].cmd != "a")
  {
    hide ScanFrom, LastSet, Refused;
    ScanIs(lines, |lines|);
    assert lines[..|lines|] == lines;
    match ScanFrom(map[], lines)
    case Died(why) =>
      var m :| m < |lines| && FirstRefused(lines, m, why);
      forall w, l | FirstRefused(lines, l, w)
        ensures w == why
      {
        OneReason(lines, m, why, l, w);
      }
    case Scanned(table) =>
      ResidueIs(lines, table);
  }

  lemma {:induction false} ResidueIs(lines: seq<Line>, table: Table)
    requires Matches(lines, |lines|, table)
    ensures table == map[] <==> forall id :: !Outstanding(lines, |lines|, id)
    ensures Residue(table) <==> exists id, k :: LastSet(lines, |lines|, id, k) && lines[k].cmd != "a"
  {
    assert table == map[] <==> forall id :: id !in table;
    forall id
      ensures id in table <==> Outstanding(lines, |lines|, id)
    {
      EntryIs(lines, |lines|, table, id);
    }
    if Residue(table) {
      var id :| id in table && table[id] != "a" && table[id] != "r";
      var k :| LastSet(lines, |lines|, id, k);
      assert lines[k].cmd != "a";
    }
    if id, k :| LastSet(lines, |lines|, id, k) && lines[k].cmd != "a" {
      assert table[id] == lines[k].cmd != "r";
    }
  }

  // ---------- the output ----------

  /** out holds, in order, those of the first n lines that are not blank: line ks[i] is at position i. */
  ghost predicate Picked(lines: seq<Line>, n: nat, out: seq<Line>, ks: seq<nat>)
    requires n <= |lines|
  {
    && |ks| == |out|
    && (forall i :: 0 <= i < |ks| ==> ks[i] < n && out[i] == lines[ks[i]])
    && (forall i, j :: 0 <= i < j < |ks| ==> ks[i] < ks[j])
    && (forall k :: 0 <= k < n ==> (k in ks <==> lines[k].cmd != "" && lines[k].cmd != "0"))
  }

  lemma {:induction false} SavedPicked(lines: seq<Line>, n: nat) returns (ks: seq<nat>)
    requires n <= |lines|
    ensures Picked(lines, n, Saved(lines[..n]), ks)
  {
    if n == 0 {
      ks := [];
    } else {
      ks := SavedPicked(lines, n - 1);
      var saved := Saved(lines[..n - 1]);
      SavedNext(lines, n - 1);
      hide Saved, Picked;
      if lines[n - 1].cmd != "" && lines[n - 1].cmd != "0" {
        PickNext(lines, n - 1, saved, ks);
        ks := ks + [n - 1];
      } else {
        SkipNext(lines, n - 1, saved, ks);
      }
    }
  }

  lemma {:induction false} SkipNext(lines: seq<Line>, n: nat, out: seq<Line>, ks: seq<nat>)
    requires n < |lines| && Picked(lines, n, out, ks) && (lines[n].cmd == "" || lines[n].cmd == "0")
    ensures Picked(lines, n + 1, out, ks)
  {
  }

  lemma {:induction false} SavedNext(lines: seq<Line>, n: nat)
    requires n < |lines|
    ensures Saved(lines[..n + 1]) == if Truthy(lines[n].cmd) then Saved(lines[..n]) + [lines[n]] else Saved(lines[..n])
  {
    assert lines[..n + 1] == lines[..n] + [lines[n]];
    SavedConcat(lines[..n], [lines[n]]);
    assert [lines[n]][1..] == [];
  }

  lemma {:induction false} PickNext(lines: seq<Line>, n: nat, out: seq<Line>, ks: seq<nat>)
    requires n < |lines| && Picked(lines, n, out, ks) && lines[n].cmd != "" && lines[n].cmd != "0"
    ensures Picked(lines, n + 1, out + [lines[n]], ks + [n])
  {
    assert forall k :: k in ks + [n] <==> k in ks || k == n;
  }

  lemma {:induction false} FreesAt(ids: seq<string>)
    ensures |Frees(ids)| == |ids| && forall i :: 0 <= i < |ids| ==> Frees(ids)[i] == Line("f", ids[i], 0)
  {
    if ids != [] {
      FreesAt(ids[1..]);
    }
  }

  /** The output is the lines that are not blank, unchanged and in order, followed by frees of different ids
      that are outstanding: of all of them, unless the output breaks off. */
  lemma {:induction false} OutputIs(lines: seq<Line>, oldNumOps: int, r: Report) returns (ks: seq<nat>, left: set<string>)
    requires Reports(lines, oldNumOps, false, r) && (r.Balanced? || r.Broken?)
    ensures |ks| <= |r.lines| && Picked(lines, |lines|, r.lines[..|ks|], ks)
    ensures forall i :: |ks| <= i < |r.lines| ==> r.lines[i].cmd == "f" && Outstanding(lines, |lines|, r.lines[i].id)
    ensures forall i, j :: |ks| <= i < j < |r.lines| ==> r.lines[i].id != r.lines[j].id
    ensures (forall id :: id in left <==> Outstanding(lines, |lines|, id)) && r.numOps == oldNumOps + |left|
    ensures r.Balanced? ==>
              && (forall id :: id in left ==> exists i :: |ks| <= i < |r.lines| && r.lines[i].id == id)
              && |r.lines| == |ks| + |left|
  {
    hide ScanFrom, Frees, Saved, LastSet, Picked, Refused;
    ScanIs(lines, |lines|);
    assert lines[..|lines|] == lines;
    var table := ScanFrom(map[], lines).table;
    ks := SavedPicked(lines, |lines|);
    assert |ks| == |Saved(lines)| by {
      PickedLength(lines, |lines|, Saved(lines), ks);
    }
    var ids: seq<string> :| r.lines == Saved(lines) + Frees(ids) && if r.Balanced? then Lists(ids, table.Keys) else Printable(table, ids);
    left := table.Keys;
    hide Reports, Outputs;
    Appended(r.lines, Saved(lines), ids);
    ListedOutstanding(lines, table, ids, r.Balanced?);
  }

  lemma {:induction false} PickedLength(lines: seq<Line>, n: nat, out: seq<Line>, ks: seq<nat>)
    requires n <= |lines| && Picked(lines, n, out, ks)
    ensures |ks| == |out|
  {
  }

  lemma {:induction false} Appended(out: seq<Line>, saved: seq<Line>, ids: seq<string>)
    requires out == saved + Frees(ids)
    ensures |out| == |saved| + |ids| && out[..|saved|] == saved
    ensures forall i :: |saved| <= i < |out| ==> out[i] == Line("f", ids[i - |saved|], 0)
    ensures forall j :: 0 <= j < |ids| ==> out[|saved| + j].id == ids[j]
  {
    FreesAt(ids);
  }

  /** The ids that the output loop has printed. */
  lemma {:induction false} ListedOutstanding(lines: seq<Line>, table: Table, ids: seq<string>, all: bool)
    requires Matches(lines, |lines|, table) && if all then Lists(ids, table.Keys) else Printable(table, ids)
    ensures forall i :: 0 <= i < |ids| ==> Outstanding(lines, |lines|, ids[i])
    ensures forall i, j :: 0 <= i < j < |ids| ==> ids[i] != ids[j]
    ensures forall id :: id in table.Keys <==> Outstanding(lines, |lines|, id)
    ensures all ==> |ids| == |table| && forall id :: id in table.Keys ==> exists j :: 0 <= j < |ids| && ids[j] == id
  {
    hide Outstanding;
    forall i | 0 <= i < |ids|
      ensures Outstanding(lines, |lines|, ids[i])
    {
      assert ids[i] in ids;
      EntryIs(lines, |lines|, table, ids[i]);
    }
    forall id
      ensures id in table.Keys <==> Outstanding(lines, |lines|, id)
    {
      EntryIs(lines, |lines|, table, id);
    }
    if all {
      forall id | id in table.Keys
        ensures exists j :: 0 <= j < |ids| && ids[j] == id
      {
        assert id in ids;
      }
    }
  }
}
