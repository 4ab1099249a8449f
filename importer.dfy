/** The ImportPayPal class of importer.py: the import of one PayPal CSV export into the
    database, run step by step against a Database object. Each method is proved against the
    matching function of ImportSpec, where the properties of the import are proved. */
module Importer {
  import opened Wrappers
  import opened Tables
  import opened Database
  import opened ImportSpec

  /** The record _read_file builds from one data line, field by field: each field goes under
      its legend name and the five flags are (re)set to false after it. A field past the end
      of the legend raises. */
  method BuildRecord(line: seq<string>) returns (r: Option<Row>)
    ensures r == RecordOf(line)
  {
    var rec: Row := map[];
    var j := 0;
    while j < |line|
      invariant 0 <= j <= |line|
      invariant RecordFrom(line, j, rec) == RecordOf(line)
    {
      if j >= |Legend| {
        return None;
      }
      rec := rec[Legend[j] := Str(line[j])];
      rec := rec + Unflagged;
      j := j + 1;
    }
    return Some(rec);
  }

  class ImportPayPal {
    const fname: string
    /** The database the rows go to (the source fetches its single instance). */
    const data: Database
    var accepted: nat
    var rejected: nat
    /** The popups shown so far, in order. */
    var notices: seq<Notice>

    constructor (fname: string, data: Database)
      ensures this.fname == fname && this.data == data
      ensures accepted == 0 && rejected == 0 && notices == []
    {
      this.fname := fname;
      this.data := data;
      accepted := 0;
      rejected := 0;
      notices := [];
    }

    /** _read_file: checks the header, then reads the data lines. */
    method ReadFile(file: Option<seq<seq<string>>>) returns (ok: bool)
      modifies this, data
      ensures Loaded(data.db, accepted, rejected, ok) ==
        ImportSpec.ReadFile(old(data.db), file, old(accepted), old(rejected))
      ensures notices == old(notices)
    {
      if file.None? || file.value == [] || !IsHeader(file.value[0]) {
        return false;
      }
      ok := ReadLines(file.value[1..]);
    }

    /** The data-line loop of _read_file: stores each line whose TransactionID is new and
        counts it as accepted, or counts it as rejected. */
    method ReadLines(lines: seq<seq<string>>) returns (ok: bool)
      modifies this, data
      ensures Loaded(data.db, accepted, rejected, ok) ==
        ReadRows(old(data.db), lines, old(accepted), old(rejected))
      ensures notices == old(notices)
    {
      ghost var goal := ReadRows(data.db, lines, accepted, rejected);
      var i := 0;
      while i < |lines|
        invariant 0 <= i <= |lines|
        invariant ReadRows(data.db, lines[i..], accepted, rejected) == goal
        invariant notices == old(notices)
      {
        ghost var s := data.db;
        ReadStep(s, lines, i, accepted, rejected);
        var rec := BuildRecord(lines[i]);
        if rec.None? || TxId !in rec.value {
          return false;
        }
        if !IfRecExists(data.db, Raw, TxId, rec.value[TxId]) {
          var _ := data.InsertRow(Raw, rec.value);
          accepted := accepted + 1;
        } else {
          rejected := rejected + 1;
        }
        i := i + 1;
      }
      return true;
    }

    /** Sets the flag `f` of the raw row `x`; fails where the row's ID is not an integer. */
    method MarkRow(f: string, x: Row, inserted: bool) returns (ok: bool)
      modifies data
      ensures Step(data.db, inserted, ok) == FlagRow(old(data.db), f, x, inserted)
    {
      if Col(x, ID).Int? {
        data.UpdateRowById(Raw, map[f := Bool(true)], Col(x, ID).i);
        return true;
      }
      return false;
    }

    /** The body of a pass's loop for one raw row: add the record the pass builds from it,
        if any, then flag the row where the pass does. */
    method HandleRow(st: Stage, x: Row) returns (inserted: bool, ok: bool)
      modifies data
      ensures Step(data.db, inserted, ok) == StepAt(data.numbers, st, old(data.db), x)
    {
      match Addition(data.numbers, st, data.db, x)
      case Failure(_) =>
        inserted, ok := false, false;
      case Success(None) =>
        inserted, ok := false, true;
        if Marks(st, x) {
          ok := MarkRow(Flag(st), x, false);
        }
      case Success(Some(rec)) =>
        var _ := data.InsertRow(Target(st), rec);
        inserted := true;
        ok := MarkRow(Flag(st), x, true);
    }

    /** One pass: fetch the pending raw rows, report when there are none, and handle them. */
    method RunPass(st: Stage) returns (count: nat, ok: bool)
      modifies this, data
      ensures Pass(data.db, count, ok) == RunStage(data.numbers, st, old(data.db))
      ensures notices == old(notices) + StageNotices(st, old(data.db))
      ensures accepted == old(accepted) && rejected == old(rejected)
    {
      var pending := GetRowList(data.db, Raw, Pending(st));
      if pending.None? {
        notices := notices + EmptyNotice(st);
        return 0, true;
      }
      count, ok := HandleRows(st, pending.value);
    }

    /** The loop of a pass: handle each row in turn, counting the records added; a row that
        raises ends the pass. */
    method HandleRows(st: Stage, xs: seq<Row>) returns (count: nat, ok: bool)
      modifies data
      ensures Pass(data.db, count, ok) == ImportSpec.RunPass(data.numbers, st, xs, old(data.db), 0)
    {
      ghost var goal := ImportSpec.RunPass(data.numbers, st, xs, data.db, 0);
      count := 0;
      var i := 0;
      while i < |xs|
        invariant 0 <= i <= |xs|
        invariant ImportSpec.RunPass(data.numbers, st, xs[i..], data.db, count) == goal
      {
        count, ok := Turn(st, xs, i, count, goal);
        if !ok {
          return;
        }
        i := i + 1;
      }
      assert xs[i..] == [];
      return count, true;
    }

    /** One turn of the loop of a pass, on row `i`: the rest of the pass still comes to
        `goal`, or this row ended it with that outcome. */
    method Turn(st: Stage, xs: seq<Row>, i: nat, count: nat, ghost goal: Pass) returns (count': nat, ok: bool)
      requires i < |xs| && ImportSpec.RunPass(data.numbers, st, xs[i..], data.db, count) == goal
      modifies data
      ensures !ok ==> Pass(data.db, count', false) == goal
      ensures ok ==> ImportSpec.RunPass(data.numbers, st, xs[i + 1..], data.db, count') == goal
    {
      ghost var s := data.db;
      var inserted;
      inserted, ok := HandleRow(st, xs[i]);
      PassStep(data.numbers, st, xs, i, s, count, data.db, inserted, ok);
      count' := if ok && inserted then count + 1 else count;
    }

    /** The five passes of import_all, in their fixed order; the first that raises ends
        the run. Yields the count each pass returned. `asWritten` picks the vendor pass. */
    method RunPasses(asWritten: bool) returns (counts: seq<nat>, ok: bool)
      modifies this, data
      ensures var g := ImportPasses(data.numbers, asWritten, old(data.db));
        data.db == g.store && ok == g.ok && counts == g.counts && notices == old(notices) + g.notices
      ensures accepted == old(accepted) && rejected == old(rejected)
    {
      ghost var n := notices;
      ghost var s := data.db;
      var c;
      counts := [];
      c, ok := RunPass(Countries);
      ghost var ns := StageNotices(Countries, s);
      if !ok {
        return;
      }
      counts := [c];
      s := data.db;
      c, ok := RunPass(Customers);
      Concat(n, ns, StageNotices(Customers, s));
      ns := ns + StageNotices(Customers, s);
      if !ok {
        return;
      }
      counts := counts + [c];
      s := data.db;
      c, ok := RunPass(VendorPass(asWritten));
      Concat(n, ns, StageNotices(VendorPass(asWritten), s));
      ns := ns + StageNotices(VendorPass(asWritten), s);
      if !ok {
        return;
      }
      counts := counts + [c];
      s := data.db;
      c, ok := RunPass(Sales);
      Concat(n, ns, StageNotices(Sales, s));
      ns := ns + StageNotices(Sales, s);
      if !ok {
        return;
      }
      counts := counts + [c];
      s := data.db;
      c, ok := RunPass(Purchases);
      Concat(n, ns, StageNotices(Purchases, s));
      if ok {
        counts := counts + [c];
      }
    }

    /** import_all: read the file, run the five passes, then show the totals; the first
        failure shows the single error popup instead. */
    method ImportAll(file: Option<seq<seq<string>>>, asWritten: bool)
      modifies this, data
      ensures var r := ImportSpec.ImportAll(data.numbers, asWritten, fname, file, old(data.db), old(accepted), old(rejected));
        data.db == r.store && accepted == r.accepted && rejected == r.rejected &&
        notices == old(notices) + r.notices
    {
      var read := ReadFile(file);
      if !read {
        notices := notices + [CouldNotImport(fname)];
        return;
      }
      ghost var n, s := notices, data.db;
      var counts, ok := RunPasses(asWritten);
      ghost var ns := ImportPasses(data.numbers, asWritten, s).notices;
      if !ok || |counts| != 5 {
        Concat(n, ns, [CouldNotImport(fname)]);
        notices := notices + [CouldNotImport(fname)];
        return;
      }
      var closing := Imported(counts[0], counts[1], counts[2], counts[3], counts[4], accepted, rejected);
      Concat(n, ns, [closing]);
      notices := notices + [closing];
    }
  }

  lemma Concat<T>(a: seq<T>, b: seq<T>, c: seq<T>)
    ensures a + b + c == a + (b + c)
  {
  }
}
