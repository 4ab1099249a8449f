/** The layout and record navigation of the Form class of forms.py. Widgets are recorded by
    where they are placed; dialogs are recorded as events, and the answers the user gives
    to them are parameters. */
module Forms {
  import opened Wrappers
  import opened Tables
  import opened Database

  // ---------------------------------------------------------------------------------------
  // Layout

  /** The width of the control itself for a control spanning `cols` form columns: a control
      narrower than the form gives up `fudge` for its label. */
  function Width(columnWidth: int, fudge: int, columns: int, cols: int): int {
    if cols < columns then columnWidth * cols - fudge else columnWidth * cols
  }

  /** With a fudge no larger than a column, a wider control is never given less room, and
      only a control narrower than the form loses the fudge. */
  lemma WidthGrows(columnWidth: int, fudge: int, columns: int, a: int, b: int)
    requires 0 <= fudge <= columnWidth && a <= b
    ensures Width(columnWidth, fudge, columns, a) <= Width(columnWidth, fudge, columns, b)
    ensures Width(columnWidth, fudge, columns, a) + fudge == columnWidth * a <==>
      a < columns || fudge == 0
  {
    if a < b {
      MulAtLeast(columnWidth, b - a);
      assert columnWidth * b == columnWidth * a + columnWidth * (b - a);
    }
  }

  lemma {:induction false} MulAtLeast(x: int, k: int)
    requires x >= 0 && k >= 1
    ensures x * k >= x
    decreases k
  {
    if k > 1 {
      MulAtLeast(x, k - 1);
      assert x * k == x * (k - 1) + x;
    }
  }

  /** Where _grid leaves the cursor (`row`, `col`) after placing a control `cols` wide. */
  function GridStep(columns: int, row: int, col: int, cols: int): (int, int) {
    if cols == columns then (row + 1, 0)
    else if col >= columns - 1 then (row + 1, 0)
    else (row, col + 1)
  }

  /** The cursor stays inside the form: from any column, with at least one column, the next
      column is one of the form's. */
  lemma GridKeepsColumn(columns: int, row: int, col: int, cols: int)
    requires columns >= 1 && col >= 0
    ensures 0 <= GridStep(columns, row, col, cols).1 < columns
  {
  }

  /** A full-width control takes the whole row; any other moves one column right, or opens
      the next row when it filled the last column. Rows are never revisited. */
  lemma GridRows(columns: int, row: int, col: int, cols: int)
    ensures var (r, c) := GridStep(columns, row, col, cols);
      row <= r <= row + 1 &&
      (cols == columns ==> r == row + 1 && c == 0) &&
      (cols != columns ==>
        (col < columns - 1 ==> r == row && c == col + 1) &&
        (col >= columns - 1 ==> r == row + 1 && c == 0))
  {
  }

  // ---------------------------------------------------------------------------------------
  // Buttons

  /** What a button does when pressed; `Given` is a callback supplied by the caller. */
  datatype Command =
    | NextRecord | PrevRecord | ClearForm | SaveRecord | DeleteRecord
    | EditRecord(id: Val)
    | SelectRecord(column: string)
    | EditText(table: Option<string>, column: string, id: Val, thing: string)
    | Given(handle: nat)

  /** An entry of the button panel, in the row it was placed in. */
  datatype Button = Button(row: int, name: string, command: Command) | Spacer(row: int)

  /** The names add_std_button knows without a command. */
  const StdNames: set<string> := {"Next", "Prev", "Clear", "Save", "Delete", "Edit", "Select"}

  /** The command add_std_button gives the button `name`. The Edit button captures the ID
      of the record shown when it is made. */
  function StdCommand(name: string, column: Option<string>, command: Option<nat>,
                      rowList: Option<seq<Val>>, rowIndex: int): (r: Result<Command, string>)
    ensures command.Some? ==> r == Success(Given(command.value))
    ensures r.Failure? <==> (command.None? &&
      (name !in StdNames || (name == "Select" && column.None?) ||
       (name == "Edit" && !(rowList.Some? && InRange(rowIndex, |rowList.value|)))))
    ensures r.Success? && command.None? && name == "Edit" ==>
      r.value == EditRecord(rowList.value[Slot(rowIndex, |rowList.value|)])
  {
    if command.Some? then Success(Given(command.value))
    else if name == "Next" then Success(NextRecord)
    else if name == "Prev" then Success(PrevRecord)
    else if name == "Clear" then Success(ClearForm)
    else if name == "Save" then Success(SaveRecord)
    else if name == "Delete" then Success(DeleteRecord)
    else if name == "Edit" then
      if rowList.Some? && InRange(rowIndex, |rowList.value|)
      then Success(EditRecord(rowList.value[Slot(rowIndex, |rowList.value|)]))
      else Failure("the record list cannot be indexed")
    else if name == "Select" then
      if column.None? then Failure("Select button requires a column to be specified.")
      else Success(SelectRecord(column.value))
    else Failure("Cannot add button. Unknown name and no command to exec.")
  }

  /** The button name a standard command answers to. */
  function StdName(c: Command): string {
    match c
    case NextRecord => "Next"
    case PrevRecord => "Prev"
    case ClearForm => "Clear"
    case SaveRecord => "Save"
    case DeleteRecord => "Delete"
    case EditRecord(_) => "Edit"
    case SelectRecord(_) => "Select"
    case EditText(_, _, _, _) => ""
    case Given(_) => ""
  }

  /** The dispatch gives each name its own handler: the name is recovered from the command,
      so no two standard buttons share a handler. */
  lemma StdCommandNamed(name: string, column: Option<string>, rowList: Option<seq<Val>>, rowIndex: int)
    requires StdCommand(name, column, None, rowList, rowIndex).Success?
    ensures StdName(StdCommand(name, column, None, rowList, rowIndex).value) == name
    ensures name in StdNames
  {
  }

  // ---------------------------------------------------------------------------------------
  // Navigation

  /** The dialogs and loads a form records. */
  datatype Event = Shown(title: string) | Loaded(id: Val)

  /** load_form: with no records it says so; otherwise each control is loaded from the
      record at `row_index`, which raises when that is not a position of the list. A list
      of None raises at once. */
  function LoadOutcome(rowList: Option<seq<Val>>, rowIndex: int, controls: nat): (r: Result<seq<Event>, string>)
    ensures r.Failure? <==> (rowList.None? ||
      (|rowList.value| > 0 && controls > 0 && !InRange(rowIndex, |rowList.value|)))
    ensures r.Success? && rowList.value == [] ==> r.value == [Shown("Records")]
    ensures r.Success? && rowList.value != [] && controls > 0 ==>
      r.value == [Loaded(rowList.value[Slot(rowIndex, |rowList.value|)])]
  {
    if rowList.None? then Failure("object of type 'NoneType' has no len()")
    else if |rowList.value| == 0 then Success([Shown("Records")])
    else if controls == 0 then Success([])
    else if InRange(rowIndex, |rowList.value|) then
      Success([Loaded(rowList.value[Slot(rowIndex, |rowList.value|)])])
    else Failure("list index out of range")
  }

  /** How the Delete button moves `row_index` as written: down only when it is past the
      length of the new list. */
  function DeleteIndexAsWritten(rowIndex: int, n: nat): int {
    if rowIndex > n then rowIndex - 1 else rowIndex
  }

  /** How the Delete button moves `row_index`, as intended: down whenever it is no longer a
      position of the new list. */
  function DeleteIndex(rowIndex: int, n: nat): int {
    if rowIndex >= n then rowIndex - 1 else rowIndex
  }

  /** When the deletion removed at most one record, the record shown before it still
      indexes the new list, so the load that follows succeeds. */
  lemma DeleteIndexInRange(rowIndex: int, list: seq<Val>, controls: nat)
    requires 0 <= rowIndex <= |list| && |list| >= 1
    ensures 0 <= DeleteIndex(rowIndex, |list|) < |list|
    ensures LoadOutcome(Some(list), DeleteIndex(rowIndex, |list|), controls).Success?
  {
  }

  /** The Delete button can delete: there is a record at `row_index`, a table, and the
      record's ID is an integer for the `%d` of delete_row. */
  predicate Deletable(rowList: Option<seq<Val>>, rowIndex: int, table: Option<string>) {
    rowList.Some? && InRange(rowIndex, |rowList.value|) && table.Some? &&
    rowList.value[Slot(rowIndex, |rowList.value|)].Int?
  }

  /** In a soundly numbered store, deleting the record at position `k` of a table's ID list
      shortens that list by exactly one. */
  lemma DeleteShrinksList(s: Store, t: string, k: nat)
    requires WellNumbered(s) && k < |GetIdList(s, t, None)|
    ensures GetIdList(s, t, None)[k].Int?
    ensures |GetIdList(Deleted(s, t, GetIdList(s, t, None)[k].i), t, None)| ==
      |GetIdList(s, t, None)| - 1
  {
    var rows := Rows(s, t);
    assert t in s.tables && rows == s.tables[t];
    var id := Col(rows[k], ID).i;
    DeleteOnce(rows, id, k);
  }

  /** With the intended index update, deleting the record shown leaves the form on a record
      of the new list (or on none when the list is empty), and the load succeeds. */
  lemma DeleteKeepsPosition(s: Store, t: string, k: nat, controls: nat)
    requires WellNumbered(s) && k < |GetIdList(s, t, None)|
    ensures GetIdList(s, t, None)[k].Int?
    ensures var l := GetIdList(Deleted(s, t, GetIdList(s, t, None)[k].i), t, None);
      (l != [] ==> 0 <= DeleteIndex(k, |l|) < |l|) &&
      LoadOutcome(Some(l), DeleteIndex(k, |l|), controls).Success?
  {
    DeleteShrinksList(s, t, k);
    var l := GetIdList(Deleted(s, t, GetIdList(s, t, None)[k].i), t, None);
    if l != [] {
      DeleteIndexInRange(k, l, controls);
    }
  }

  /** As written, deleting the last of two or more records leaves `row_index` one past the
      end of the new list, and the load that follows raises as soon as the form has a
      control. */
  lemma DeleteLastAsWritten(s: Store, t: string, controls: nat)
    requires WellNumbered(s) && |GetIdList(s, t, None)| >= 2 && controls >= 1
    ensures var n := |GetIdList(s, t, None)|;
      GetIdList(s, t, None)[n - 1].Int? &&
      var l := GetIdList(Deleted(s, t, GetIdList(s, t, None)[n - 1].i), t, None);
      DeleteIndexAsWritten(n - 1, |l|) == |l| &&
      LoadOutcome(Some(l), DeleteIndexAsWritten(n - 1, |l|), controls).Failure?
  {
    DeleteShrinksList(s, t, |GetIdList(s, t, None)| - 1);
  }

  class Form {
    /** The database the form reads and deletes from (the source fetches its single instance). */
    const data: Database
    const table: Option<string>
    /** The layout cursor. */
    var row: int
    var col: int
    var columns: int
    var columnWidth: int
    var columnFudge: int
    /** Where each control and spacer was placed, as (row, column, span). */
    var placed: seq<(int, int, int)>
    /** The length of `ctl_list`. */
    var controls: nat
    /** The button panel. */
    var btnRow: int
    var buttons: seq<Button>
    /** The records the form steps through, and the one shown. */
    var rowList: Option<seq<Val>>
    var rowIndex: int
    var events: seq<Event>

    /** The cursor is inside the form, and each button sits in its own row, in order. */
    predicate Valid()
      reads this
    {
      columns >= 1 && row >= 0 && 0 <= col < columns &&
      btnRow == |buttons| && forall k :: 0 <= k < |buttons| ==> buttons[k].row == k
    }

    /** Whenever there are records, `row_index` is the position of one of them. */
    predicate Positioned()
      reads this
    {
      rowList.Some? && |rowList.value| > 0 ==> 0 <= rowIndex < |rowList.value|
    }

    /** A form over `table` (or over none), its list of records being the IDs of the table. */
    constructor (data: Database, table: Option<string>)
      ensures this.data == data && this.table == table
      ensures Valid() && Positioned()
      ensures row == 0 && col == 0 && columns == 2 && columnWidth == 35 && columnFudge == 9
      ensures btnRow == 0 && buttons == [] && placed == [] && controls == 0 && events == []
      ensures rowIndex == 0
      ensures rowList == if table.Some? then Some(GetIdList(data.db, table.value, None)) else None
    {
      this.data := data;
      this.table := table;
      row, col := 0, 0;
      columns, columnWidth, columnFudge := 2, 35, 9;
      placed, controls := [], 0;
      btnRow, buttons := 0, [];
      rowList := if table.Some? then Some(GetIdList(data.db, table.value, None)) else None;
      rowIndex := 0;
      events := [];
    }

    /** _grid: places a control `cols` wide at the cursor and moves the cursor on. */
    method Grid(cols: int)
      requires Valid()
      modifies this
      ensures placed == old(placed) + [(old(row), old(col), if cols == columns then columns else cols)]
      ensures (row, col) == GridStep(columns, old(row), old(col), cols)
      ensures Valid() && row >= old(row)
      ensures controls == old(controls) && buttons == old(buttons) && btnRow == old(btnRow)
      ensures columns == old(columns) && columnWidth == old(columnWidth) && columnFudge == old(columnFudge)
      ensures rowList == old(rowList) && rowIndex == old(rowIndex) && events == old(events)
    {
      GridKeepsColumn(columns, row, col, cols);
      if cols == columns {
        placed := placed + [(row, col, columns)];
        row := row + 1;
        col := 0;
      } else if col >= columns - 1 {
        placed := placed + [(row, col, cols)];
        col := 0;
        row := row + 1;
      } else {
        placed := placed + [(row, col, cols)];
        col := col + 1;
      }
    }

    /** add_title: a title across the whole form; the row advances but the column stays. */
    method AddTitle()
      requires Valid()
      modifies this
      ensures placed == old(placed) + [(old(row), old(col), columns)]
      ensures row == old(row) + 1 && col == old(col) && controls == old(controls) + 1
      ensures Valid()
      ensures buttons == old(buttons) && btnRow == old(btnRow)
      ensures columns == old(columns) && columnWidth == old(columnWidth) && columnFudge == old(columnFudge)
      ensures rowList == old(rowList) && rowIndex == old(rowIndex) && events == old(events)
    {
      placed := placed + [(row, col, columns)];
      row := row + 1;
      controls := controls + 1;
    }

    /** add_entry, add_combo, add_text, add_indirect_label and add_dynamic_label: a control
        of the width _get_width gives, placed by _grid and added to the controls. */
    method AddControl(cols: int) returns (width: int)
      requires Valid()
      modifies this
      ensures width == Width(old(columnWidth), old(columnFudge), old(columns), cols)
      ensures placed == old(placed) + [(old(row), old(col), if cols == columns then columns else cols)]
      ensures (row, col) == GridStep(columns, old(row), old(col), cols)
      ensures controls == old(controls) + 1 && Valid() && row >= old(row)
      ensures buttons == old(buttons) && btnRow == old(btnRow)
      ensures columns == old(columns) && columnWidth == old(columnWidth) && columnFudge == old(columnFudge)
      ensures rowList == old(rowList) && rowIndex == old(rowIndex) && events == old(events)
    {
      width := columnWidth * cols;
      if cols < columns {
        width := width - columnFudge;
      }
      Grid(cols);
      controls := controls + 1;
    }

    /** add_spacer: an empty frame placed by _grid; it is not a control. */
    method AddSpacer(cols: int)
      requires Valid()
      modifies this
      ensures placed == old(placed) + [(old(row), old(col), if cols == columns then columns else cols)]
      ensures (row, col) == GridStep(columns, old(row), old(col), cols)
      ensures controls == old(controls) && Valid() && row >= old(row)
      ensures buttons == old(buttons) && btnRow == old(btnRow)
      ensures columns == old(columns) && columnWidth == old(columnWidth) && columnFudge == old(columnFudge)
      ensures rowList == old(rowList) && rowIndex == old(rowIndex) && events == old(events)
    {
      Grid(cols);
    }

    /** add_std_button: a button with the given or the standard command for its name in the
        next button row; `ok` is false where the source raises, and then nothing changes. */
    method AddStdButton(name: string, column: Option<string>, command: Option<nat>) returns (ok: bool)
      requires Valid()
      modifies this
      ensures var c := StdCommand(name, column, command, old(rowList), old(rowIndex));
        ok == c.Success? &&
        (ok ==> buttons == old(buttons) + [Button(old(btnRow), name, c.value)] && btnRow == old(btnRow) + 1) &&
        (!ok ==> buttons == old(buttons) && btnRow == old(btnRow))
      ensures Valid()
      ensures row == old(row) && col == old(col) && placed == old(placed) && controls == old(controls)
      ensures columns == old(columns) && columnWidth == old(columnWidth) && columnFudge == old(columnFudge)
      ensures rowList == old(rowList) && rowIndex == old(rowIndex) && events == old(events)
    {
      var c := StdCommand(name, column, command, rowList, rowIndex);
      if c.Failure? {
        return false;
      }
      buttons := buttons + [Button(btnRow, name, c.value)];
      btnRow := btnRow + 1;
      return true;
    }

    /** add_edit_button: a button editing `column` of the record shown when it is made (ID 0
        when there are no records); a list of None, or an index off the list, raises. */
    method AddEditButton(name: string, column: string, thing: string) returns (ok: bool)
      requires Valid()
      modifies this
      ensures ok <==> rowList.Some? && (rowList.value == [] || InRange(rowIndex, |rowList.value|))
      ensures ok ==> (btnRow == old(btnRow) + 1 && buttons == old(buttons) +
        [Button(old(btnRow), name, EditText(table, column,
           if rowList.value == [] then Int(0) else rowList.value[Slot(rowIndex, |rowList.value|)], thing))])
      ensures !ok ==> buttons == old(buttons) && btnRow == old(btnRow)
      ensures Valid()
      ensures row == old(row) && col == old(col) && placed == old(placed) && controls == old(controls)
      ensures columns == old(columns) && columnWidth == old(columnWidth) && columnFudge == old(columnFudge)
      ensures rowList == old(rowList) && rowIndex == old(rowIndex) && events == old(events)
    {
      if rowList.None? {
        return false;
      }
      var index;
      if |rowList.value| == 0 {
        index := Int(0);
      } else if InRange(rowIndex, |rowList.value|) {
        index := rowList.value[Slot(rowIndex, |rowList.value|)];
      } else {
        return false;
      }
      buttons := buttons + [Button(btnRow, name, EditText(table, column, index, thing))];
      btnRow := btnRow + 1;
      return true;
    }

    /** add_button_spacer: an empty entry in the next button row. */
    method AddButtonSpacer()
      requires Valid()
      modifies this
      ensures buttons == old(buttons) + [Spacer(old(btnRow))] && btnRow == old(btnRow) + 1
      ensures Valid()
      ensures row == old(row) && col == old(col) && placed == old(placed) && controls == old(controls)
      ensures columns == old(columns) && columnWidth == old(columnWidth) && columnFudge == old(columnFudge)
      ensures rowList == old(rowList) && rowIndex == old(rowIndex) && events == old(events)
    {
      buttons := buttons + [Spacer(btnRow)];
      btnRow := btnRow + 1;
    }

    /** load_form; `ok` is false where it raises. */
    method Load() returns (ok: bool)
      modifies this
      ensures var o := LoadOutcome(rowList, rowIndex, controls);
        ok == o.Success? && events == old(events) + (if ok then o.value else [])
      ensures rowList == old(rowList) && rowIndex == old(rowIndex)
      ensures row == old(row) && col == old(col) && placed == old(placed) && controls == old(controls)
      ensures buttons == old(buttons) && btnRow == old(btnRow)
      ensures columns == old(columns) && columnWidth == old(columnWidth) && columnFudge == old(columnFudge)
    {
      if rowList.None? {
        return false;
      }
      if |rowList.value| == 0 {
        events := events + [Shown("Records")];
        return true;
      }
      if controls > 0 {
        if !InRange(rowIndex, |rowList.value|) {
          return false;
        }
        events := events + [Loaded(rowList.value[Slot(rowIndex, |rowList.value|)])];
      }
      return true;
    }

    /** _next_button: one record on, unless that would pass the last record, in which case
        the index stays on the last record and the form says so instead of loading. */
    method Next() returns (ok: bool)
      modifies this
      ensures rowList == old(rowList)
      ensures rowList.None? ==> rowIndex == old(rowIndex) && events == old(events) && ok
      ensures rowList.Some? && old(rowIndex) + 1 <= |rowList.value| - 1 ==>
        rowIndex == old(rowIndex) + 1 &&
        var o := LoadOutcome(rowList, rowIndex, controls);
        ok == o.Success? && events == old(events) + (if ok then o.value else [])
      ensures rowList.Some? && old(rowIndex) + 1 > |rowList.value| - 1 ==>
        rowIndex == |rowList.value| - 1 && events == old(events) + [Shown("Last Record")] && ok
      ensures old(Positioned()) ==> Positioned()
      ensures rowList.Some? && |rowList.value| > 0 ==> rowIndex <= |rowList.value| - 1
      ensures row == old(row) && col == old(col) && placed == old(placed) && controls == old(controls)
      ensures buttons == old(buttons) && btnRow == old(btnRow)
      ensures columns == old(columns) && columnWidth == old(columnWidth) && columnFudge == old(columnFudge)
    {
      if rowList.None? {
        return true;
      }
      rowIndex := rowIndex + 1;
      if rowIndex > |rowList.value| - 1 {
        rowIndex := |rowList.value| - 1;
        events := events + [Shown("Last Record")];
        return true;
      }
      ok := Load();
    }

    /** _prev_button: one record back, unless that would pass the first record, in which
        case the index stays on the first record and the form says so instead of loading. */
    method Prev() returns (ok: bool)
      modifies this
      ensures rowList == old(rowList)
      ensures rowList.None? ==> rowIndex == old(rowIndex) && events == old(events) && ok
      ensures rowList.Some? && old(rowIndex) - 1 >= 0 ==>
        rowIndex == old(rowIndex) - 1 &&
        var o := LoadOutcome(rowList, rowIndex, controls);
        ok == o.Success? && events == old(events) + (if ok then o.value else [])
      ensures rowList.Some? && old(rowIndex) - 1 < 0 ==>
        rowIndex == 0 && events == old(events) + [Shown("First Record")] && ok
      ensures old(Positioned()) ==> Positioned()
      ensures rowList.Some? ==> rowIndex >= 0
      ensures row == old(row) && col == old(col) && placed == old(placed) && controls == old(controls)
      ensures buttons == old(buttons) && btnRow == old(btnRow)
      ensures columns == old(columns) && columnWidth == old(columnWidth) && columnFudge == old(columnFudge)
    {
      if rowList.None? {
        return true;
      }
      rowIndex := rowIndex - 1;
      if rowIndex < 0 {
        rowIndex := 0;
        events := events + [Shown("First Record")];
        return true;
      }
      ok := Load();
    }

    /** _select_button: `itemId` is what the selection dialog returns. A positive ID moves
        the form to the first position of that ID in the list and loads it; an ID that is
        not in the list raises. */
    method Select(itemId: int) returns (ok: bool)
      modifies this
      ensures rowList == old(rowList)
      ensures rowList.None? || itemId <= 0 ==> rowIndex == old(rowIndex) && events == old(events) && ok
      ensures rowList.Some? && itemId > 0 && Int(itemId) !in rowList.value ==>
        !ok && rowIndex == old(rowIndex) && events == old(events)
      ensures rowList.Some? && itemId > 0 && Int(itemId) in rowList.value ==>
        0 <= rowIndex < |rowList.value| && rowList.value[rowIndex] == Int(itemId) &&
        Int(itemId) !in rowList.value[..rowIndex] &&
        var o := LoadOutcome(rowList, rowIndex, controls);
        ok == o.Success? && events == old(events) + (if ok then o.value else [])
      ensures old(Positioned()) ==> Positioned()
      ensures row == old(row) && col == old(col) && placed == old(placed) && controls == old(controls)
      ensures buttons == old(buttons) && btnRow == old(btnRow)
      ensures columns == old(columns) && columnWidth == old(columnWidth) && columnFudge == old(columnFudge)
    {
      if rowList.None? || itemId <= 0 {
        return true;
      }
      var k := IndexOf(rowList.value, Int(itemId));
      if k.None? {
        return false;
      }
      rowIndex := k.value;
      ok := Load();
    }

    /** _delete_button, with the index update as intended: when the user confirms, the
        record shown is deleted, the list is read again from the table, the index moves
        down when it is no longer a position of the new list, and the form is loaded. */
    method Delete(confirmed: bool) returns (ok: bool)
      modifies this, data
      ensures !confirmed ==> (ok && data.db == old(data.db) && rowList == old(rowList) &&
        rowIndex == old(rowIndex) && events == old(events))
      ensures confirmed && !Deletable(old(rowList), old(rowIndex), table) ==>
        (!ok && data.db == old(data.db) && rowList == old(rowList) &&
         rowIndex == old(rowIndex) && events == old(events))
      ensures confirmed && Deletable(old(rowList), old(rowIndex), table) ==>
        var id := old(rowList).value[Slot(old(rowIndex), |old(rowList).value|)].i;
        data.db == Deleted(old(data.db), table.value, id) &&
        rowList == Some(GetIdList(data.db, table.value, None)) &&
        rowIndex == DeleteIndex(old(rowIndex), |rowList.value|) &&
        var o := LoadOutcome(rowList, rowIndex, controls);
        ok == o.Success? && events == old(events) + (if ok then o.value else [])
      ensures (confirmed && old(Positioned()) && table.Some? && WellNumbered(old(data.db)) &&
               old(rowList) == Some(GetIdList(old(data.db), table.value, None)) &&
               old(rowList).value != []) ==>
        ok && Positioned() && WellNumbered(data.db)
      ensures row == old(row) && col == old(col) && placed == old(placed) && controls == old(controls)
      ensures buttons == old(buttons) && btnRow == old(btnRow)
      ensures columns == old(columns) && columnWidth == old(columnWidth) && columnFudge == old(columnFudge)
    {
      if !confirmed {
        return true;
      }
      if !Deletable(rowList, rowIndex, table) {
        return false;
      }
      ghost var s, k := data.db, rowIndex;
      var id := rowList.value[Slot(rowIndex, |rowList.value|)];
      data.DeleteRow(table.value, id.i);
      rowList := Some(GetIdList(data.db, table.value, None));
      if rowIndex >= |rowList.value| {
        rowIndex := rowIndex - 1;
      }
      if WellNumbered(s) && 0 <= k && old(rowList) == Some(GetIdList(s, table.value, None)) {
        DeleteKeepsPosition(s, table.value, k, controls);
        DeleteKeepsNumbering(s, table.value, id.i);
      }
      ok := Load();
    }
  }
}
