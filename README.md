# PayPal import and bookkeeping core, in Dafny

This project models the core of a small desktop bookkeeping program written in Python:

- **The PayPal importer** (`ImportPayPal` in importer.py). `_read_file` loads the lines of a
  PayPal CSV export into table `RawImport`. It rejects lines whose `TransactionID` is already
  stored. Five passes follow, always in this order: `_countries`, `_customers`, `_vendors`,
  `_sales`, `_purchases`. Each pass takes a snapshot of the raw rows still pending for it, adds
  the rows it derives (Country, Customer, Vendor, SaleRecord, PurchaseRecord), and marks the
  rows it handled with its `imported_*` flag. `import_all` runs the read and the five passes
  and reports either the totals or one catch-all error.
- **The table store of database.py.** The SQLite database becomes an in-memory store: a map
  from table name to a sequence of rows in insertion order, plus one ID counter. A row maps
  column names to a small value type (text, boolean, integer, amount, NULL). A WHERE clause
  is a list of `column = value` terms. SQL text is not modelled. Also modelled: the
  statement splitter `read_statement`/`run_file` and the value coercion `convert_value`.
- **The state kept by three UI classes**, with the Tk widgets abstracted away:
  - `Form` (forms.py): the layout cursor, the button panel and record navigation;
  - `Logger` (logger.py): the level stack and which messages it lets through;
  - `Notebook` (notebook.py): the tab registry.

Modules:

| file | module | contents |
|---|---|---|
| wrappers.dfy | `Wrappers` | `Option`, `Result`, Python list indexing and `list.index` |
| tables.dfy | `Tables` | values, rows, the store value and every lookup and change as a function |
| database.dfy | `Database` | the `Database` class (mutable store) and `convert_value` |
| sql_script.dfy | `SqlScript` | `read_statement` and `run_file` as loops, with their specifications |
| import_spec.dfy | `ImportSpec` | the read and the five passes as functions, and their properties |
| importer.dfy | `Importer` | the `ImportPayPal` class, proved to compute the `ImportSpec` functions |
| forms.dfy | `Forms` | the `Form` class: `_grid`, `_get_width`, buttons, navigation, delete |
| logger.dfy | `Logging` | the `Logger` class: level stack and gating |
| notebook.dfy | `Notebook` | the `Notebook` class: `add_tab`, `show_tab`, `get_frame`, `get_tab_index` |

Conventions used throughout:

- A raised Python exception is a `Failure`, or an `ok == false` result. The store keeps what
  was done before the exception; nothing is rolled back.
- `locale.atof` and Python's `str()` of a float are parameters (`NumberFormat`).
- Popups (`showinfo`, `showerror`) and widget actions are recorded as event sequences.
- The user's answers to dialogs (`askyesno`, the selection dialog) are method parameters.
- A column a row was never given reads as NULL. `column = value` never matches NULL.
- The legend in importer.py:19-60 has 41 names, not 40: the model follows the code.
  `TransactionID` is field 13 (index 12); `BalanceImpact` is the last one.
- `get_id_by_name` (database.py:244-262) returns the same as `get_id_by_row`; `Tables.GetIdByRow`
  models both.
- `import_all` takes a switch `asWritten` that picks its vendor pass: `_vendors` as written
  (`Stage.VendorsAsWritten`) or the corrected pass (`Stage.Vendors`); see Findings. Every
  property of the pipeline below is proved for both. For `_vendors` as written, a pass counts
  as settled when each row still pending for it is skipped or has a payee that is already a
  vendor.
- The store is a value with one ID counter shared by all tables. A table never created reads
  as empty; see "## Left out".

## Model

| member | source | states |
|---|---|---|
| Tables.FirstMatchFirst | database.py:244-262 | the first-match search returns the earliest matching row, and None only when no row matches |
| Tables.IfRecExistsIff | database.py:347-359 | if_rec_exists is true iff some row of the table has that column equal to the value |
| Tables.GetIdByRowFirst | database.py:169-182 | get_id_by_row gives None when nothing matches, otherwise the ID of the first matching row |
| Tables.SelectSound | database.py:212-216 | the WHERE selection keeps every row that satisfies the clause and only such rows |
| Tables.SelectAppend | database.py:212-216 | selection is in store order: selecting from a concatenation selects from each part in turn |
| Tables.GetRowList | database.py:207-221 | get_row_list returns the matching rows in store order, and never an empty list |
| Tables.GetRowListNone | database.py:218-221 | get_row_list returns None exactly when no row satisfies the clause |
| Tables.GetIdListSelected | database.py:192-205 | with a WHERE clause, get_id_list lists exactly the IDs of the rows satisfying it |
| Tables.GetIdListAll | database.py:192-205 | without a clause, get_id_list lists every row's ID in table order, and in a soundly numbered store these are distinct integers |
| Tables.GetSingleValue | database.py:264-278 | get_single_value is the column of the first row with that ID, or None when no row has it |
| Tables.Inserted | database.py:290-301 | insert_row appends exactly one row, carrying the next ID, and returns that ID |
| Tables.InsertedFrame | database.py:290-301 | insert_row changes no other table |
| Tables.InsertedExists | database.py:290-301 | after insert_row, if_rec_exists finds a value iff it was found before or the new row carries it |
| Tables.InsertFreshId | database.py:290-301 | the ID insert_row returns is carried by no existing row, and IDs stay distinct |
| Tables.Updated | database.py:317-328 | the table's rows after update_row_by_id; the ID counter is unchanged |
| Tables.UpdatedFrame | database.py:317-328 | update_row_by_id changes no other table |
| Tables.UpdateChangesOnlyListed | database.py:317-328 | only the listed columns of the rows with that ID change, and they take the listed values |
| Tables.UpdateKeepsNumbering | database.py:317-328 | updating columns other than ID keeps IDs distinct |
| Tables.DeleteRows | database.py:330-336 | delete_row keeps exactly the rows with another ID |
| Tables.DeleteRowsAppend | database.py:330-336 | delete_row keeps the order and the multiplicity of the rows it keeps: it works row by row, dropping a row iff it has the ID |
| Tables.Deleted | database.py:330-336 | delete_row touches only its table and not the ID counter |
| Tables.DeleteOnce | database.py:330-336 | with distinct IDs, deleting a present ID removes exactly one row |
| Tables.DeleteAbsent | database.py:330-336 | deleting an ID no row carries changes nothing |
| Tables.DeleteKeepsNumbering | database.py:330-336 | deleting keeps IDs distinct |
| Database.Database.InsertRow | database.py:290-301 | the store after insert_row is Tables.Inserted of the old store; the result is the new row's ID |
| Database.Database.UpdateRowById | database.py:317-328 | the store after update_row_by_id is Tables.Updated of the old store |
| Database.Database.SetSingleValue | database.py:280-288 | set_single_value sets one column in the rows with that ID and leaves every other value alone |
| Database.Database.DeleteRow | database.py:330-336 | the store after delete_row is Tables.Deleted of the old store |
| Database.ConvertValueCases | database.py:361-397 | the cases of convert_value: a value of the target type unchanged, str() always succeeds, '' converts to 0.0 for float and raises for int, a failed parse is an error, abs_val makes the number non-negative, other targets give None |
| Database.SignIgnored | database.py:378-386 | with abs_val, "-x" and "x" convert to the same float, the absolute value |
| Database.Trunc | database.py:388-392 | int() of a float truncates toward zero |
| Database.Digits | database.py:371 | str() of a non-negative integer is a non-empty string of decimal digits that reads back as the number, with no leading zero |
| SqlScript.FindHash | database.py:69 | str.find('#') is the first '#' position, or -1 when there is none |
| SqlScript.CutComment | database.py:69-70 | a line cut at find('#') contains no '#' |
| SqlScript.StripSpec | database.py:70 | strip() keeps one slice and removes only whitespace, from both ends |
| SqlScript.ReadStatement | database.py:58-77 | read_statement returns the statement the loop accumulates and the lines after the last line it read |
| SqlScript.StatementShape | database.py:66-77 | the statement holds no '#'; it ends in ';' unless the input ran out; it is "" exactly when no remaining line has content |
| SqlScript.StatementEndAt | database.py:72-75 | reading stops right after the first line whose content ends in ';' |
| SqlScript.ReadStops | database.py:72-77 | the text read up to the stop ends in ';'; it is empty only when every line read was empty |
| SqlScript.JoinedNoHash | database.py:69-73 | no comment text reaches a statement |
| SqlScript.FinalSemicolonLost | database.py:69-70 | a last line "COMMIT;" without '\n' is read as " COMMIT": line[0:-1] drops its ';' |
| SqlScript.RunFile | database.py:79-91 | run_file runs exactly the statements read one after another, stopping at the first empty one |
| SqlScript.StatementsCoverScript | database.py:79-91 | the statements run, in order, carry every line's content of the script |
| SqlScript.StatementsShape | database.py:79-91 | every statement run is non-empty, and all but the last end in ';' |
| ImportSpec.LegendDistinct | importer.py:19-60 | the legend has 41 distinct names, and TransactionID is the 13th |
| ImportSpec.RecordFields | importer.py:107-118 | a line longer than the legend raises; a line without fields gives an empty record; otherwise field i goes to legend[i] and the five flags are false |
| ImportSpec.RecordShape | importer.py:107-118 | every field is stored under its legend name, every flag is False, and TransactionID is present iff the line has at least 13 fields |
| ImportSpec.RecordTx | importer.py:107-120 | a line gives a record with a TransactionID exactly when it has 13 to 41 fields; the value is the 13th field |
| ImportSpec.ReadRows | importer.py:107-124 | each data line counts as exactly one of accepted or rejected; after a complete read accepted + rejected grows by the number of lines |
| ImportSpec.ReadFile | importer.py:96-126 | nothing is read unless the first line's second field is 'Time'; otherwise every data line is counted |
| ImportSpec.ReadFrame | importer.py:107-124 | reading only appends to RawImport, one row per accepted line, and changes no other table |
| ImportSpec.ReadAccepts | importer.py:107-124 | a line is accepted and stored iff its TransactionID is neither in RawImport before the read nor on an earlier line of the file; otherwise it is rejected and nothing changes; a line with fewer than 13 or more than 41 fields ends the read |
| ImportSpec.ReadPresent | importer.py:107-124 | after a completed read, a TransactionID is in RawImport iff it was there before or is the 13th field of a line read |
| ImportSpec.ReadKeepsDistinct | importer.py:120-124 | reading keeps the TransactionIDs of RawImport distinct |
| ImportSpec.ReadStoresEveryTx | importer.py:107-124 | after a complete read, every line's TransactionID is present in RawImport |
| ImportSpec.ReimportRejectsAll | importer.py:120-124 | reading lines whose TransactionIDs are all present rejects every line and changes nothing |
| ImportSpec.SaleRecordShape | importer.py:228-240 | a sale record is built iff the amounts convert; it is uncommitted, its notes are Subject + '\n' + ItemTitle, and it links the raw row and the customer of that name |
| ImportSpec.PurchaseRecordShape | importer.py:258-274 | the same as SaleRecordShape for purchase records, with the vendor of that name |
| ImportSpec.Amount | importer.py:234-236 | an amount is convert_value(item[c], float) with the default abs_val |
| ImportSpec.StepFrame | importer.py:137-143 | one step of a pass raises only its own flag, adds at most one row to its own table, and changes nothing else |
| ImportSpec.FlagRowFrame | importer.py:143 | flag updates only ever write True, and only to the rows with that ID |
| ImportSpec.StepFlags | importer.py:143 | a completed step on a row the pass marks sets that row's flag |
| ImportSpec.IdleStep | importer.py:159 | a row the pass has nothing to do for changes nothing: a skipped row (not a payment, or named '' or 'PayPal'), or, for _vendors as written, a debit to a payee that is already a vendor |
| ImportSpec.PassFrame | importer.py:136-146 | a pass raises only its own flag, adds to its own table exactly the rows it counts, and changes no other table |
| ImportSpec.PassFlags | importer.py:137-143 | a completed pass flags every raw row it marks: _countries every pending row, _customers every payment, the corrected vendor pass (Stage.Vendors) every named debit, _sales and _purchases every named row; for _vendors as written see PassKnownOrFlagged and PassAsWrittenFlagsOnlyNew |
| ImportSpec.PassUntouched | importer.py:136-146 | a pass, complete or not, leaves every raw row exactly as it was unless the row shares an ID with a snapshot row the pass marks or, for _vendors as written, with a named row whose payee was not yet a vendor |
| ImportSpec.PassFlagsExactly | importer.py:137-143 | for every pass but _vendors as written, a completed pass leaves its flag set in exactly the raw rows that had it or share an ID with a snapshot row it marks |
| ImportSpec.PassAsWrittenFlagsOnlyNew | importer.py:196-212 | _vendors as written sets imported_vendor only in rows that had it or share an ID with a named debit whose payee was not a vendor when the pass began |
| ImportSpec.StageUntouched | importer.py:132-146 | with distinct IDs, a pass other than _vendors as written leaves unchanged every raw row it does not select as pending or does not mark |
| ImportSpec.CustomersKeepNonPayments | importer.py:152-182 | with distinct IDs, _customers leaves imported_customer as it was in every raw row that is not a Website or General Payment |
| ImportSpec.PassKeepsUnique | importer.py:138-141 | no country abbreviation, customer name or vendor name is inserted twice, even within one pass |
| ImportSpec.InsertKeepsUnique | importer.py:138-141 | appending a row whose key is absent keeps the key unique |
| ImportSpec.AdditionFresh | importer.py:161-178 | the row an entity pass adds has a key not yet present in its table |
| ImportSpec.StepKeepsUnique | importer.py:198-210 | one step of an entity pass keeps its key unique |
| ImportSpec.PassCountsRecords | importer.py:226-245 | a completed _sales or _purchases pass returns exactly the number of named rows in its snapshot |
| ImportSpec.IdlePass | importer.py:136-146 | a snapshot of rows the pass has nothing to do for changes nothing |
| ImportSpec.StageFrame | importer.py:132-146 | a pass, taken over the snapshot of pending rows, raises only its own flag, adds to its own table exactly the count it returns, and changes no other table |
| ImportSpec.SettledStageIdle | importer.py:132-135 | a pass whose pending rows are all skipped changes nothing and returns 0 |
| ImportSpec.StageSettles | importer.py:132-146 | after a completed pass, each row still pending is one it has nothing to do for; for _vendors as written this includes debits to payees already on file |
| ImportSpec.PassKnownOrFlagged | importer.py:196-212 | after a completed _vendors pass as written, each named debit it saw is flagged or has its payee among the vendors |
| ImportSpec.SettledStays | importer.py:221 | setting flags another pass does not select on keeps that pass settled |
| ImportSpec.StageNoticesInfo | importer.py:153-155 | a pass shows only information boxes |
| ImportSpec.StagesRaise | importer.py:69-75 | a run of passes changes RawImport only by setting flags of those passes to True |
| ImportSpec.PassesOrdered | importer.py:71-75 | in import_all's order, whichever vendor pass it runs, no pass sets a flag an earlier pass selects on; sales before customers, or purchases before vendors, would break this |
| ImportSpec.StagesSettle | importer.py:71-75 | after a completed run of ordered passes, each pass is settled |
| ImportSpec.SettledStagesIdle | importer.py:71-75 | passes that are all settled change nothing and all return 0 |
| ImportSpec.PassesAreStages | importer.py:71-75 | import_all runs exactly countries, customers, the vendor pass, sales, purchases, in this order (for _vendors as written and for the corrected pass) |
| ImportSpec.PassesShape | importer.py:71-75 | the five passes yield five counts when none raised, and show only information boxes (for _vendors as written and for the corrected pass) |
| ImportSpec.PassesRaise | importer.py:71-75 | the five passes change no column of RawImport except their flags, which only become True (for _vendors as written and for the corrected pass) |
| ImportSpec.PassesSettle | importer.py:71-75 | after the five passes complete, each of them is settled (for _vendors as written and for the corrected pass) |
| ImportSpec.PassesIdempotent | importer.py:71-75 | running the five passes again on what a completed run left changes nothing and counts zero everywhere (for _vendors as written and for the corrected pass) |
| ImportSpec.ImportNotices | importer.py:62-89 | an import ends with exactly one closing box, the totals or the catch-all error, after information boxes only (for _vendors as written and for the corrected pass) |
| ImportSpec.Completed | importer.py:68-86 | the totals are shown only when the whole file was read and all five passes ran (for _vendors as written and for the corrected pass) |
| ImportSpec.NothingNew | importer.py:62-126 | on a store that holds every TransactionID of the file and is settled, an import rejects every line and adds nothing (for _vendors as written and for the corrected pass) |
| ImportSpec.ImportTwice | importer.py:62-126 | importing the same file again after a completed import changes nothing and reports every line rejected (for _vendors as written and for the corrected pass) |
| ImportSpec.ImportKeepsTx | importer.py:62-126 | every TransactionID read survives the passes (for _vendors as written and for the corrected pass) |
| ImportSpec.KnownPayeeStep | importer.py:196-212 | for a debit to an existing vendor, _vendors as written leaves the row unflagged; the corrected pass flags it |
| ImportSpec.NewPayeeStep | importer.py:196-212 | for a debit to a new payee, both vendor passes add the vendor and flag the row |
| ImportSpec.UnflaggedNotPurchase | importer.py:251 | _purchases never selects a row whose vendor flag is not set |
| ImportSpec.VendorsAsWrittenStrandsRow | importer.py:196-212 | two debits to one new payee: _vendors as written flags only the first; the second can never become a purchase |
| ImportSpec.VendorsFlagsEveryNamedRow | importer.py:180-182 | the corrected vendor pass flags both debits and adds the vendor once |
| ImportSpec.FirstDebitStep | importer.py:198-212 | on two debits to one payee, the first step adds the vendor and flags the first row |
| Importer.BuildRecord | importer.py:108-118 | the field loop of _read_file builds exactly ImportSpec.RecordOf of the line |
| Importer.ImportPayPal.constructor | importer.py:12-17 | a new importer has both counters at zero |
| Importer.ImportPayPal.ReadFile | importer.py:91-126 | _read_file computes ImportSpec.ReadFile on the store and counters |
| Importer.ImportPayPal.ReadLines | importer.py:107-124 | the data-line loop computes ImportSpec.ReadRows |
| Importer.ImportPayPal.MarkRow | importer.py:143 | a flag update is ImportSpec.FlagRow |
| Importer.ImportPayPal.HandleRow | importer.py:137-143 | the body of a pass's loop is ImportSpec.StepAt |
| Importer.ImportPayPal.RunPass | importer.py:132-146 | a pass computes ImportSpec.RunStage and shows its empty-snapshot box |
| Importer.ImportPayPal.HandleRows | importer.py:136-146 | the loop of a pass computes ImportSpec.RunPass over the snapshot |
| Importer.ImportPayPal.Turn | importer.py:137-143 | one turn of a pass's loop advances ImportSpec.RunPass by one row |
| Importer.ImportPayPal.RunPasses | importer.py:71-75 | the five calls compute ImportSpec.ImportPasses in the fixed order, with the vendor pass the switch picks |
| Importer.ImportPayPal.ImportAll | importer.py:62-89 | import_all computes ImportSpec.ImportAll with the vendor pass the switch picks: the totals on success, the single error box on any failure |
| Forms.WidthGrows | forms.py:315-323 | _get_width is column_width * cols, less the fudge exactly when cols < columns; a wider control never gets less room |
| Forms.GridKeepsColumn | forms.py:326-342 | with at least one column, _grid leaves col in 0 .. columns - 1 |
| Forms.GridRows | forms.py:326-342 | a full-width control moves to the next row at column 0; any other control moves one column right, or wraps to the next row after the last column; row never decreases |
| Forms.StdCommand | forms.py:211-229 | add_std_button fails exactly for an unknown name without a command, for Select without a column, and for Edit with no record to capture |
| Forms.StdCommandNamed | forms.py:211-229 | each standard name gets its own handler |
| Forms.LoadOutcome | forms.py:276-286 | load_form says "no records" on an empty list, raises on None or on an index off the list, and otherwise loads the record at row_index |
| Forms.DeleteIndexInRange | forms.py:396-399 | with the corrected update, the index after a delete is a position of the new list |
| Forms.DeleteShrinksList | forms.py:393-396 | deleting the record shown shortens the ID list by exactly one |
| Forms.DeleteKeepsPosition | forms.py:391-399 | with the corrected update, the form stays on a record of the new list and the load succeeds |
| Forms.DeleteLastAsWritten | forms.py:396-399 | as written, deleting the last record leaves row_index == len(row_list), and load_form raises |
| Forms.Form.constructor | forms.py:64-98 | a new form starts at row 0, column 0, two columns, width 35, fudge 9, and lists the IDs of its table |
| Forms.Form.Grid | forms.py:326-342 | _grid places the control at the cursor and moves the cursor by GridStep; row never decreases |
| Forms.Form.AddTitle | forms.py:102-111 | add_title advances row by one and keeps col |
| Forms.Form.AddControl | forms.py:114-192 | an add_* control gets the width _get_width gives and is placed by _grid |
| Forms.Form.AddSpacer | forms.py:194-199 | add_spacer places an empty frame by _grid |
| Forms.Form.AddStdButton | forms.py:202-233 | a successful button goes into the next button row and btn_row grows by exactly one; a raise changes nothing |
| Forms.Form.AddEditButton | forms.py:244-264 | an edit button captures the ID of the record shown, or 0 with no records; btn_row grows by one |
| Forms.Form.AddButtonSpacer | forms.py:267-273 | a button spacer takes the next button row; btn_row grows by one |
| Forms.Form.Load | forms.py:276-290 | load_form does what LoadOutcome says |
| Forms.Form.Next | forms.py:353-360 | _next_button never leaves row_index past the last record, and loads only when the index moved |
| Forms.Form.Prev | forms.py:363-370 | _prev_button never leaves row_index below 0, and loads only when the index moved |
| Forms.Form.Select | forms.py:373-378 | _select_button moves to the first position of the selected ID and loads it; an absent ID raises |
| Forms.Form.Delete | forms.py:391-399 | _delete_button deletes the record shown, reads the list again, moves the index down when it is off the list, and loads |
| Logging.WritesNest | logger.py:187-226 | debug shows iff level[0] <= 0, info iff <= 1, warning iff <= 2, msg iff <= 4; error always shows; each level shows everything a higher level shows |
| Logging.WritesMonotone | logger.py:187-226 | lowering the level never hides a message that was shown |
| Logging.Pushed | logger.py:239-244 | push_level puts the new level on top and keeps the rest of the stack |
| Logging.Popped | logger.py:246-251 | pop_level, corrected, drops the top unless it is the only level |
| Logging.PopUndoesPush | logger.py:246-251 | corrected pop_level undoes push_level |
| Logging.PopAsWrittenKeepsPush | logger.py:246-251 | as written, after pushing a nonzero level, pop_level either raises or leaves that level in force |
| Logging.PopAsWrittenCounterexamples | logger.py:246-251 | pop after set_level(4) and push_level(1) raises; pop after push_level(2) on [0] leaves 2 in force |
| Logging.Logger.constructor | logger.py:145-167 | a new logger's stack is exactly [level]; its name is the given string or the object's class name |
| Logging.Logger.PushLevel | logger.py:239-244 | the stack after push_level is Pushed of the old stack |
| Logging.Logger.PopLevelAsWritten | logger.py:246-251 | pop_level as written: remove(0) takes out the first 0, and raises when there is none |
| Logging.Logger.PopLevel | logger.py:246-251 | the stack after corrected pop_level is Popped of the old stack |
| Logging.Logger.SetLevel | logger.py:253-257 | set_level replaces only the top of the stack |
| Logging.Logger.Line | logger.py:187-226 | a message is written iff its kind shows at level[0] |
| Logging.Logger.Debug | logger.py:187-194 | debug appends a line iff level[0] <= 0 |
| Logging.Logger.Info | logger.py:196-201 | info appends a line iff level[0] <= 1 |
| Logging.Logger.Warning | logger.py:203-208 | warning appends a line iff level[0] <= 2 |
| Logging.Logger.Msg | logger.py:221-226 | msg appends a line iff level[0] <= 4 |
| Logging.Logger.Error | logger.py:210-218 | error always appends a line and shows a dialog with the same formatted message, kind ERROR and the logger's name |
| Notebook.HideBeforeShow | notebook.py:59-67 | show_tab calls the current tab's hide callback before anything of the new tab, including its show callback |
| Notebook.SwitchCallbacks | notebook.py:59-67 | show_tab calls exactly the callbacks that are not None, the old tab's hide callback before the new tab's show callback, besides two widget changes per tab |
| Notebook.Notebook.constructor | notebook.py:11-34 | with a list of names, the tabs carry those names in order; without one there are none |
| Notebook.Notebook.AddTab | notebook.py:37-52 | add_tab appends exactly one entry and keeps frame_index == len(frame_list) |
| Notebook.Notebook.ShowTab | notebook.py:55-69 | show_tab hides the current tab, then shows tab i, then sets crnt_index = i; a bad index raises |
| Notebook.Notebook.Press | notebook.py:43-44 | the button of tab i shows tab i, because the index is captured when the button is made |
| Notebook.Notebook.GetFrame | notebook.py:71-76 | get_frame is the frame of the tab at that index, and raises off the list |
| Notebook.Notebook.GetTabIndex | notebook.py:78-87 | get_tab_index is the smallest index with that name, or -1 when none has it |
| Wrappers.IndexOf | forms.py:377 | list.index finds the first position of the value, and fails when it is absent |
| Wrappers.Slot | notebook.py:59 | Python indexing with a negative index counts from the end |

## Findings

| source | as written | input that shows it | evidently intended | confidence | as-written member | corrected member |
|---|---|---|---|---|---|---|
| importer.py:197-212 | `_vendors` sets `imported_vendor` only when it inserts a new vendor | two pending debits to the same new payee: the second stays unflagged, and `_purchases` never records it | flag every named debit row, as `_customers` does after its own fix (importer.py:180-182) | high (not executed) | ImportSpec.VendorsAsWrittenStrandsRow | ImportSpec.VendorsFlagsEveryNamedRow |
| logger.py:246-251 | `pop_level` calls `self.level.remove(0)`, which removes the first element equal to 0 | stack [1, 4] after set_level(4) and push_level(1): pop raises; stack [2, 0]: pop leaves 2 in force | remove the top of the stack (`pop(0)`), restoring the level in force before the push | high (not executed) | Logging.PopAsWrittenCounterexamples | Logging.PopUndoesPush |
| forms.py:396-399 | after a delete, `row_index` is decremented only when it is greater than `len(row_list)` | deleting the last of two or more records leaves `row_index == len(row_list)`, and `load_form` indexes past the end | decrement when `row_index >= len(row_list)` | high (not executed) | Forms.DeleteLastAsWritten | Forms.DeleteKeepsPosition |

## Left out

- Tk widgets, rendering and dialogs. Popups and widget actions are recorded as events; dialog answers are parameters.
- form_widgets.py, dialogs.py, form_dialog.py, main.py, main_forms.py and setup_forms.py are not part of this model. They build widgets or only call the `add_*` methods.
- SQL text and sqlite3 execution. The string-built WHERE clauses are `column = value` lists. Rendering a Python value into SQL text is not modelled, so `'1'` and `1` are different values here.
- File I/O and the CSV reader. The file is given as its lines already split into fields, or None when it cannot be opened. `read_statement` is given the file's lines.
- `commit`: the store has no transactions. A failure keeps everything done before it.
- `locale.atof` and float printing are parameters. Floats are exact reals: no rounding, no infinities, no NaN.
- SqlScript.Strip: treats as whitespace the ASCII characters Python's `str.strip()` removes. It does not treat the non-ASCII Unicode spaces (such as U+0085 and U+00A0) as whitespace.
- Timestamps (`time.strftime`) and the caller's frame name for `debug`. The caller's name is a parameter.
- The `func_wrapper`/`class_wrapper` debug tracing, and the singleton `get_instance` wiring. The database is passed in.
- `Logger.fatal`, `debugger` and `toggle_visibility`, and the log window's save, clear and hide callbacks.
- `Form.save_form`, `_save_button`, `_new_button`, `_edit_button`, `_edit_btn_command`, `set_edit_class`, `_get_geometry`, and scrolling. They only pass data between widgets and the database.
- database.py operations the core does not use: `get_columns` (it returns the cursor rather than the dict it builds), `get_column_list`, `populate_list`, `get_row_by_id`, `get_row_list_by_col`, `update_row`, `delete_where`, `execute`, `get_cursor` and `create_database`.
- Logging.Logger.PopLevel: the corrected pop. `pop_level` as written is `Logging.Logger.PopLevelAsWritten`.
- Forms.Form.Delete: uses the corrected index update. The update as written is `Forms.DeleteIndexAsWritten`.
- Tables.Inserted: IDs come from one counter shared by all tables. SQLite's `lastrowid` numbers each table's rows on its own, so the concrete IDs differ from the program's. The properties proved need only that a new ID is carried by no row of its table and that IDs stay distinct within a table.
- Tables.Updated, Tables.Deleted, Tables.Inserted and the lookups: a table that was never created reads as empty. `Inserted` creates it, and `Updated` and `Deleted` leave the store as it is. SQLite raises "no such table" in each of these cases. The schema script that creates the tables is not part of this model.
- `show_tab` callbacks are handles. What a hide or show callback does to the notebook is not modelled.
