/** The relational store behind the accounting program (database.py), as a value.
    A table is a sequence of rows in insertion order; a row maps column names to values;
    every inserted row gets an "ID" column from one store-wide counter. SQL text is not
    modelled: a WHERE clause is a list of `column = value` terms, all of which must hold. */
module Tables {
  import opened Wrappers

  /** A column value: text, a boolean, an integer, an amount (a Python float) or NULL. */
  datatype Val = Str(s: string) | Bool(b: bool) | Int(i: int) | Amount(x: real) | Null

  type Row = map<string, Val>

  /** One `column = value` term of a WHERE clause. */
  datatype Cond = Cond(column: string, value: Val)

  datatype Store = Store(tables: map<string, seq<Row>>, nextId: int)

  const ID := "ID"

  const Empty := Store(map[], 1)

  /** The value of column `c`; a column the row was never given reads as NULL. */
  function Col(r: Row, c: string): Val {
    if c in r then r[c] else Null
  }

  /** SQL's `c = v`: NULL is equal to nothing. */
  predicate Matches(r: Row, c: string, v: Val) {
    v != Null && Col(r, c) == v
  }

  predicate Satisfies(r: Row, w: seq<Cond>) {
    forall k :: 0 <= k < |w| ==> Matches(r, w[k].column, w[k].value)
  }

  /** The rows of table `t`; a table nothing was inserted into is empty. */
  function Rows(s: Store, t: string): seq<Row> {
    if t in s.tables then s.tables[t] else []
  }

  // ---------------------------------------------------------------------------------------
  // Lookups

  /** The position of the first row whose column `c` equals `v`. */
  function FirstMatch(rows: seq<Row>, c: string, v: Val): (r: Option<nat>)
    ensures r.Some? ==> r.value < |rows| && Matches(rows[r.value], c, v)
  {
    if rows == [] then None
    else if Matches(rows[0], c, v) then Some(0)
    else match FirstMatch(rows[1..], c, v)
      case None => None
      case Some(k) => Some(k + 1)
  }

  /** FirstMatch finds the first matching row, and None means no row matches. */
  lemma {:induction false} FirstMatchFirst(rows: seq<Row>, c: string, v: Val)
    ensures var r := FirstMatch(rows, c, v);
      r.Some? ==> forall j :: 0 <= j < r.value ==> !Matches(rows[j], c, v)
    ensures FirstMatch(rows, c, v).None? ==> forall j :: 0 <= j < |rows| ==> !Matches(rows[j], c, v)
  {
    if rows != [] && !Matches(rows[0], c, v) {
      FirstMatchFirst(rows[1..], c, v);
      forall j | 1 <= j < |rows|
        ensures rows[j] == rows[1..][j - 1]
      {
      }
    }
  }

  /** if_rec_exists: some row of `t` has column `c` equal to `v`. */
  function IfRecExists(s: Store, t: string, c: string, v: Val): bool {
    FirstMatch(Rows(s, t), c, v).Some?
  }

  /** if_rec_exists answers whether some row of `t` has column `c` equal to `v`. */
  lemma IfRecExistsIff(s: Store, t: string, c: string, v: Val)
    ensures IfRecExists(s, t, c, v) <==> exists k :: 0 <= k < |Rows(s, t)| && Matches(Rows(s, t)[k], c, v)
  {
    FirstMatchFirst(Rows(s, t), c, v);
  }

  /** A row found in a table is still found once rows are appended to it. */
  lemma IfRecExistsGrows(s: Store, s': Store, t: string, c: string, v: Val)
    requires Rows(s, t) <= Rows(s', t) && IfRecExists(s, t, c, v)
    ensures IfRecExists(s', t, c, v)
  {
    IfRecExistsIff(s, t, c, v);
    IfRecExistsIff(s', t, c, v);
    var k :| 0 <= k < |Rows(s, t)| && Matches(Rows(s, t)[k], c, v);
    assert Rows(s', t)[k] == Rows(s, t)[k];
  }

  /** After insert_row, a value is found in column `c` (not the ID) iff it was found before or
      the new row carries it. */
  lemma InsertedExists(s: Store, t: string, rec: Row, c: string, v: Val)
    requires c != ID
    ensures IfRecExists(Inserted(s, t, rec).0, t, c, v) <==> IfRecExists(s, t, c, v) || Matches(rec, c, v)
  {
    var rows, rows' := Rows(s, t), Rows(Inserted(s, t, rec).0, t);
    IfRecExistsIff(s, t, c, v);
    IfRecExistsIff(Inserted(s, t, rec).0, t, c, v);
    assert Col(rows'[|rows|], c) == Col(rec, c);
    if IfRecExists(s, t, c, v) {
      var k :| 0 <= k < |rows| && Matches(rows[k], c, v);
      assert rows'[k] == rows[k];
    }
    if IfRecExists(Inserted(s, t, rec).0, t, c, v) {
      var k :| 0 <= k < |rows'| && Matches(rows'[k], c, v);
      if k < |rows| {
        assert rows'[k] == rows[k];
      }
    }
  }

  /** get_id_by_row (and get_id_by_name, which computes the same): the ID of the first row
      whose column `c` equals `v`, or NULL (Python's None) when there is none. */
  function GetIdByRow(s: Store, t: string, c: string, v: Val): Val {
    match FirstMatch(Rows(s, t), c, v)
    case None => Null
    case Some(k) => Col(Rows(s, t)[k], ID)
  }

  /** get_id_by_row gives NULL when no row matches, and otherwise the ID of the first match. */
  lemma GetIdByRowFirst(s: Store, t: string, c: string, v: Val)
    ensures !IfRecExists(s, t, c, v) ==> GetIdByRow(s, t, c, v) == Null
    ensures IfRecExists(s, t, c, v) ==>
      exists k :: 0 <= k < |Rows(s, t)| && Matches(Rows(s, t)[k], c, v) && GetIdByRow(s, t, c, v) == Col(Rows(s, t)[k], ID)
        && forall j :: 0 <= j < k ==> !Matches(Rows(s, t)[j], c, v)
  {
    FirstMatchFirst(Rows(s, t), c, v);
  }

  /** The rows satisfying `w`, in store order. */
  function Select(rows: seq<Row>, w: seq<Cond>): (r: seq<Row>)
    ensures |r| <= |rows|
  {
    if rows == [] then []
    else if Satisfies(rows[0], w) then [rows[0]] + Select(rows[1..], w)
    else Select(rows[1..], w)
  }

  /** Select keeps exactly the rows satisfying `w`. */
  lemma {:induction false} SelectSound(rows: seq<Row>, w: seq<Cond>)
    ensures forall k :: 0 <= k < |Select(rows, w)| ==> Satisfies(Select(rows, w)[k], w) && Select(rows, w)[k] in rows
    ensures forall k :: 0 <= k < |rows| && Satisfies(rows[k], w) ==> rows[k] in Select(rows, w)
  {
    if rows != [] {
      SelectSound(rows[1..], w);
      forall k | 1 <= k < |rows|
        ensures rows[k] == rows[1..][k - 1]
      {
      }
    }
  }

  /** Selecting from a concatenation selects from each part, in order. */
  lemma {:induction false} SelectAppend(a: seq<Row>, b: seq<Row>, w: seq<Cond>)
    ensures Select(a + b, w) == Select(a, w) + Select(b, w)
  {
    if a == [] {
      assert a + b == b;
    } else {
      assert (a + b)[0] == a[0] && (a + b)[1..] == a[1..] + b;
      SelectAppend(a[1..], b, w);
    }
  }

  /** get_row_list: None (not an empty list) when no row satisfies `w`. */
  function GetRowList(s: Store, t: string, w: seq<Cond>): (r: Option<seq<Row>>)
    ensures r.Some? ==> r.value == Select(Rows(s, t), w) && r.value != []
  {
    var sel := Select(Rows(s, t), w);
    if sel == [] then None else Some(sel)
  }

  /** get_row_list answers None exactly when no row of `t` satisfies `w`. */
  lemma GetRowListNone(s: Store, t: string, w: seq<Cond>)
    ensures GetRowList(s, t, w).None? <==> forall k :: 0 <= k < |Rows(s, t)| ==> !Satisfies(Rows(s, t)[k], w)
  {
    var sel := Select(Rows(s, t), w);
    SelectSound(Rows(s, t), w);
    if sel != [] {
      assert sel[0] in Rows(s, t);
    }
  }

  /** The ID column of each row, in order. */
  function Ids(rows: seq<Row>): (r: seq<Val>)
    ensures |r| == |rows| && forall k :: 0 <= k < |rows| ==> r[k] == Col(rows[k], ID)
  {
    seq(|rows|, k requires 0 <= k < |rows| => Col(rows[k], ID))
  }

  /** get_id_list: the IDs of the rows of `t` satisfying `w` (all rows when `w` is None). */
  function GetIdList(s: Store, t: string, w: Option<seq<Cond>>): seq<Val> {
    match w
    case None => Ids(Rows(s, t))
    case Some(c) => Ids(Select(Rows(s, t), c))
  }

  /** get_id_list with a clause lists the ID of every row satisfying it, and of no other row. */
  lemma GetIdListSelected(s: Store, t: string, c: seq<Cond>)
    ensures forall v :: v in GetIdList(s, t, Some(c)) <==>
      exists j :: 0 <= j < |Rows(s, t)| && Satisfies(Rows(s, t)[j], c) && v == Col(Rows(s, t)[j], ID)
  {
    SelectedIds(Rows(s, t), c);
  }

  /** The IDs of the selected rows are exactly the IDs of the rows satisfying `c`. */
  lemma SelectedIds(rows: seq<Row>, c: seq<Cond>)
    ensures forall v :: v in Ids(Select(rows, c)) <==>
      exists j :: 0 <= j < |rows| && Satisfies(rows[j], c) && v == Col(rows[j], ID)
  {
    var sel := Select(rows, c);
    SelectSound(rows, c);
    forall v | v in Ids(sel)
      ensures exists j :: 0 <= j < |rows| && Satisfies(rows[j], c) && v == Col(rows[j], ID)
    {
      var k :| 0 <= k < |sel| && Ids(sel)[k] == v;
      var j :| 0 <= j < |rows| && rows[j] == sel[k];
    }
    forall j | 0 <= j < |rows| && Satisfies(rows[j], c)
      ensures Col(rows[j], ID) in Ids(sel)
    {
      var k :| 0 <= k < |sel| && sel[k] == rows[j];
      assert Ids(sel)[k] == Col(rows[j], ID);
    }
  }

  /** get_id_list without a clause lists one ID per row, in store order; in a soundly
      numbered store they are distinct integers. */
  lemma GetIdListAll(s: Store, t: string)
    requires WellNumbered(s)
    ensures |GetIdList(s, t, None)| == |Rows(s, t)|
    ensures forall k :: 0 <= k < |Rows(s, t)| ==> GetIdList(s, t, None)[k] == Col(Rows(s, t)[k], ID)
    ensures forall j, k :: 0 <= j < k < |GetIdList(s, t, None)| ==>
      GetIdList(s, t, None)[j].Int? && GetIdList(s, t, None)[j] != GetIdList(s, t, None)[k]
  {
  }

  /** get_single_value: column `c` of the first row with that ID, or NULL when there is none. */
  function GetSingleValue(s: Store, t: string, c: string, id: int): (r: Val)
    ensures !IfRecExists(s, t, ID, Int(id)) ==> r == Null
    ensures forall k :: (0 <= k < |Rows(s, t)| && Col(Rows(s, t)[k], ID) == Int(id) &&
                         forall j :: 0 <= j < k ==> Col(Rows(s, t)[j], ID) != Int(id)) ==>
      r == Col(Rows(s, t)[k], c)
  {
    FirstMatchFirst(Rows(s, t), ID, Int(id));
    match FirstMatch(Rows(s, t), ID, Int(id))
    case None => Null
    case Some(k) => Col(Rows(s, t)[k], c)
  }

  // ---------------------------------------------------------------------------------------
  // Changes

  /** insert_row: one row appended to `t`, carrying the next ID, which is returned. */
  function Inserted(s: Store, t: string, rec: Row): (r: (Store, int))
    ensures r.1 == s.nextId && r.0.nextId == s.nextId + 1
    ensures Rows(r.0, t) == Rows(s, t) + [rec[ID := Int(s.nextId)]]
  {
    (Store(s.tables[t := Rows(s, t) + [rec[ID := Int(s.nextId)]]], s.nextId + 1), s.nextId)
  }

  /** insert_row touches no other table. */
  lemma InsertedFrame(s: Store, t: string, rec: Row)
    ensures forall u :: u != t ==> Rows(Inserted(s, t, rec).0, u) == Rows(s, u)
  {
  }

  /** The listed columns overwritten in every row with that ID. */
  function UpdateRows(rows: seq<Row>, rec: Row, id: int): (r: seq<Row>)
    ensures |r| == |rows|
    ensures forall k :: 0 <= k < |rows| ==>
      r[k] == if Col(rows[k], ID) == Int(id) then rows[k] + rec else rows[k]
  {
    seq(|rows|, k requires 0 <= k < |rows| => if Col(rows[k], ID) == Int(id) then rows[k] + rec else rows[k])
  }

  /** update_row_by_id (set_single_value is the one-column case). */
  function Updated(s: Store, t: string, rec: Row, id: int): (r: Store)
    ensures r.nextId == s.nextId
    ensures Rows(r, t) == UpdateRows(Rows(s, t), rec, id)
  {
    if t in s.tables then Store(s.tables[t := UpdateRows(s.tables[t], rec, id)], s.nextId) else s
  }

  /** update_row_by_id touches no other table. */
  lemma UpdatedFrame(s: Store, t: string, rec: Row, id: int)
    ensures forall u :: u != t ==> Rows(Updated(s, t, rec, id), u) == Rows(s, u)
  {
  }

  /** Only the listed columns of the rows with that ID change, and they take the listed values. */
  lemma UpdateChangesOnlyListed(rows: seq<Row>, rec: Row, id: int)
    ensures forall k, c :: 0 <= k < |rows| && Col(UpdateRows(rows, rec, id)[k], c) != Col(rows[k], c) ==>
      c in rec && Col(rows[k], ID) == Int(id)
    ensures forall k, c :: 0 <= k < |rows| && c in rec && Col(rows[k], ID) == Int(id) ==>
      Col(UpdateRows(rows, rec, id)[k], c) == rec[c]
  {
  }

  /** The rows of `rows` without the given ID, in order. */
  function DeleteRows(rows: seq<Row>, id: int): (r: seq<Row>)
    ensures |r| <= |rows|
    ensures forall k :: 0 <= k < |r| ==> Col(r[k], ID) != Int(id) && r[k] in rows
    ensures forall k :: 0 <= k < |rows| && Col(rows[k], ID) != Int(id) ==> rows[k] in r
  {
    if rows == [] then []
    else if Col(rows[0], ID) == Int(id) then DeleteRows(rows[1..], id)
    else [rows[0]] + DeleteRows(rows[1..], id)
  }

  /** Deleting works row by row and keeps the order: the rows of a concatenation are those of
      each part, one after the other, and a single row is dropped iff it has the ID. */
  lemma {:induction false} DeleteRowsAppend(a: seq<Row>, b: seq<Row>, id: int)
    ensures DeleteRows(a + b, id) == DeleteRows(a, id) + DeleteRows(b, id)
    ensures |a| == 1 ==> DeleteRows(a, id) == if Col(a[0], ID) == Int(id) then [] else a
  {
    if a == [] {
      assert a + b == b;
    } else {
      assert (a + b)[0] == a[0] && (a + b)[1..] == a[1..] + b;
      DeleteRowsAppend(a[1..], b, id);
      if |a| == 1 {
        assert a[1..] == [];
      }
    }
  }

  /** delete_row. */
  function Deleted(s: Store, t: string, id: int): (r: Store)
    ensures r.nextId == s.nextId
    ensures Rows(r, t) == DeleteRows(Rows(s, t), id)
    ensures forall u :: u != t ==> Rows(r, u) == Rows(s, u)
  {
    if t in s.tables then Store(s.tables[t := DeleteRows(s.tables[t], id)], s.nextId) else s
  }

  // ---------------------------------------------------------------------------------------
  // Row numbering

  /** Every row has an integer ID below the counter, and IDs are distinct within a table. */
  predicate WellNumbered(s: Store) {
    (forall t, k :: t in s.tables && 0 <= k < |s.tables[t]| ==>
      Col(s.tables[t][k], ID).Int? && Col(s.tables[t][k], ID).i < s.nextId)
    && (forall t, j, k :: t in s.tables && 0 <= j < k < |s.tables[t]| ==>
      Col(s.tables[t][j], ID) != Col(s.tables[t][k], ID))
  }

  /** The ID insert_row returns is used by no row of any table, and numbering stays sound. */
  lemma InsertFreshId(s: Store, t: string, rec: Row)
    requires WellNumbered(s)
    ensures forall u, k :: 0 <= k < |Rows(s, u)| ==> Col(Rows(s, u)[k], ID) != Int(Inserted(s, t, rec).1)
    ensures WellNumbered(Inserted(s, t, rec).0)
  {
    var s' := Inserted(s, t, rec).0;
    forall u, k | u in s'.tables && 0 <= k < |s'.tables[u]|
      ensures Col(s'.tables[u][k], ID).Int? && Col(s'.tables[u][k], ID).i < s'.nextId
    {
      assert s'.tables[u] == Rows(s', u);
    }
    forall u, j, k | u in s'.tables && 0 <= j < k < |s'.tables[u]|
      ensures Col(s'.tables[u][j], ID) != Col(s'.tables[u][k], ID)
    {
      assert s'.tables[u] == Rows(s', u);
      if u == t && k == |Rows(s, t)| {
        assert Rows(s, t)[j] == s.tables[t][j];
      } else if u == t {
        assert Rows(s', t)[j] == s.tables[t][j] && Rows(s', t)[k] == s.tables[t][k];
      }
    }
  }

  /** Updating columns other than ID keeps numbering sound. */
  lemma UpdateKeepsNumbering(s: Store, t: string, rec: Row, id: int)
    requires WellNumbered(s) && ID !in rec
    ensures WellNumbered(Updated(s, t, rec, id))
  {
    var s' := Updated(s, t, rec, id);
    forall u, k | u in s'.tables && 0 <= k < |s'.tables[u]|
      ensures Col(s'.tables[u][k], ID) == Col(s.tables[u][k], ID)
    {
      assert s'.tables[u] == Rows(s', u);
    }
  }

  /** A table whose IDs are distinct loses exactly one row when a present ID is deleted. */
  lemma {:induction false} DeleteOnce(rows: seq<Row>, id: int, k: nat)
    requires k < |rows| && Col(rows[k], ID) == Int(id)
    requires forall i, j :: 0 <= i < j < |rows| ==> Col(rows[i], ID) != Col(rows[j], ID)
    ensures |DeleteRows(rows, id)| == |rows| - 1
  {
    if k == 0 {
      DeleteAbsent(rows[1..], id);
    } else {
      DeleteOnce(rows[1..], id, k - 1);
    }
  }

  /** Deleting an ID no row carries changes nothing. */
  lemma {:induction false} DeleteAbsent(rows: seq<Row>, id: int)
    requires forall i :: 0 <= i < |rows| ==> Col(rows[i], ID) != Int(id)
    ensures DeleteRows(rows, id) == rows
  {
    if rows != [] {
      DeleteAbsent(rows[1..], id);
    }
  }

  /** The rows of a soundly numbered table carry distinct integer IDs below `bound`. */
  predicate RowsNumbered(rows: seq<Row>, bound: int) {
    (forall k :: 0 <= k < |rows| ==> Col(rows[k], ID).Int? && Col(rows[k], ID).i < bound) &&
    (forall j, k :: 0 <= j < k < |rows| ==> Col(rows[j], ID) != Col(rows[k], ID))
  }

  lemma {:induction false} DeleteRowsNumbered(rows: seq<Row>, id: int, bound: int)
    requires RowsNumbered(rows, bound)
    ensures RowsNumbered(DeleteRows(rows, id), bound)
  {
    if rows != [] {
      assert RowsNumbered(rows[1..], bound);
      DeleteRowsNumbered(rows[1..], id, bound);
      var r := DeleteRows(rows[1..], id);
      if Col(rows[0], ID) != Int(id) {
        forall k | 0 <= k < |r| ensures Col(rows[0], ID) != Col(r[k], ID) {
          var j :| 0 <= j < |rows[1..]| && rows[1..][j] == r[k];
          assert rows[j + 1] == r[k];
        }
        assert DeleteRows(rows, id) == [rows[0]] + r;
      }
    }
  }

  /** Deleting keeps numbering sound. */
  lemma DeleteKeepsNumbering(s: Store, t: string, id: int)
    requires WellNumbered(s)
    ensures WellNumbered(Deleted(s, t, id))
  {
    if t in s.tables {
      DeleteRowsNumbered(s.tables[t], id, s.nextId);
    }
  }
}
