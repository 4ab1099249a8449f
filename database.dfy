/** The Database class of database.py: the table store as mutable state with the operations
    that change it, and the value coercion convert_value. The lookups are the functions of
    module Tables, applied to the database's contents. */
module Database {
  import opened Wrappers
  import opened Tables

  /** What the locale library provides: `atof` parses a number under the configured locale
      (None where locale.atof raises), `floatStr` is Python's str() of a float. */
  datatype NumberFormat = NumberFormat(atof: string -> Option<real>, floatStr: real -> string)

  /** The Python types convert_value converts to. */
  datatype Kind = StrKind | FloatKind | IntKind | BoolKind

  /** The Python type of a value (NULL, Python's None, has none of the four). */
  function KindOf(v: Val): Option<Kind> {
    match v
    case Str(_) => Some(StrKind)
    case Amount(_) => Some(FloatKind)
    case Int(_) => Some(IntKind)
    case Bool(_) => Some(BoolKind)
    case Null => None
  }

  function Abs(x: real): (r: real)
    ensures r >= 0.0 && (r == x || r == -x)
  {
    if x < 0.0 then -x else x
  }

  /** Python's int() of a float: truncation toward zero. */
  function Trunc(x: real): (r: int)
    ensures x >= 0.0 ==> r as real <= x < r as real + 1.0
    ensures x < 0.0 ==> r as real - 1.0 < x <= r as real
  {
    if x >= 0.0 then x.Floor else -((-x).Floor)
  }

  function Digit(d: nat): (c: char)
    requires d < 10
    ensures '0' <= c <= '9' && c as int - '0' as int == d
  {
    ('0' as int + d) as char
  }

  /** The number a string of decimal digits denotes, most significant first. */
  function DigitsValue(r: string): int
    requires forall k :: 0 <= k < |r| ==> '0' <= r[k] <= '9'
  {
    if r == [] then 0 else DigitsValue(r[..|r| - 1]) * 10 + (r[|r| - 1] as int - '0' as int)
  }

  /** str() of a natural number: decimal digits, most significant first, that read back as
      `n` and carry no leading zero. */
  function Digits(n: nat): (r: string)
    ensures |r| >= 1 && forall k :: 0 <= k < |r| ==> '0' <= r[k] <= '9'
    ensures DigitsValue(r) == n
    ensures n >= 10 ==> r[0] != '0'
  {
    if n < 10 then [Digit(n)]
    else
      var r := Digits(n / 10) + [Digit(n % 10)];
      assert r[..|r| - 1] == Digits(n / 10);
      r
  }

  /** Python's str() of a value. */
  function PyStr(nf: NumberFormat, v: Val): string {
    match v
    case Str(s) => s
    case Int(i) => if i < 0 then "-" + Digits(-i) else Digits(i)
    case Bool(b) => if b then "True" else "False"
    case Amount(x) => nf.floatStr(x)
    case Null => "None"
  }

  /** locale.atof of a value: it needs a string, anything else raises, and so does '' under
      every locale, since it ends in float(''). */
  function Atof(nf: NumberFormat, v: Val): Option<real> {
    if v.Str? && v.s != "" then nf.atof(v.s) else None
  }

  /** convert_value(val, value_type, abs_val). A value already of the target type comes back
      unchanged (abs_val is not applied); str() gives text; '' converts to the float 0.0 but
      is an error for int; a number that does not parse is an error; a target type other than
      str, float and int yields None. */
  function ConvertValue(nf: NumberFormat, v: Val, kind: Kind, absVal: bool): Result<Val, string>
  {
    if KindOf(v) == Some(kind) then Success(v)
    else match kind
      case StrKind => Success(Str(PyStr(nf, v)))
      case FloatKind => ToFloat(nf, v, absVal)
      case IntKind =>
        (match Atof(nf, v)
          case None => Failure("could not convert to int")
          case Some(x) => Success(Int(if absVal then Trunc(Abs(x)) else Trunc(x))))
      case BoolKind => Success(Null)
  }

  /** convert_value(val, float, abs_val). */
  function ToFloat(nf: NumberFormat, v: Val, absVal: bool): Result<Val, string> {
    if v.Amount? then Success(v)
    else if v == Str("") then Success(Amount(0.0))
    else match Atof(nf, v)
      case None => Failure("could not convert to float")
      case Some(x) => Success(Amount(if absVal then Abs(x) else x))
  }


  /** The four cases of convert_value: a value of the target type is returned as it is; str()
      always succeeds with text; a float or int conversion succeeds exactly when the text
      parses ('' being 0.0 for float), and with abs_val is never negative; any other target
      type gives None. */
  lemma ConvertValueCases(nf: NumberFormat, v: Val, kind: Kind, absVal: bool)
    ensures var r := ConvertValue(nf, v, kind, absVal);
      KindOf(v) == Some(kind) ==> r == Success(v)
    ensures var r := ConvertValue(nf, v, kind, absVal);
      KindOf(v) != Some(kind) && kind == StrKind ==> r.Success? && r.value.Str?
    ensures var r := ConvertValue(nf, v, kind, absVal);
      KindOf(v) != Some(kind) && kind == FloatKind ==>
        if v == Str("") then r == Success(Amount(0.0))
        else (r.Success? <==> Atof(nf, v).Some?) && (r.Success? ==> r.value.Amount?)
    ensures var r := ConvertValue(nf, v, kind, absVal);
      KindOf(v) != Some(kind) && kind == IntKind ==>
        (r.Success? <==> Atof(nf, v).Some?) && (r.Success? ==> r.value.Int?)
    ensures KindOf(v) != Some(kind) && kind == IntKind && v == Str("") ==> ConvertValue(nf, v, kind, absVal).Failure?
    ensures var r := ConvertValue(nf, v, kind, absVal);
      KindOf(v) != Some(kind) && kind == BoolKind ==> r == Success(Null)
    ensures var r := ConvertValue(nf, v, kind, absVal);
      absVal && KindOf(v) != Some(kind) && r.Success? && r.value.Amount? ==> r.value.x >= 0.0
    ensures var r := ConvertValue(nf, v, kind, absVal);
      absVal && KindOf(v) != Some(kind) && r.Success? && r.value.Int? ==> r.value.i >= 0
  {
  }

  /** With abs_val, an amount and its negation convert to the same float. */
  lemma SignIgnored(nf: NumberFormat, a: string, b: string, x: real)
    requires a != "" && b != "" && nf.atof(a) == Some(x) && nf.atof(b) == Some(-x)
    ensures ConvertValue(nf, Str(a), FloatKind, true) == ConvertValue(nf, Str(b), FloatKind, true)
    ensures ConvertValue(nf, Str(a), FloatKind, true) == Success(Amount(Abs(x)))
  {
  }

  /** The database object: `db`, the contents of the SQLite connection it holds, is the state
      its methods change; the queries are the functions of module Tables applied to it. */
  class Database {
    var db: Store
    const numbers: NumberFormat

    constructor (numbers: NumberFormat)
      ensures db == Empty && this.numbers == numbers
    {
      db := Empty;
      this.numbers := numbers;
    }

    /** insert_row: appends one row to `t` and returns the ID it was given. */
    method InsertRow(t: string, rec: Row) returns (id: int)
      modifies this
      ensures (db, id) == Inserted(old(db), t, rec)
      ensures forall u :: u != t ==> Rows(db, u) == Rows(old(db), u)
      ensures Rows(db, t) == Rows(old(db), t) + [rec[ID := Int(id)]]
    {
      id := db.nextId;
      db := Store(db.tables[t := Rows(db, t) + [rec[ID := Int(id)]]], db.nextId + 1);
    }

    /** update_row_by_id: overwrites the listed columns of the rows with that ID. */
    method UpdateRowById(t: string, rec: Row, id: int)
      modifies this
      ensures db == Updated(old(db), t, rec, id)
    {
      if t in db.tables {
        db := Store(db.tables[t := UpdateRows(db.tables[t], rec, id)], db.nextId);
      }
    }

    /** set_single_value: one column of the rows with that ID. */
    method SetSingleValue(t: string, c: string, id: int, v: Val)
      modifies this
      ensures db == Updated(old(db), t, map[c := v], id)
      ensures forall k :: 0 <= k < |Rows(db, t)| ==>
        Col(Rows(db, t)[k], c) == if Col(Rows(old(db), t)[k], ID) == Int(id) then v
                                  else Col(Rows(old(db), t)[k], c)
    {
      UpdateRowById(t, map[c := v], id);
    }

    /** delete_row: removes the rows with that ID. */
    method DeleteRow(t: string, id: int)
      modifies this
      ensures db == Deleted(old(db), t, id)
    {
      if t in db.tables {
        db := Store(db.tables[t := DeleteRows(db.tables[t], id)], db.nextId);
      }
    }
  }
}
