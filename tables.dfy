/**
 * The table every step of the cleaning pass takes and returns (a pandas DataFrame): named, typed
 * columns in order, and rows of cells aligned with them, where a missing cell (NaN, NaT, None)
 * is `None`.
 */
module Tables {
  import opened Wrappers
  import Calendar

  /** The dtypes the cleaning pass branches on: numbers, `object` (text) and `datetime64`. */
  datatype Kind = Numeric | Text | Timestamp

  datatype Cell = Num(x: real) | Str(s: string) | Stamp(date: Calendar.Date)

  datatype Column = Column(name: string, kind: Kind)

  type Row = seq<Option<Cell>>

  datatype Table = Table(columns: seq<Column>, rows: seq<Row>) {
    /** Every row has one cell per column. */
    predicate Valid() {
      forall i :: 0 <= i < |rows| ==> |rows[i]| == |columns|
    }

    /** Every cell fits its column's dtype: numbers in numeric columns, timestamps in datetime ones. */
    predicate WellTyped() {
      Valid() && forall i, k :: 0 <= i < |rows| && 0 <= k < |columns| ==> Fits(columns[k].kind, rows[i][k])
    }
  }

  /** A missing cell fits every dtype; an `object` column holds anything. */
  predicate Fits(kind: Kind, c: Option<Cell>) {
    match c
    case None => true
    case Some(x) =>
      match kind
      case Numeric => x.Num?
      case Timestamp => x.Stamp?
      case Text => true
  }

  /** `name in df.columns`, resolved to the first column of that name. */
  function IndexOf(columns: seq<Column>, name: string): (r: Option<nat>)
    ensures r.Some? ==> r.value < |columns| && columns[r.value].name == name
    ensures r.Some? ==> forall j :: 0 <= j < r.value ==> columns[j].name != name
    ensures r.None? ==> forall j :: 0 <= j < |columns| ==> columns[j].name != name
    decreases |columns|
  {
    if |columns| == 0 then None
    else if columns[0].name == name then Some(0)
    else match IndexOf(columns[1..], name)
      case None => None
      case Some(j) => Some(j + 1)
  }

  /** The cells of column `j`, top to bottom. */
  function ColumnCells(t: Table, j: nat): (cells: seq<Option<Cell>>)
    requires t.Valid() && j < |t.columns|
    ensures |cells| == |t.rows| && forall i :: 0 <= i < |t.rows| ==> cells[i] == t.rows[i][j]
  {
    seq(|t.rows|, i requires 0 <= i < |t.rows| => t.rows[i][j])
  }

  /**
   * `df[name] = cells`: the column called `name` is overwritten in place, with the new dtype, or
   * a new column is appended when there is none; every other column is kept as it was.
   */
  function SetColumn(t: Table, name: string, kind: Kind, cells: seq<Option<Cell>>): (r: Table)
    requires t.Valid() && |cells| == |t.rows|
    ensures r.Valid() && |r.rows| == |t.rows|
    ensures |r.columns| == |t.columns| + (if IndexOf(t.columns, name).Some? then 0 else 1)
    ensures IndexOf(r.columns, name).Some?
    ensures var j := IndexOf(r.columns, name).value;
      && r.columns[j] == Column(name, kind)
      && (forall i :: 0 <= i < |r.rows| ==> r.rows[i][j] == cells[i])
      && (forall k :: 0 <= k < |t.columns| && k != j ==> r.columns[k] == t.columns[k])
      && (forall i, k :: 0 <= i < |r.rows| && 0 <= k < |t.columns| && k != j ==> r.rows[i][k] == t.rows[i][k])
  {
    match IndexOf(t.columns, name)
    case Some(j) =>
      var r := Table(t.columns[j := Column(name, kind)],
                     seq(|t.rows|, i requires 0 <= i < |t.rows| => t.rows[i][j := cells[i]]));
      assert IndexOf(r.columns, name) == Some(j) by { IndexOfAt(r.columns, name, j); }
      r
    case None =>
      var r := Table(t.columns + [Column(name, kind)],
                     seq(|t.rows|, i requires 0 <= i < |t.rows| => t.rows[i] + [cells[i]]));
      assert IndexOf(r.columns, name) == Some(|t.columns|) by { IndexOfAt(r.columns, name, |t.columns|); }
      r
  }

  /** The first column named `name` is at `j` whenever it is there and no earlier column has that name. */
  lemma {:induction false} IndexOfAt(cols: seq<Column>, name: string, j: nat)
    requires j < |cols| && cols[j].name == name
    requires forall k :: 0 <= k < j ==> cols[k].name != name
    ensures IndexOf(cols, name) == Some(j)
    decreases j
  {
    if j > 0 {
      IndexOfAt(cols[1..], name, j - 1);
    }
  }

  /** Two column lists with the same names in the same order. */
  predicate SameNames(a: seq<Column>, b: seq<Column>) {
    |a| == |b| && forall k :: 0 <= k < |a| ==> a[k].name == b[k].name
  }

  /** Name lookup sees only the names: changing dtypes moves no column. */
  lemma {:induction false} IndexOfSameNames(a: seq<Column>, b: seq<Column>, name: string)
    requires SameNames(a, b)
    ensures IndexOf(a, name) == IndexOf(b, name)
    decreases |a|
  {
    if |a| > 0 && a[0].name != name {
      IndexOfSameNames(a[1..], b[1..], name);
    }
  }

  /** Setting one column leaves where every other name resolves. */
  lemma SetColumnOther(t: Table, name: string, kind: Kind, cells: seq<Option<Cell>>, other: string)
    requires t.Valid() && |cells| == |t.rows| && other != name
    ensures IndexOf(SetColumn(t, name, kind, cells).columns, other) == IndexOf(t.columns, other)
    ensures IndexOf(t.columns, other).Some? ==>
      var r, y := SetColumn(t, name, kind, cells), IndexOf(t.columns, other).value;
      r.columns[y] == t.columns[y] && forall i :: 0 <= i < |t.rows| ==> r.rows[i][y] == t.rows[i][y]
  {
    var r := SetColumn(t, name, kind, cells);
    var j := IndexOf(r.columns, name).value;
    match IndexOf(t.columns, other)
    case Some(y) =>
      IndexOfAt(r.columns, other, y);
    case None =>
      assert forall k :: 0 <= k < |r.columns| ==> r.columns[k].name != other by {
        forall k | 0 <= k < |r.columns|
          ensures r.columns[k].name != other
        {
          if k != j {
            assert k < |t.columns|;
          }
        }
      }
  }

  /** Setting a column leaves every column of another name where it was, with its dtype and cells. */
  lemma SetColumnKeeps(t: Table, name: string, kind: Kind, cells: seq<Option<Cell>>, k: nat)
    requires t.Valid() && |cells| == |t.rows| && k < |t.columns| && t.columns[k].name != name
    ensures var r := SetColumn(t, name, kind, cells);
      k < |r.columns| && r.columns[k] == t.columns[k] && forall i :: 0 <= i < |t.rows| ==> r.rows[i][k] == t.rows[i][k]
  {
    var j := IndexOf(SetColumn(t, name, kind, cells).columns, name).value;
    assert k != j by {
      if IndexOf(t.columns, name).Some? {
        assert t.columns[IndexOf(t.columns, name).value].name == name;
      }
    }
  }

  /** Setting a column to cells that fit its new dtype keeps every cell of the table fitting its column. */
  lemma SetColumnWellTyped(t: Table, name: string, kind: Kind, cells: seq<Option<Cell>>)
    requires t.WellTyped() && |cells| == |t.rows|
    requires forall i :: 0 <= i < |cells| ==> Fits(kind, cells[i])
    ensures SetColumn(t, name, kind, cells).WellTyped()
  {
    var r := SetColumn(t, name, kind, cells);
    var j := IndexOf(r.columns, name).value;
    forall i, k | 0 <= i < |r.rows| && 0 <= k < |r.columns|
      ensures Fits(r.columns[k].kind, r.rows[i][k])
    {
      if k != j {
        assert k < |t.columns|;
      }
    }
  }
}
