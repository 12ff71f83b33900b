/**
 * Timestamp coercion of `convert_date_columns`: each listed column that the table has is
 * rewritten through `pd.to_datetime(..., errors='coerce')`, which yields a timestamp or, when
 * the text does not parse, a missing value. The parser itself is a parameter.
 */
module DateColumns {
  import opened Wrappers
  import opened Calendar
  import opened Tables

  /**
   * One cell through the coercing parser: a missing cell stays missing, a timestamp is kept as
   * it is, anything else becomes the parsed timestamp or missing (NaT).
   */
  function Coerce(c: Option<Cell>, parse: Cell -> Option<Date>): (r: Option<Cell>)
    ensures r.None? || r.value.Stamp?
    ensures c.Some? && c.value.Stamp? ==> r == c
    ensures c.None? ==> r.None?
  {
    match c
    case None => None
    case Some(Stamp(_)) => c
    case Some(x) =>
      match parse(x)
      case None => None
      case Some(d) => Some(Stamp(d))
  }

  /** The cells of column `j` after coercion. */
  function CoercedCells(t: Table, j: nat, parse: Cell -> Option<Date>): (cells: seq<Option<Cell>>)
    requires t.Valid() && j < |t.columns|
    ensures |cells| == |t.rows|
  {
    seq(|t.rows|, i requires 0 <= i < |t.rows| => Coerce(t.rows[i][j], parse))
  }

  /** One iteration: `df_copy[col] = pd.to_datetime(df_copy[col], errors='coerce')` when `col` is a column. */
  function ConvertColumn(t: Table, name: string, parse: Cell -> Option<Date>): Table
    requires t.Valid()
  {
    match IndexOf(t.columns, name)
    case None => t
    case Some(j) => SetColumn(t, name, Timestamp, CoercedCells(t, j, parse))
  }

  /** The listed columns converted one after another, in list order. */
  function ConvertAll(t: Table, names: seq<string>, parse: Cell -> Option<Date>): (r: Table)
    requires t.Valid()
    ensures r.Valid() && |r.rows| == |t.rows| && |r.columns| == |t.columns|
    decreases |names|
  {
    if |names| == 0 then t
    else ConvertColumn(ConvertAll(t, names[..|names| - 1], parse), names[|names| - 1], parse)
  }

  /** Column `k` is converted: it is listed, and it is the column that its name selects. */
  predicate Converted(columns: seq<Column>, names: seq<string>, k: nat)
    requires k < |columns|
  {
    columns[k].name in names && IndexOf(columns, columns[k].name) == Some(k)
  }

  /**
   * `convert_date_columns`: a copy of the table, then one column at a time through the
   * coercing parser; listed names that are not columns are skipped.
   */
  method ConvertDateColumns(t: Table, dateColumns: seq<string>, parse: Cell -> Option<Date>) returns (r: Table)
    requires t.Valid()
    ensures r == ConvertAll(t, dateColumns, parse)
  {
    r := t;
    for k := 0 to |dateColumns|
      invariant r == ConvertAll(t, dateColumns[..k], parse)
    {
      assert dateColumns[..k + 1][..k] == dateColumns[..k];
      var col := dateColumns[k];
      match IndexOf(r.columns, col) {
        case Some(j) =>
          r := SetColumn(r, col, Timestamp, CoercedCells(r, j, parse));
        case None =>
      }
    }
    assert dateColumns[..|dateColumns|] == dateColumns;
  }

  /**
   * What the conversion does, column by column: names and row count are kept; a converted
   * column becomes a timestamp column whose cells are the coerced originals (a timestamp or
   * missing); every other column keeps its dtype and its cells.
   */
  lemma {:induction false} ConvertAllSpec(t: Table, names: seq<string>, parse: Cell -> Option<Date>)
    requires t.Valid()
    ensures SameNames(ConvertAll(t, names, parse).columns, t.columns)
    ensures forall k :: 0 <= k < |t.columns| ==>
      ConvertAll(t, names, parse).columns[k].kind == if Converted(t.columns, names, k) then Timestamp else t.columns[k].kind
    ensures forall i, k :: 0 <= i < |t.rows| && 0 <= k < |t.columns| ==>
      ConvertAll(t, names, parse).rows[i][k] == if Converted(t.columns, names, k) then Coerce(t.rows[i][k], parse) else t.rows[i][k]
    decreases |names|
  {
    if |names| > 0 {
      var init, n := names[..|names| - 1], names[|names| - 1];
      assert names == init + [n];
      ConvertAllSpec(t, init, parse);
      var p := ConvertAll(t, init, parse);
      IndexOfSameNames(p.columns, t.columns, n);
      forall k | 0 <= k < |t.columns|
        ensures Converted(t.columns, names, k)
            <==> Converted(t.columns, init, k) || IndexOf(t.columns, n) == Some(k)
      {
        if IndexOf(t.columns, n) == Some(k) {
          assert t.columns[k].name == n;
        }
      }
    }
  }

  /** Converting the same columns a second time changes nothing. */
  lemma ConvertAllIdempotent(t: Table, names: seq<string>, parse: Cell -> Option<Date>)
    requires t.Valid()
    ensures ConvertAll(ConvertAll(t, names, parse), names, parse) == ConvertAll(t, names, parse)
  {
    var r1 := ConvertAll(t, names, parse);
    var r2 := ConvertAll(r1, names, parse);
    ConvertAllSpec(t, names, parse);
    ConvertAllSpec(r1, names, parse);
    forall k | 0 <= k < |t.columns|
      ensures Converted(r1.columns, names, k) == Converted(t.columns, names, k)
      ensures r2.columns[k] == r1.columns[k]
    {
      IndexOfSameNames(r1.columns, t.columns, t.columns[k].name);
    }
    forall i | 0 <= i < |t.rows|
      ensures r2.rows[i] == r1.rows[i]
    {
      forall k | 0 <= k < |t.columns|
        ensures r2.rows[i][k] == r1.rows[i][k]
      {
        assert Converted(r1.columns, names, k) == Converted(t.columns, names, k);
        if Converted(t.columns, names, k) {
          var c := Coerce(t.rows[i][k], parse);
          assert r1.rows[i][k] == c;
          assert r2.rows[i][k] == Coerce(c, parse);
          assert Coerce(c, parse) == c;
        } else {
          assert r2.rows[i][k] == r1.rows[i][k];
        }
      }
    }
  }

  /** Conversion keeps every cell fitting its column's dtype. */
  lemma ConvertAllWellTyped(t: Table, names: seq<string>, parse: Cell -> Option<Date>)
    requires t.WellTyped()
    ensures ConvertAll(t, names, parse).WellTyped()
  {
    ConvertAllSpec(t, names, parse);
  }
}
