/**
 * Missing-value handling of `handle_missing_values`: under the `drop` strategy every row with a
 * missing cell goes; under any other strategy numeric columns are filled with the median or the
 * mean of their values (for those two strategy names) and text (`object`) columns with
 * `"Unknown"`, while timestamp columns keep their gaps.
 */
module MissingValues {
  import opened Wrappers
  import opened Tables
  import Stats

  const Unknown: string := "Unknown"

  /** A row without a missing cell. */
  predicate Complete(row: Row) {
    forall k :: 0 <= k < |row| ==> row[k].Some?
  }

  /** `df.dropna()`: the complete rows, in their order. */
  function DropIncomplete(rows: seq<Row>): (r: seq<Row>)
    ensures |r| <= |rows|
    decreases |rows|
  {
    if |rows| == 0 then []
    else (if Complete(rows[0]) then [rows[0]] else []) + DropIncomplete(rows[1..])
  }

  /** The numbers among some cells, in order: what `median()` and `mean()` see after skipping NaN. */
  function Numbers(cells: seq<Option<Cell>>): (xs: seq<real>)
    ensures |xs| <= |cells|
    decreases |cells|
  {
    if |cells| == 0 then []
    else
      match cells[0]
      case Some(Num(x)) => [x] + Numbers(cells[1..])
      case _ => Numbers(cells[1..])
  }

  /** The statistic a numeric column is filled with; `None` when there is none (NaN). */
  function Statistic(t: Table, j: nat, strategy: string): Option<real>
    requires t.Valid() && j < |t.columns|
  {
    var xs := Numbers(ColumnCells(t, j));
    if strategy == "median" then Stats.Median(xs)
    else if strategy == "mean" then Stats.Mean(xs)
    else None
  }

  /** The value the gaps of column `j` are filled with, if any. */
  function FillValue(t: Table, j: nat, strategy: string): Option<Cell>
    requires t.Valid() && j < |t.columns|
  {
    match t.columns[j].kind
    case Numeric =>
      (match Statistic(t, j, strategy)
       case None => None
       case Some(v) => Some(Num(v)))
    case Text => Some(Str(Unknown))
    case Timestamp => None
  }

  /** `fillna(v)` on one cell; filling with NaN changes nothing. */
  function FillCell(c: Option<Cell>, v: Option<Cell>): Option<Cell> {
    if c.None? then v else c
  }

  /** `df[col] = df[col].fillna(v)` on column `j`. */
  function FillColumn(t: Table, j: nat, v: Option<Cell>): (r: Table)
    requires t.Valid() && j < |t.columns|
    ensures r.Valid() && r.columns == t.columns && |r.rows| == |t.rows|
    ensures forall i, k :: 0 <= i < |t.rows| && 0 <= k < |t.columns| ==>
      r.rows[i][k] == if k == j then FillCell(t.rows[i][j], v) else t.rows[i][k]
  {
    Table(t.columns, seq(|t.rows|, i requires 0 <= i < |t.rows| => t.rows[i][j := FillCell(t.rows[i][j], v)]))
  }

  /** Whether column `k` has been through the numeric loop (first `n` columns) or the text loop (first `m`). */
  predicate Selected(t: Table, k: nat, n: nat, m: nat)
    requires k < |t.columns|
  {
    (t.columns[k].kind == Numeric && k < n) || (t.columns[k].kind == Text && k < m)
  }

  /** The table after the numeric loop has visited `n` columns and the text loop `m`. */
  function FilledPart(t: Table, strategy: string, n: nat, m: nat): (r: Table)
    requires t.Valid()
    ensures r.Valid() && r.columns == t.columns && |r.rows| == |t.rows|
  {
    Table(t.columns, seq(|t.rows|, i requires 0 <= i < |t.rows| =>
      seq(|t.columns|, k requires 0 <= k < |t.columns| =>
        if Selected(t, k, n, m) then FillCell(t.rows[i][k], FillValue(t, k, strategy)) else t.rows[i][k])))
  }

  /** Every column's gaps filled with its fill value, all other cells as they were. */
  function Filled(t: Table, strategy: string): (r: Table)
    requires t.Valid()
    ensures r.Valid() && r.columns == t.columns && |r.rows| == |t.rows|
  {
    FilledPart(t, strategy, |t.columns|, |t.columns|)
  }

  /** The table `handle_missing_values` returns. */
  function HandleMissing(t: Table, strategy: string): Table
    requires t.Valid()
  {
    if strategy == "drop" then Table(t.columns, DropIncomplete(t.rows)) else Filled(t, strategy)
  }

  /** `df_copy[col].isnull().sum() > 0` */
  predicate HasMissing(t: Table, j: nat)
    requires t.Valid() && j < |t.columns|
  {
    exists i :: 0 <= i < |t.rows| && t.rows[i][j].None?
  }

  /** The cell a statistic fills with; `fillna(NaN)` fills nothing. */
  function NumCell(v: Option<real>): Option<Cell> {
    if v.Some? then Some(Num(v.value)) else None
  }

  /**
   * `handle_missing_values`: drop the incomplete rows, or fill the numeric columns that have
   * gaps one by one, then the text columns that have gaps.
   */
  method HandleMissingValues(t: Table, strategy: string) returns (r: Table)
    requires t.Valid()
    ensures r == HandleMissing(t, strategy)
  {
    if strategy == "drop" {
      r := Table(t.columns, DropIncomplete(t.rows));
      return;
    }
    r := t;
    FilledPartStart(t, strategy);
    for j := 0 to |t.columns|
      invariant r == FilledPart(t, strategy, j, 0)
    {
      NumericStep(t, strategy, j);
      if t.columns[j].kind == Numeric && HasMissing(r, j) {
        var values := Numbers(ColumnCells(r, j));
        assert values == Numbers(ColumnCells(t, j));
        if strategy == "median" {
          assert NumCell(Stats.Median(values)) == FillValue(t, j, strategy);
          r := FillColumn(r, j, NumCell(Stats.Median(values)));
        } else if strategy == "mean" {
          assert NumCell(Stats.Mean(values)) == FillValue(t, j, strategy);
          r := FillColumn(r, j, NumCell(Stats.Mean(values)));
        } else {
          FillColumnNoOp(r, j, FillValue(t, j, strategy));
        }
      } else if t.columns[j].kind == Numeric {
        FillColumnNoOp(r, j, FillValue(t, j, strategy));
      }
    }
    for j := 0 to |t.columns|
      invariant r == FilledPart(t, strategy, |t.columns|, j)
    {
      TextStep(t, strategy, j);
      if t.columns[j].kind == Text && HasMissing(r, j) {
        r := FillColumn(r, j, Some(Str(Unknown)));
      } else if t.columns[j].kind == Text {
        FillColumnNoOp(r, j, Some(Str(Unknown)));
      }
    }
  }

  /** Before either loop nothing is filled. */
  lemma FilledPartStart(t: Table, strategy: string)
    requires t.Valid()
    ensures FilledPart(t, strategy, 0, 0) == t
  {
    var p := FilledPart(t, strategy, 0, 0);
    forall i | 0 <= i < |t.rows|
      ensures p.rows[i] == t.rows[i]
    {
    }
  }

  /** Filling a column without gaps, or with nothing, changes nothing. */
  lemma FillColumnNoOp(t: Table, j: nat, v: Option<Cell>)
    requires t.Valid() && j < |t.columns|
    requires !HasMissing(t, j) || v.None?
    ensures FillColumn(t, j, v) == t
  {
    var r := FillColumn(t, j, v);
    forall i | 0 <= i < |t.rows|
      ensures r.rows[i] == t.rows[i]
    {
    }
  }

  /** One turn of the numeric loop: column `j` is still as in the input, and filling it (if numeric) moves on. */
  lemma NumericStep(t: Table, strategy: string, j: nat)
    requires t.Valid() && j < |t.columns|
    ensures ColumnCells(FilledPart(t, strategy, j, 0), j) == ColumnCells(t, j)
    ensures t.columns[j].kind == Numeric ==>
      FilledPart(t, strategy, j + 1, 0) == FillColumn(FilledPart(t, strategy, j, 0), j, FillValue(t, j, strategy))
    ensures t.columns[j].kind != Numeric ==> FilledPart(t, strategy, j + 1, 0) == FilledPart(t, strategy, j, 0)
  {
    var p, q := FilledPart(t, strategy, j, 0), FilledPart(t, strategy, j + 1, 0);
    var f := FillColumn(p, j, FillValue(t, j, strategy));
    if t.columns[j].kind == Numeric {
      forall i | 0 <= i < |t.rows|
        ensures q.rows[i] == f.rows[i]
      {
      }
    } else {
      forall i | 0 <= i < |t.rows|
        ensures q.rows[i] == p.rows[i]
      {
      }
    }
  }

  /** One turn of the text loop. */
  lemma TextStep(t: Table, strategy: string, j: nat)
    requires t.Valid() && j < |t.columns|
    ensures t.columns[j].kind == Text ==>
      FilledPart(t, strategy, |t.columns|, j + 1) == FillColumn(FilledPart(t, strategy, |t.columns|, j), j, Some(Str(Unknown)))
    ensures t.columns[j].kind != Text ==> FilledPart(t, strategy, |t.columns|, j + 1) == FilledPart(t, strategy, |t.columns|, j)
  {
    var n := |t.columns|;
    var p, q := FilledPart(t, strategy, n, j), FilledPart(t, strategy, n, j + 1);
    if t.columns[j].kind == Text {
      var f := FillColumn(p, j, Some(Str(Unknown)));
      forall i | 0 <= i < |t.rows|
        ensures q.rows[i] == f.rows[i]
      {
      }
    } else {
      forall i | 0 <= i < |t.rows|
        ensures q.rows[i] == p.rows[i]
      {
      }
    }
  }

  /** The rows `dropna` keeps are exactly the complete rows of the input. */
  lemma {:induction false} DropIncompleteMembers(rows: seq<Row>, row: Row)
    ensures row in DropIncomplete(rows) <==> row in rows && Complete(row)
    decreases |rows|
  {
    if |rows| > 0 {
      DropIncompleteMembers(rows[1..], row);
      assert rows == [rows[0]] + rows[1..];
    }
  }

  /** `dropna` keeps the input order: dropping from two blocks of rows is dropping from each. */
  lemma {:induction false} DropIncompleteAppend(a: seq<Row>, b: seq<Row>)
    ensures DropIncomplete(a + b) == DropIncomplete(a) + DropIncomplete(b)
    decreases |a|
  {
    if |a| > 0 {
      DropIncompleteAppend(a[1..], b);
      assert (a + b)[0] == a[0];
      assert (a + b)[1..] == a[1..] + b;
      var head := if Complete(a[0]) then [a[0]] else [];
      assert DropIncomplete(a) == head + DropIncomplete(a[1..]);
      assert DropIncomplete(a + b) == head + (DropIncomplete(a[1..]) + DropIncomplete(b));
    } else {
      assert a + b == b;
    }
  }

  /** A column has numbers to take a statistic of exactly when one of its cells is a number. */
  lemma {:induction false} NumbersEmpty(cells: seq<Option<Cell>>)
    ensures |Numbers(cells)| == 0 <==> forall i :: 0 <= i < |cells| ==> !(cells[i].Some? && cells[i].value.Num?)
    decreases |cells|
  {
    if |cells| > 0 {
      NumbersEmpty(cells[1..]);
      assert forall i :: 1 <= i < |cells| ==> cells[i] == cells[1..][i - 1];
    }
  }

  /** Every number taken is a number of some cell, so bounds on the cells bound the numbers. */
  lemma {:induction false} NumbersWithin(cells: seq<Option<Cell>>, lo: real, hi: real)
    requires forall i :: 0 <= i < |cells| && cells[i].Some? && cells[i].value.Num? ==> lo <= cells[i].value.x <= hi
    ensures Stats.Within(Numbers(cells), lo, hi)
    decreases |cells|
  {
    if |cells| > 0 {
      assert forall i :: 1 <= i < |cells| ==> cells[i] == cells[1..][i - 1];
      NumbersWithin(cells[1..], lo, hi);
    }
  }

  /**
   * Filling keeps the columns and the row count, never touches a present cell, and leaves
   * timestamp columns as they were; text columns come out without gaps; under a strategy other
   * than `median` and `mean`, numeric columns are left as they were too.
   */
  lemma FilledSpec(t: Table, strategy: string)
    requires t.Valid()
    ensures forall i, k :: 0 <= i < |t.rows| && 0 <= k < |t.columns| && t.rows[i][k].Some? ==>
      Filled(t, strategy).rows[i][k] == t.rows[i][k]
    ensures forall i, k :: 0 <= i < |t.rows| && 0 <= k < |t.columns| && t.columns[k].kind == Timestamp ==>
      Filled(t, strategy).rows[i][k] == t.rows[i][k]
    ensures forall i, k :: 0 <= i < |t.rows| && 0 <= k < |t.columns| && t.columns[k].kind == Text ==>
      Filled(t, strategy).rows[i][k] == if t.rows[i][k].None? then Some(Str(Unknown)) else t.rows[i][k]
    ensures strategy != "median" && strategy != "mean" ==>
      forall i, k :: 0 <= i < |t.rows| && 0 <= k < |t.columns| && t.columns[k].kind != Text ==>
        Filled(t, strategy).rows[i][k] == t.rows[i][k]
  {
  }

  /**
   * Under `median` or `mean`, a numeric column that holds a number comes out without gaps, each
   * gap holding one statistic of the column's numbers that lies between their least and greatest.
   */
  lemma FilledNumeric(t: Table, strategy: string, k: nat, lo: real, hi: real)
    requires t.Valid() && k < |t.columns| && t.columns[k].kind == Numeric
    requires strategy == "median" || strategy == "mean"
    requires forall i :: 0 <= i < |t.rows| && t.rows[i][k].Some? && t.rows[i][k].value.Num? ==> lo <= t.rows[i][k].value.x <= hi
    requires exists i :: 0 <= i < |t.rows| && t.rows[i][k].Some? && t.rows[i][k].value.Num?
    ensures Statistic(t, k, strategy).Some?
    ensures lo <= Statistic(t, k, strategy).value <= hi
    ensures forall i :: 0 <= i < |t.rows| ==>
      Filled(t, strategy).rows[i][k] == if t.rows[i][k].None? then Some(Num(Statistic(t, k, strategy).value)) else t.rows[i][k]
  {
    var cells := ColumnCells(t, k);
    NumbersEmpty(cells);
    NumbersWithin(cells, lo, hi);
    var xs := Numbers(cells);
    if strategy == "median" {
      Stats.MedianWithinRange(xs, lo, hi);
    } else {
      Stats.MeanWithinRange(xs, lo, hi);
    }
  }

  /** In a well-typed table a numeric column with a present cell holds a number, so `median`/`mean` fill all its gaps. */
  lemma FilledWellTypedComplete(t: Table, strategy: string, k: nat, i0: nat)
    requires t.WellTyped() && k < |t.columns| && t.columns[k].kind == Numeric
    requires strategy == "median" || strategy == "mean"
    requires i0 < |t.rows| && t.rows[i0][k].Some?
    ensures forall i :: 0 <= i < |t.rows| ==> Filled(t, strategy).rows[i][k].Some?
  {
    NumbersEmpty(ColumnCells(t, k));
    assert ColumnCells(t, k)[i0] == t.rows[i0][k];
  }

  /** Every outcome keeps cells fitting their column's dtype. */
  lemma HandleMissingWellTyped(t: Table, strategy: string)
    requires t.WellTyped()
    ensures HandleMissing(t, strategy).WellTyped()
  {
    if strategy == "drop" {
      var r := DropIncomplete(t.rows);
      forall i | 0 <= i < |r|
        ensures |r[i]| == |t.columns|
        ensures forall k :: 0 <= k < |t.columns| ==> Fits(t.columns[k].kind, r[i][k])
      {
        DropIncompleteMembers(t.rows, r[i]);
      }
    }
  }

  /** Under `drop` the outcome has no gap at all. */
  lemma DropLeavesNoGap(t: Table)
    requires t.Valid()
    ensures forall i :: 0 <= i < |HandleMissing(t, "drop").rows| ==> Complete(HandleMissing(t, "drop").rows[i])
  {
    var r := DropIncomplete(t.rows);
    forall i | 0 <= i < |r|
      ensures Complete(r[i])
    {
      DropIncompleteMembers(t.rows, r[i]);
    }
  }
}
