/**
 * Weekly aggregation and join of `calculate_correlation_metrics`: each table is grouped by its
 * `YearWeek` key, fixed columns are summed or averaged per week, and the two weekly tables are
 * inner-joined on the key. The correlation matrix computed from the joined table is not part of
 * this model.
 */
module Correlation {
  import opened Wrappers
  import opened Strings
  import Sorting
  import Stats
  import opened Tables
  import WeekColumns

  /** The two aggregations the step uses: `'sum'` and `'mean'`. */
  datatype Aggregation = Total | Average

  /** One entry of an `agg({...})` dictionary. */
  datatype Agg = Agg(column: string, how: Aggregation)

  const MaintenanceAggs: seq<Agg> := [
    Agg("SumMaintenance_Hours", Total),
    Agg("Total_Maintenance_Tickets_By_Week", Average),
    Agg("Maintenance_Time_Allocation_Percentage", Average)
  ]

  const UtilizationAggs: seq<Agg> := [
    Agg("SumRuntime_duration__mins_", Total),
    Agg("Machine_Utilization__", Average),
    Agg("Idle_Percentage__", Average),
    Agg("Desktop_Flow_Success_Rate_Goal", Average),
    Agg("Desktop_Run_Percent_Success", Average)
  ]

  /** The order `groupby` lists its keys in: code point by code point. */
  function KeyOrder(): (string, string) -> bool {
    (a: string, b: string) => LexLe(a, b)
  }

  lemma KeyOrderIsTotalPreorder()
    ensures Sorting.TotalPreorder(KeyOrder())
  {
    forall a: string, b: string
      ensures LexLe(a, b) || LexLe(b, a)
    {
      LexLeTotal(a, b);
    }
    forall a: string, b: string, c: string | LexLe(a, b) && LexLe(b, c)
      ensures LexLe(a, c)
    {
      LexLeTransitive(a, b, c);
    }
  }

  /** The key a row is grouped under: its text in the key column. A row without one is in no group (`dropna`). */
  function RowKey(row: Row, kc: nat): Option<string> {
    if kc < |row| then
      match row[kc]
      case Some(Str(s)) => Some(s)
      case _ => None
    else None
  }

  /** The keys of the rows, in row order, with repeats. */
  function Keys(rows: seq<Row>, kc: nat): seq<string>
    decreases |rows|
  {
    if |rows| == 0 then []
    else (match RowKey(rows[0], kc) case Some(k) => [k] case None => []) + Keys(rows[1..], kc)
  }

  /** The groups' keys, each once, in ascending order. */
  function GroupKeys(rows: seq<Row>, kc: nat): seq<string> {
    Sorting.Sort(Sorting.Distinct(Keys(rows, kc)), KeyOrder())
  }

  /** The number in column `c` of a row, if there is one. */
  function NumberAt(row: Row, c: nat): Option<real> {
    if c < |row| then
      match row[c]
      case Some(Num(x)) => Some(x)
      case _ => None
    else None
  }

  /** The numbers of column `c` in the rows grouped under `key`, in row order. */
  function GroupValues(rows: seq<Row>, kc: nat, key: string, c: nat): seq<real>
    decreases |rows|
  {
    if |rows| == 0 then []
    else
      (if RowKey(rows[0], kc) == Some(key) && NumberAt(rows[0], c).Some? then [NumberAt(rows[0], c).value] else [])
      + GroupValues(rows[1..], kc, key, c)
  }

  /** The numbers of column `c` in all rows that have a key. */
  function KeyedValues(rows: seq<Row>, kc: nat, c: nat): seq<real>
    decreases |rows|
  {
    if |rows| == 0 then []
    else
      (if RowKey(rows[0], kc).Some? && NumberAt(rows[0], c).Some? then [NumberAt(rows[0], c).value] else [])
      + KeyedValues(rows[1..], kc, c)
  }

  /** One aggregated cell: the sum (0 for no values), or the mean (missing for no values). */
  function AggregateCell(xs: seq<real>, how: Aggregation): Option<Cell> {
    match how
    case Total => Some(Num(Stats.Sum(xs)))
    case Average =>
      match Stats.Mean(xs)
      case None => None
      case Some(v) => Some(Num(v))
  }

  /** Every aggregated column is a column of the table; otherwise `agg` raises `KeyError`. */
  predicate Present(columns: seq<Column>, aggs: seq<Agg>) {
    forall a :: 0 <= a < |aggs| ==> IndexOf(columns, aggs[a].column).Some?
  }

  /** `df.groupby('YearWeek').agg({...}).reset_index()`; `None` where `agg` raises. */
  function Weekly(t: Table, kc: nat, aggs: seq<Agg>): (r: Option<Table>)
    requires t.Valid() && kc < |t.columns|
    ensures r.Some? <==> Present(t.columns, aggs)
    ensures r.Some? ==> r.value.Valid() && |r.value.columns| == |aggs| + 1
  {
    if !Present(t.columns, aggs) then None
    else
      var keys := GroupKeys(t.rows, kc);
      Some(Table(
        [Column(WeekColumns.KeyColumn, Text)] + seq(|aggs|, a requires 0 <= a < |aggs| => Column(aggs[a].column, Numeric)),
        seq(|keys|, g requires 0 <= g < |keys| => WeekRow(t, kc, aggs, keys[g]))))
  }

  /** The row of one week: its key, then one aggregated cell per entry of `aggs`. */
  function WeekRow(t: Table, kc: nat, aggs: seq<Agg>, key: string): (row: Row)
    requires Present(t.columns, aggs)
    ensures |row| == |aggs| + 1 && row[0] == Some(Str(key))
  {
    [Some(Str(key))]
    + seq(|aggs|, a requires 0 <= a < |aggs| =>
        AggregateCell(GroupValues(t.rows, kc, key, IndexOf(t.columns, aggs[a].column).value), aggs[a].how))
  }

  /** The first cells of the rows: the join key of a weekly table. */
  function KeysOf(rows: seq<Row>): (ks: seq<Option<Cell>>)
    requires forall i :: 0 <= i < |rows| ==> |rows[i]| >= 1
    ensures |ks| == |rows|
  {
    seq(|rows|, i requires 0 <= i < |rows| => rows[i][0])
  }

  //------------------------------------------------------------------------------------------
  // Grouping
  //------------------------------------------------------------------------------------------

  /** A key is among the rows' keys exactly when some row carries it. */
  lemma {:induction false} KeysMembers(rows: seq<Row>, kc: nat, k: string)
    ensures k in Keys(rows, kc) <==> exists i :: 0 <= i < |rows| && RowKey(rows[i], kc) == Some(k)
    decreases |rows|
  {
    if |rows| > 0 {
      KeysMembers(rows[1..], kc, k);
      if exists i :: 0 <= i < |rows| && RowKey(rows[i], kc) == Some(k) {
        var i :| 0 <= i < |rows| && RowKey(rows[i], kc) == Some(k);
        if i > 0 {
          assert rows[1..][i - 1] == rows[i];
        }
      }
    }
  }

  /**
   * The groups: ascending, each key once, and a key is a group exactly when some row carries
   * it; so the weekly table has one row per distinct week.
   */
  lemma GroupKeysSpec(rows: seq<Row>, kc: nat)
    ensures Sorting.SortedBy(GroupKeys(rows, kc), KeyOrder())
    ensures Sorting.NoDuplicates(GroupKeys(rows, kc))
    ensures forall k :: k in GroupKeys(rows, kc) <==> k in Keys(rows, kc)
  {
    var d := Sorting.Distinct(Keys(rows, kc));
    KeyOrderIsTotalPreorder();
    Sorting.SortSorted(d, KeyOrder());
    Sorting.SortNoDuplicates(d, KeyOrder());
    forall k
      ensures k in GroupKeys(rows, kc) <==> k in Keys(rows, kc)
    {
      assert k in GroupKeys(rows, kc) <==> k in multiset(d);
      var ks := Keys(rows, kc);
      if k in ks {
        var i :| 0 <= i < |ks| && ks[i] == k;
      }
      if k in d {
        var i :| 0 <= i < |d| && d[i] == k;
      }
    }
  }

  /** The group keys strictly ascend: each is below every later one and never above it. */
  lemma GroupKeysAscending(rows: seq<Row>, kc: nat)
    ensures forall i, j :: 0 <= i < j < |GroupKeys(rows, kc)| ==>
      LexLe(GroupKeys(rows, kc)[i], GroupKeys(rows, kc)[j]) && !LexLe(GroupKeys(rows, kc)[j], GroupKeys(rows, kc)[i])
  {
    var g := GroupKeys(rows, kc);
    GroupKeysSpec(rows, kc);
    forall i, j | 0 <= i < j < |g| ensures LexLe(g[i], g[j]) && !LexLe(g[j], g[i]) {
      assert KeyOrder()(g[i], g[j]);
      if LexLe(g[j], g[i]) {
        LexLeAntisymmetric(g[i], g[j]);
        assert false;
      }
    }
  }

  /** The sums of one column over all groups. */
  function TotalOver(keys: seq<string>, rows: seq<Row>, kc: nat, c: nat): real
    decreases |keys|
  {
    if |keys| == 0 then 0.0 else Stats.Sum(GroupValues(rows, kc, keys[0], c)) + TotalOver(keys[1..], rows, kc, c)
  }

  /** A row contributes to exactly the one group its key names. */
  lemma {:induction false} TotalOverCons(keys: seq<string>, row: Row, rows: seq<Row>, kc: nat, c: nat)
    requires Sorting.NoDuplicates(keys)
    ensures TotalOver(keys, [row] + rows, kc, c)
         == TotalOver(keys, rows, kc, c)
          + (if RowKey(row, kc).Some? && RowKey(row, kc).value in keys && NumberAt(row, c).Some? then NumberAt(row, c).value else 0.0)
    decreases |keys|
  {
    if |keys| > 0 {
      TotalOverCons(keys[1..], row, rows, kc, c);
      assert ([row] + rows)[1..] == rows;
      if RowKey(row, kc) == Some(keys[0]) && NumberAt(row, c).Some? {
        Stats.SumCons(NumberAt(row, c).value, GroupValues(rows, kc, keys[0], c));
        assert keys[0] !in keys[1..] by {
          forall i | 0 <= i < |keys[1..]| ensures keys[1..][i] != keys[0] {
            assert keys[1..][i] == keys[i + 1];
          }
        }
      } else {
        assert GroupValues([row] + rows, kc, keys[0], c) == [] + GroupValues(rows, kc, keys[0], c);
        assert [] + GroupValues(rows, kc, keys[0], c) == GroupValues(rows, kc, keys[0], c);
        if RowKey(row, kc).Some? && RowKey(row, kc).value in keys && NumberAt(row, c).Some? {
          assert RowKey(row, kc).value in keys[1..] by {
            var i :| 0 <= i < |keys| && keys[i] == RowKey(row, kc).value;
            assert keys[1..][i - 1] == keys[i];
          }
        }
      }
    }
  }

  /**
   * The per-group sums of a column add up to the sum of that column over every row that has a
   * key, when the groups cover the keys: no hours are lost or counted twice by the grouping.
   */
  lemma {:induction false} TotalOverConserves(keys: seq<string>, rows: seq<Row>, kc: nat, c: nat)
    requires Sorting.NoDuplicates(keys)
    requires forall i :: 0 <= i < |rows| && RowKey(rows[i], kc).Some? ==> RowKey(rows[i], kc).value in keys
    ensures TotalOver(keys, rows, kc, c) == Stats.Sum(KeyedValues(rows, kc, c))
    decreases |rows|
  {
    if |rows| == 0 {
      TotalOverEmpty(keys, kc, c);
    } else {
      assert rows == [rows[0]] + rows[1..];
      assert forall i :: 1 <= i < |rows| ==> rows[1..][i - 1] == rows[i];
      TotalOverConserves(keys, rows[1..], kc, c);
      TotalOverCons(keys, rows[0], rows[1..], kc, c);
      if RowKey(rows[0], kc).Some? && NumberAt(rows[0], c).Some? {
        Stats.SumCons(NumberAt(rows[0], c).value, KeyedValues(rows[1..], kc, c));
      } else {
        assert KeyedValues(rows, kc, c) == [] + KeyedValues(rows[1..], kc, c);
        assert [] + KeyedValues(rows[1..], kc, c) == KeyedValues(rows[1..], kc, c);
      }
    }
  }

  lemma {:induction false} TotalOverEmpty(keys: seq<string>, kc: nat, c: nat)
    ensures TotalOver(keys, [], kc, c) == 0.0
    decreases |keys|
  {
    if |keys| > 0 {
      TotalOverEmpty(keys[1..], kc, c);
    }
  }

  /** Over the groups `groupby` forms, the weekly sums of a column add up to its sum over all rows with a week. */
  lemma WeeklyTotalsConserve(rows: seq<Row>, kc: nat, c: nat)
    ensures TotalOver(GroupKeys(rows, kc), rows, kc, c) == Stats.Sum(KeyedValues(rows, kc, c))
  {
    GroupKeysSpec(rows, kc);
    forall i | 0 <= i < |rows| && RowKey(rows[i], kc).Some?
      ensures RowKey(rows[i], kc).value in GroupKeys(rows, kc)
    {
      KeysMembers(rows, kc, RowKey(rows[i], kc).value);
    }
    TotalOverConserves(GroupKeys(rows, kc), rows, kc, c);
  }

  /**
   * The weekly table: one row per distinct week, in ascending key order, holding the week's key
   * and a week is listed exactly when some input row carries it.
   */
  lemma WeeklyRows(t: Table, kc: nat, aggs: seq<Agg>)
    requires t.Valid() && kc < |t.columns| && Present(t.columns, aggs)
    ensures var w := Weekly(t, kc, aggs).value;
      && |w.rows| == |GroupKeys(t.rows, kc)|
      && (forall g :: 0 <= g < |w.rows| ==> w.rows[g][0] == Some(Str(GroupKeys(t.rows, kc)[g])))
      && (forall g, h :: 0 <= g < h < |w.rows| ==> w.rows[g][0] != w.rows[h][0])
      && (forall k :: Some(Str(k)) in KeysOf(w.rows) <==> k in Keys(t.rows, kc))
    ensures var w := Weekly(t, kc, aggs).value;
      forall g, a :: 0 <= g < |w.rows| && 0 <= a < |aggs| ==>
        w.rows[g][a + 1] == AggregateCell(GroupValues(t.rows, kc, GroupKeys(t.rows, kc)[g], IndexOf(t.columns, aggs[a].column).value), aggs[a].how)
  {
    var w := Weekly(t, kc, aggs).value;
    var keys := GroupKeys(t.rows, kc);
    assert |w.rows| == |keys| && forall g :: 0 <= g < |w.rows| ==> w.rows[g] == WeekRow(t, kc, aggs, keys[g]);
    GroupKeysSpec(t.rows, kc);
    KeyColumnOf(w.rows, keys);
    forall g, a | 0 <= g < |w.rows| && 0 <= a < |aggs|
      ensures w.rows[g][a + 1] == AggregateCell(GroupValues(t.rows, kc, keys[g], IndexOf(t.columns, aggs[a].column).value), aggs[a].how)
    {
      WeekRowCell(t, kc, aggs, keys[g], a);
    }
  }

  /** Aggregated cell `a` of a week's row. */
  lemma WeekRowCell(t: Table, kc: nat, aggs: seq<Agg>, key: string, a: nat)
    requires Present(t.columns, aggs) && a < |aggs|
    ensures WeekRow(t, kc, aggs, key)[a + 1] == AggregateCell(GroupValues(t.rows, kc, key, IndexOf(t.columns, aggs[a].column).value), aggs[a].how)
  {
    assert WeekRow(t, kc, aggs, key)[1..][a] == WeekRow(t, kc, aggs, key)[a + 1];
  }

  /** Rows keyed one by one with distinct keys have distinct keys, and a key is among them exactly when it is among the keys. */
  lemma KeyColumnOf(rows: seq<Row>, keys: seq<string>)
    requires |rows| == |keys| && Sorting.NoDuplicates(keys)
    requires forall g :: 0 <= g < |rows| ==> |rows[g]| >= 1 && rows[g][0] == Some(Str(keys[g]))
    ensures forall g, h :: 0 <= g < h < |rows| ==> rows[g][0] != rows[h][0]
    ensures forall k :: Some(Str(k)) in KeysOf(rows) <==> k in keys
  {
    forall g, h | 0 <= g < h < |rows| ensures rows[g][0] != rows[h][0] {
      assert keys[g] != keys[h];
    }
    forall k
      ensures Some(Str(k)) in KeysOf(rows) <==> k in keys
    {
      if Some(Str(k)) in KeysOf(rows) {
        var g :| 0 <= g < |rows| && KeysOf(rows)[g] == Some(Str(k));
        assert keys[g] == k;
      }
      if k in keys {
        var g :| 0 <= g < |keys| && keys[g] == k;
        assert KeysOf(rows)[g] == Some(Str(k));
      }
    }
  }

  //------------------------------------------------------------------------------------------
  // Inner join on the key
  //------------------------------------------------------------------------------------------

  /** The rows every right row with the same key as `l` contributes: `l` followed by the right row without its key. */
  function Matches(l: Row, rs: seq<Row>): (r: seq<Row>)
    requires |l| >= 1 && forall i :: 0 <= i < |rs| ==> |rs[i]| >= 1
    ensures forall i :: 0 <= i < |r| ==> |r[i]| >= 1
    decreases |rs|
  {
    if |rs| == 0 then []
    else (if rs[0][0] == l[0] then [l + rs[0][1..]] else []) + Matches(l, rs[1..])
  }

  /** The joined rows: for each left row in order, its matches in right order. */
  function JoinRows(ls: seq<Row>, rs: seq<Row>): (r: seq<Row>)
    requires forall i :: 0 <= i < |ls| ==> |ls[i]| >= 1
    requires forall i :: 0 <= i < |rs| ==> |rs[i]| >= 1
    ensures forall i :: 0 <= i < |r| ==> |r[i]| >= 1
    decreases |ls|
  {
    if |ls| == 0 then [] else Matches(ls[0], rs) + JoinRows(ls[1..], rs)
  }

  /** `pd.merge(left, right, on='YearWeek', how='inner')` for tables keyed by their first column. */
  function InnerJoin(left: Table, right: Table): (r: Table)
    requires left.Valid() && right.Valid() && |left.columns| >= 1 && |right.columns| >= 1
    ensures r.Valid()
  {
    JoinRowsShape(left.rows, right.rows, |left.columns|, |right.columns|);
    Table(left.columns + right.columns[1..], JoinRows(left.rows, right.rows))
  }

  lemma KeysOfAppend(a: seq<Row>, b: seq<Row>)
    requires forall i :: 0 <= i < |a| ==> |a[i]| >= 1
    requires forall i :: 0 <= i < |b| ==> |b[i]| >= 1
    ensures KeysOf(a + b) == KeysOf(a) + KeysOf(b)
  {
  }

  /** The matches of `l` all carry its key; there is one exactly when the right side has the key, and at most one when the right keys are distinct. */
  lemma {:induction false} MatchesSpec(l: Row, rs: seq<Row>)
    requires |l| >= 1 && forall i :: 0 <= i < |rs| ==> |rs[i]| >= 1
    ensures forall i :: 0 <= i < |Matches(l, rs)| ==> Matches(l, rs)[i][0] == l[0]
    ensures |Matches(l, rs)| > 0 <==> l[0] in KeysOf(rs)
    ensures Sorting.NoDuplicates(KeysOf(rs)) ==> |Matches(l, rs)| <= 1
    decreases |rs|
  {
    if |rs| > 0 {
      MatchesSpec(l, rs[1..]);
      assert KeysOf(rs) == [rs[0][0]] + KeysOf(rs[1..]);
      if Sorting.NoDuplicates(KeysOf(rs)) {
        Sorting.NoDuplicatesTail(KeysOf(rs));
        assert KeysOf(rs)[1..] == KeysOf(rs[1..]);
      }
    }
  }

  /** Each joined row is a left row followed by a right row of the same key without its key. */
  lemma {:induction false} JoinRowsShape(ls: seq<Row>, rs: seq<Row>, n: nat, w: nat)
    requires n >= 1 && forall i :: 0 <= i < |ls| ==> |ls[i]| == n
    requires w >= 1 && forall i :: 0 <= i < |rs| ==> |rs[i]| == w
    ensures forall i :: 0 <= i < |JoinRows(ls, rs)| ==>
      var row := JoinRows(ls, rs)[i];
      |row| == n + w - 1 && row[..n] in ls && [row[0]] + row[n..] in rs
    decreases |ls|
  {
    if |ls| > 0 {
      JoinRowsShape(ls[1..], rs, n, w);
      MatchesShape(ls[0], rs, w);
      var m, j := Matches(ls[0], rs), JoinRows(ls[1..], rs);
      forall i | 0 <= i < |m + j|
        ensures |(m + j)[i]| == n + w - 1 && (m + j)[i][..n] in ls && [(m + j)[i][0]] + (m + j)[i][n..] in rs
      {
        if i >= |m| {
          assert (m + j)[i] == j[i - |m|];
          assert j[i - |m|][..n] in ls[1..];
        }
      }
    }
  }

  lemma {:induction false} MatchesShape(l: Row, rs: seq<Row>, w: nat)
    requires |l| >= 1 && w >= 1 && forall i :: 0 <= i < |rs| ==> |rs[i]| == w
    ensures forall i :: 0 <= i < |Matches(l, rs)| ==>
      var row := Matches(l, rs)[i];
      |row| == |l| + w - 1 && row[..|l|] == l && [row[0]] + row[|l|..] in rs
    decreases |rs|
  {
    if |rs| > 0 {
      MatchesShape(l, rs[1..], w);
      var m := Matches(l, rs[1..]);
      forall i | 0 <= i < |m|
        ensures [m[i][0]] + m[i][|l|..] in rs
      {
        assert [m[i][0]] + m[i][|l|..] in rs[1..];
      }
      if rs[0][0] == l[0] {
        var row := l + rs[0][1..];
        assert [row[0]] + row[|l|..] == rs[0];
      }
    }
  }

  /** A key is in the join exactly when both sides have it. */
  lemma {:induction false} JoinKeys(ls: seq<Row>, rs: seq<Row>, k: Option<Cell>)
    requires forall i :: 0 <= i < |ls| ==> |ls[i]| >= 1
    requires forall i :: 0 <= i < |rs| ==> |rs[i]| >= 1
    ensures k in KeysOf(JoinRows(ls, rs)) <==> k in KeysOf(ls) && k in KeysOf(rs)
    decreases |ls|
  {
    if |ls| > 0 {
      var tail, m := ls[1..], Matches(ls[0], rs);
      var j := JoinRows(tail, rs);
      assert KeysOf(JoinRows(ls, rs)) == KeysOf(m) + KeysOf(j) by {
        KeysOfAppend(m, j);
      }
      assert k in KeysOf(ls) <==> k == ls[0][0] || k in KeysOf(tail) by {
        assert KeysOf(ls) == [ls[0][0]] + KeysOf(tail);
      }
      assert k in KeysOf(m) <==> k == ls[0][0] && k in KeysOf(rs) by {
        MatchesSpec(ls[0], rs);
        if k in KeysOf(m) {
          var i :| 0 <= i < |m| && KeysOf(m)[i] == k;
        }
        if k == ls[0][0] && k in KeysOf(rs) {
          assert KeysOf(m)[0] == k;
        }
      }
      JoinKeys(tail, rs, k);
    }
  }

  /** With distinct keys on both sides, every key of the join appears once. */
  lemma {:induction false} JoinUnique(ls: seq<Row>, rs: seq<Row>)
    requires forall i :: 0 <= i < |ls| ==> |ls[i]| >= 1
    requires forall i :: 0 <= i < |rs| ==> |rs[i]| >= 1
    requires Sorting.NoDuplicates(KeysOf(ls)) && Sorting.NoDuplicates(KeysOf(rs))
    ensures Sorting.NoDuplicates(KeysOf(JoinRows(ls, rs)))
    decreases |ls|
  {
    if |ls| > 0 {
      var k, tail := ls[0][0], ls[1..];
      var m, j := Matches(ls[0], rs), JoinRows(tail, rs);
      assert Sorting.NoDuplicates(KeysOf(j)) && k !in KeysOf(j) by {
        assert KeysOf(ls)[0] == k;
        assert KeysOf(ls)[1..] == KeysOf(tail);
        Sorting.NoDuplicatesTail(KeysOf(ls));
        JoinUnique(tail, rs);
        JoinKeys(tail, rs, k);
      }
      assert Sorting.NoDuplicates(KeysOf(m)) && forall i :: 0 <= i < |KeysOf(m)| ==> KeysOf(m)[i] == k by {
        MatchesSpec(ls[0], rs);
      }
      Sorting.NoDuplicatesAppend(KeysOf(m), KeysOf(j));
      assert KeysOf(JoinRows(ls, rs)) == KeysOf(m) + KeysOf(j) by {
        KeysOfAppend(m, j);
      }
    }
  }

  /** The join keeps the left order: joining two blocks of left rows is joining each. */
  lemma {:induction false} JoinRowsAppend(a: seq<Row>, b: seq<Row>, rs: seq<Row>)
    requires forall i :: 0 <= i < |a| ==> |a[i]| >= 1
    requires forall i :: 0 <= i < |b| ==> |b[i]| >= 1
    requires forall i :: 0 <= i < |rs| ==> |rs[i]| >= 1
    ensures JoinRows(a + b, rs) == JoinRows(a, rs) + JoinRows(b, rs)
    decreases |a|
  {
    if |a| > 0 {
      var tail, m := a[1..], Matches(a[0], rs);
      assert JoinRows(a + b, rs) == m + JoinRows(tail + b, rs) by {
        assert (a + b)[0] == a[0] && (a + b)[1..] == tail + b;
      }
      assert JoinRows(tail + b, rs) == JoinRows(tail, rs) + JoinRows(b, rs) by {
        JoinRowsAppend(tail, b, rs);
      }
      assert JoinRows(a, rs) == m + JoinRows(tail, rs);
    } else {
      assert a + b == b;
    }
  }

  /** Weeks 202501 and 202502 joined with weeks 202502 and 202503 keep only week 202502. */
  lemma JoinExample()
    ensures KeysOf(JoinRows([[Some(Str("202501"))], [Some(Str("202502"))]],
                            [[Some(Str("202502"))], [Some(Str("202503"))]]))
         == [Some(Str("202502"))]
  {
    assert "202501" != "202502" by { assert "202501"[5] != "202502"[5]; }
    assert "202502" != "202503" by { assert "202502"[5] != "202503"[5]; }
    assert "202501" != "202503" by { assert "202501"[5] != "202503"[5]; }
  }

  //------------------------------------------------------------------------------------------
  // What the step returns, and how the caller unpacks it
  //------------------------------------------------------------------------------------------

  /** The joined weekly table, or `None` when a table has no key column or lacks an aggregated column. */
  function CorrelationFrame(m: Table, u: Table): Option<Table>
    requires m.Valid() && u.Valid()
  {
    match (IndexOf(m.columns, WeekColumns.KeyColumn), IndexOf(u.columns, WeekColumns.KeyColumn))
    case (Some(mk), Some(uk)) =>
      (match (Weekly(m, mk, MaintenanceAggs), Weekly(u, uk, UtilizationAggs))
       case (Some(mw), Some(uw)) => Some(InnerJoin(mw, uw))
       case _ => None)
    case _ => None
  }

  /** A Python return value: a bare `None`, or a pair whose first item is the frame (the matrix is not modelled). */
  datatype Returned = BareNone | Pair(frame: Option<Table>)

  /** The caller's `correlation_df, correlation_matrix = ...`: unpacking a bare `None` raises `TypeError`. */
  datatype Unpacked = UnpackError | Unpacked(frame: Option<Table>)

  function Unpack(r: Returned): Unpacked {
    match r
    case BareNone => UnpackError
    case Pair(f) => Unpacked(f)
  }

  /** `calculate_correlation_metrics` as written: a missing key column returns a bare `None`. */
  function CalculateCorrelationMetricsAsWritten(m: Table, u: Table): (r: Returned)
    requires m.Valid() && u.Valid()
    ensures r.BareNone? <==> IndexOf(m.columns, WeekColumns.KeyColumn).None? || IndexOf(u.columns, WeekColumns.KeyColumn).None?
  {
    if IndexOf(m.columns, WeekColumns.KeyColumn).None? || IndexOf(u.columns, WeekColumns.KeyColumn).None? then BareNone
    else Pair(CorrelationFrame(m, u))
  }

  /** `calculate_correlation_metrics` returning `(None, None)` on every failure, as its other failure path does. */
  function CalculateCorrelationMetrics(m: Table, u: Table): (r: Returned)
    requires m.Valid() && u.Valid()
    ensures Unpack(r).Unpacked?
    ensures Unpack(r).frame.None? <==>
      || IndexOf(m.columns, WeekColumns.KeyColumn).None? || IndexOf(u.columns, WeekColumns.KeyColumn).None?
      || !Present(m.columns, MaintenanceAggs) || !Present(u.columns, UtilizationAggs)
  {
    Pair(CorrelationFrame(m, u))
  }

  /** As written, the caller's unpacking fails exactly when either table lacks the key column. */
  lemma AsWrittenUnpackFails(m: Table, u: Table)
    requires m.Valid() && u.Valid()
    ensures Unpack(CalculateCorrelationMetricsAsWritten(m, u)) == UnpackError
        <==> IndexOf(m.columns, WeekColumns.KeyColumn).None? || IndexOf(u.columns, WeekColumns.KeyColumn).None?
  {
  }

  /** A maintenance table whose date column was missing never gets a key column, and the caller then fails. */
  lemma AsWrittenCounterexample()
    ensures var m := Table([Column("summary", Text)], [[Some(Str("Fix login"))]]);
      var u := Table([Column(WeekColumns.KeyColumn, Text)], []);
      Unpack(CalculateCorrelationMetricsAsWritten(m, u)) == UnpackError
  {
    var m := Table([Column("summary", Text)], [[Some(Str("Fix login"))]]);
    assert "summary" != WeekColumns.KeyColumn by { assert "summary"[0] != WeekColumns.KeyColumn[0]; }
    assert IndexOf(m.columns[1..], WeekColumns.KeyColumn) == None;
  }

  /**
   * With the fix the caller always unpacks a pair, and its frame is missing exactly when a table
   * lacks the key column or an aggregated column.
   */
  lemma CorrectedUnpacks(m: Table, u: Table)
    requires m.Valid() && u.Valid()
    ensures Unpack(CalculateCorrelationMetrics(m, u)) == Unpacked(CorrelationFrame(m, u))
    ensures CorrelationFrame(m, u).None? <==>
      || IndexOf(m.columns, WeekColumns.KeyColumn).None? || IndexOf(u.columns, WeekColumns.KeyColumn).None?
      || !Present(m.columns, MaintenanceAggs) || !Present(u.columns, UtilizationAggs)
  {
  }

  /**
   * The joined frame: its columns are the maintenance weekly columns followed by the
   * utilization ones, and its rows are keyed by exactly the weeks both tables have rows for,
   * each once.
   */
  lemma CorrelationFrameRows(m: Table, u: Table)
    requires m.Valid() && u.Valid() && CorrelationFrame(m, u).Some?
    ensures var f := CorrelationFrame(m, u).value;
      var mk, uk := IndexOf(m.columns, WeekColumns.KeyColumn).value, IndexOf(u.columns, WeekColumns.KeyColumn).value;
      && |f.columns| == 1 + |MaintenanceAggs| + |UtilizationAggs|
      && Sorting.NoDuplicates(KeysOf(f.rows))
      && forall k :: Some(Str(k)) in KeysOf(f.rows) <==> k in Keys(m.rows, mk) && k in Keys(u.rows, uk)
  {
    var mk, uk := IndexOf(m.columns, WeekColumns.KeyColumn).value, IndexOf(u.columns, WeekColumns.KeyColumn).value;
    var mw, uw := Weekly(m, mk, MaintenanceAggs).value, Weekly(u, uk, UtilizationAggs).value;
    WeeklyRows(m, mk, MaintenanceAggs);
    WeeklyRows(u, uk, UtilizationAggs);
    assert Sorting.NoDuplicates(KeysOf(mw.rows)) by {
      forall g, h | 0 <= g < h < |mw.rows| ensures KeysOf(mw.rows)[g] != KeysOf(mw.rows)[h] { }
    }
    assert Sorting.NoDuplicates(KeysOf(uw.rows)) by {
      forall g, h | 0 <= g < h < |uw.rows| ensures KeysOf(uw.rows)[g] != KeysOf(uw.rows)[h] { }
    }
    JoinUnique(mw.rows, uw.rows);
    forall k
      ensures Some(Str(k)) in KeysOf(JoinRows(mw.rows, uw.rows)) <==> k in Keys(m.rows, mk) && k in Keys(u.rows, uk)
    {
      JoinKeys(mw.rows, uw.rows, Some(Str(k)));
    }
  }
}
