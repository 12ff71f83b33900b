/**
 * Week bucketing of `create_week_column`: from a timestamp column, three columns are set on a
 * copy of the table: `Year` (the ISO 8601 week-numbering year), `Week` (the ISO week number) and
 * `YearWeek`, the key `<year><week padded to two digits>` that later steps group by.
 */
module WeekColumns {
  import opened Wrappers
  import opened Strings
  import opened Calendar
  import opened Tables

  const YearColumn: string := "Year"
  const WeekColumn: string := "Week"
  const KeyColumn: string := "YearWeek"

  /**
   * The key of a date: its ISO year and week, written as `WeekKey` writes them. The key reads
   * back as a year and a week, and that week of that year (as ISO 8601 defines them, from the
   * Monday of the week holding the year's first Thursday) is the one holding the date.
   */
  function DateKey(d: Date): (k: string)
    ensures IsDigits(k) && |k| >= 3
    ensures KeyYear(k) == IsoCalendar(d).year && KeyWeek(k) == IsoCalendar(d).week
    ensures 1 <= KeyWeek(k) <= 53 && 1 <= KeyYear(k)
    ensures Week1Monday(KeyYear(k)) <= Ordinal(d) < Week1Monday(KeyYear(k) + 1)
    ensures Ordinal(d) == Week1Monday(KeyYear(k)) + 7 * (KeyWeek(k) - 1) + Weekday(Ordinal(d))
  {
    IsoCalendarCorrect(d);
    var iso := IsoCalendar(d);
    WeekKeyRoundTrip(iso.year, iso.week);
    WeekKey(iso.year, iso.week)
  }

  /** `.dt.isocalendar().year` of a column: missing where the timestamp is missing. */
  function YearCells(t: Table, j: nat): (cells: seq<Option<Cell>>)
    requires t.Valid() && j < |t.columns|
    ensures |cells| == |t.rows|
  {
    seq(|t.rows|, i requires 0 <= i < |t.rows| =>
      match t.rows[i][j]
      case Some(Stamp(d)) => Some(Num(IsoCalendar(d).year as real))
      case _ => None)
  }

  /** `.dt.isocalendar().week` of a column. */
  function WeekCells(t: Table, j: nat): (cells: seq<Option<Cell>>)
    requires t.Valid() && j < |t.columns|
    ensures |cells| == |t.rows|
  {
    seq(|t.rows|, i requires 0 <= i < |t.rows| =>
      match t.rows[i][j]
      case Some(Stamp(d)) => Some(Num(IsoCalendar(d).week as real))
      case _ => None)
  }

  /** The `YearWeek` keys of a column; a row without a timestamp gets no key. */
  function KeyCells(t: Table, j: nat): (cells: seq<Option<Cell>>)
    requires t.Valid() && j < |t.columns|
    ensures |cells| == |t.rows|
  {
    seq(|t.rows|, i requires 0 <= i < |t.rows| =>
      match t.rows[i][j]
      case Some(Stamp(d)) => Some(Str(DateKey(d)))
      case _ => None)
  }

  /** The table `create_week_column` returns. */
  function WithWeeks(t: Table, dateColumn: string): (r: Table)
    requires t.Valid()
    ensures r.Valid() && |r.rows| == |t.rows|
  {
    match IndexOf(t.columns, dateColumn)
    case Some(j) =>
      if t.columns[j].kind == Timestamp then
        var t1 := SetColumn(t, YearColumn, Numeric, YearCells(t, j));
        var t2 := SetColumn(t1, WeekColumn, Numeric, WeekCells(t, j));
        SetColumn(t2, KeyColumn, Text, KeyCells(t, j))
      else t
    case None => t
  }

  /**
   * `create_week_column`: when the date column is there and holds timestamps, the three
   * columns are assigned onto a copy of the table, one after another; otherwise the copy is
   * returned as it is.
   */
  method CreateWeekColumn(t: Table, dateColumn: string) returns (r: Table)
    requires t.Valid()
    ensures r == WithWeeks(t, dateColumn)
  {
    r := t;
    match IndexOf(r.columns, dateColumn) {
      case Some(j) =>
        if r.columns[j].kind == Timestamp {
          r := SetColumn(r, YearColumn, Numeric, YearCells(t, j));
          r := SetColumn(r, WeekColumn, Numeric, WeekCells(t, j));
          r := SetColumn(r, KeyColumn, Text, KeyCells(t, j));
        }
      case None =>
    }
  }

  /** A table without the date column, or whose date column is not a timestamp column, comes back unchanged. */
  lemma WithWeeksSkips(t: Table, dateColumn: string)
    requires t.Valid()
    requires IndexOf(t.columns, dateColumn).None? || t.columns[IndexOf(t.columns, dateColumn).value].kind != Timestamp
    ensures WithWeeks(t, dateColumn) == t
  {
  }

  /** The three new columns are there, named and typed as assigned. */
  lemma WithWeeksColumns(t: Table, dateColumn: string)
    requires t.Valid()
    requires IndexOf(t.columns, dateColumn).Some? && t.columns[IndexOf(t.columns, dateColumn).value].kind == Timestamp
    ensures var r := WithWeeks(t, dateColumn);
      && IndexOf(r.columns, YearColumn).Some? && IndexOf(r.columns, WeekColumn).Some? && IndexOf(r.columns, KeyColumn).Some?
      && r.columns[IndexOf(r.columns, YearColumn).value] == Column(YearColumn, Numeric)
      && r.columns[IndexOf(r.columns, WeekColumn).value] == Column(WeekColumn, Numeric)
      && r.columns[IndexOf(r.columns, KeyColumn).value] == Column(KeyColumn, Text)
  {
    var j := IndexOf(t.columns, dateColumn).value;
    var t1 := SetColumn(t, YearColumn, Numeric, YearCells(t, j));
    var t2 := SetColumn(t1, WeekColumn, Numeric, WeekCells(t, j));
    SetColumnOther(t1, WeekColumn, Numeric, WeekCells(t, j), YearColumn);
    SetColumnOther(t2, KeyColumn, Text, KeyCells(t, j), YearColumn);
    SetColumnOther(t2, KeyColumn, Text, KeyCells(t, j), WeekColumn);
  }

  /**
   * What the new columns hold, row by row: for a row with a timestamp its ISO year, its ISO week
   * (1 to 53) and their key; for a row without one, nothing in any of the three.
   */
  lemma WithWeeksCells(t: Table, dateColumn: string, i: nat)
    requires t.Valid() && i < |t.rows|
    requires IndexOf(t.columns, dateColumn).Some? && t.columns[IndexOf(t.columns, dateColumn).value].kind == Timestamp
    ensures var r := WithWeeks(t, dateColumn);
      IndexOf(r.columns, YearColumn).Some? && IndexOf(r.columns, WeekColumn).Some? && IndexOf(r.columns, KeyColumn).Some?
    ensures var r := WithWeeks(t, dateColumn);
      var j, y, w, key := IndexOf(t.columns, dateColumn).value, IndexOf(r.columns, YearColumn).value,
                          IndexOf(r.columns, WeekColumn).value, IndexOf(r.columns, KeyColumn).value;
      match t.rows[i][j]
      case Some(Stamp(d)) =>
        && r.rows[i][y] == Some(Num(IsoCalendar(d).year as real))
        && r.rows[i][w] == Some(Num(IsoCalendar(d).week as real))
        && 1 <= IsoCalendar(d).week <= 53
        && r.rows[i][key] == Some(Str(DateKey(d)))
      case _ => r.rows[i][y].None? && r.rows[i][w].None? && r.rows[i][key].None?
  {
    WithWeeksColumns(t, dateColumn);
    var j := IndexOf(t.columns, dateColumn).value;
    var t1 := SetColumn(t, YearColumn, Numeric, YearCells(t, j));
    var t2 := SetColumn(t1, WeekColumn, Numeric, WeekCells(t, j));
    SetColumnOther(t1, WeekColumn, Numeric, WeekCells(t, j), YearColumn);
    SetColumnOther(t2, KeyColumn, Text, KeyCells(t, j), YearColumn);
    SetColumnOther(t2, KeyColumn, Text, KeyCells(t, j), WeekColumn);
    if t.rows[i][j].Some? && t.rows[i][j].value.Stamp? {
      IsoCalendarCorrect(t.rows[i][j].value.date);
    }
  }

  /** Every column of the input other than the three keeps its place, dtype and cells. */
  lemma WithWeeksKeepsOthers(t: Table, dateColumn: string, k: nat)
    requires t.Valid() && k < |t.columns|
    requires t.columns[k].name != YearColumn && t.columns[k].name != WeekColumn && t.columns[k].name != KeyColumn
    ensures var r := WithWeeks(t, dateColumn);
      k < |r.columns| && r.columns[k] == t.columns[k] && forall i :: 0 <= i < |t.rows| ==> r.rows[i][k] == t.rows[i][k]
  {
    match IndexOf(t.columns, dateColumn)
    case Some(j) =>
      if t.columns[j].kind == Timestamp {
        var t1 := SetColumn(t, YearColumn, Numeric, YearCells(t, j));
        var t2 := SetColumn(t1, WeekColumn, Numeric, WeekCells(t, j));
        SetColumnKeeps(t, YearColumn, Numeric, YearCells(t, j), k);
        SetColumnKeeps(t1, WeekColumn, Numeric, WeekCells(t, j), k);
        SetColumnKeeps(t2, KeyColumn, Text, KeyCells(t, j), k);
      }
    case None =>
  }

  /** Bucketing keeps every cell fitting its column's dtype: the year and week are numbers, the key text. */
  lemma WithWeeksWellTyped(t: Table, dateColumn: string)
    requires t.WellTyped()
    ensures WithWeeks(t, dateColumn).WellTyped()
  {
    var r := WithWeeks(t, dateColumn);
    if IndexOf(t.columns, dateColumn).Some? && t.columns[IndexOf(t.columns, dateColumn).value].kind == Timestamp {
      var j := IndexOf(t.columns, dateColumn).value;
      var t1 := SetColumn(t, YearColumn, Numeric, YearCells(t, j));
      var t2 := SetColumn(t1, WeekColumn, Numeric, WeekCells(t, j));
      SetColumnWellTyped(t, YearColumn, Numeric, YearCells(t, j));
      SetColumnWellTyped(t1, WeekColumn, Numeric, WeekCells(t, j));
      SetColumnWellTyped(t2, KeyColumn, Text, KeyCells(t, j));
    }
  }

  /** A timestamp on 2025-01-15 gets the key "202503": week 3 of 2025. */
  lemma DateKeyExample()
    ensures DateKey(CivilDate(2025, 1, 15)) == "202503"
  {
    WeekKeyExample();
  }
}
