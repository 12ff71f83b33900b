/**
 * Column-name cleaning of `clean_column_names`: source-system qualifiers such as
 * `Table[Field]` are stripped from column names; rows, column count, column order and dtypes
 * are kept.
 */
module ColumnNames {
  import opened Strings
  import opened Tables

  const DesktopQualifier: string := "Dataverse_Desktop Machines Utilizations["
  const MaintenanceQualifier: string := "API_JIRA_Data_Maintenance["

  /** The generic rule: the text after the last `[`, with every `]` removed. */
  function BracketField(col: string): string {
    DeleteAll(AfterLast(col, '['), "]")
  }

  /** A qualifier rule: `col.replace(q, '').replace(']', '')`. */
  function StripQualifier(col: string, q: string): string
    requires |q| > 0
  {
    DeleteAll(DeleteAll(col, q), "]")
  }

  /**
   * The new name of one column. The generic rule applies to names holding both brackets; the
   * desktop-utilization and then the maintenance qualifier rules test the original name and,
   * when they fire, replace whatever was computed before.
   */
  function CleanName(col: string): string {
    var generic := if '[' in col && ']' in col then BracketField(col) else col;
    var desktop := if Contains(col, DesktopQualifier) then StripQualifier(col, DesktopQualifier) else generic;
    if Contains(col, MaintenanceQualifier) then StripQualifier(col, MaintenanceQualifier) else desktop
  }

  /** The cleaned column list: each name cleaned, dtype and position kept. */
  function CleanColumns(columns: seq<Column>): (r: seq<Column>)
    ensures |r| == |columns|
    ensures forall j :: 0 <= j < |r| ==> r[j].name == CleanName(columns[j].name) && r[j].kind == columns[j].kind
  {
    seq(|columns|, j requires 0 <= j < |columns| => Column(CleanName(columns[j].name), columns[j].kind))
  }

  /** `df.rename(columns=m)`: a column whose name is a key of `m` takes the mapped name. */
  function Rename(t: Table, m: map<string, string>): Table {
    Table(seq(|t.columns|, j requires 0 <= j < |t.columns| =>
            var c := t.columns[j]; if c.name in m then Column(m[c.name], c.kind) else c),
          t.rows)
  }

  /**
   * `clean_column_names`: builds the old-to-new name mapping column by column, then renames a
   * copy of the table with it. The rows are the input's; only the names change.
   */
  method CleanColumnNames(t: Table) returns (r: Table)
    ensures r == Table(CleanColumns(t.columns), t.rows)
  {
    var newColumns: map<string, string> := map[];
    for j := 0 to |t.columns|
      invariant forall c :: c in newColumns ==> newColumns[c] == CleanName(c)
      invariant forall k :: 0 <= k < j ==> t.columns[k].name in newColumns
    {
      var col := t.columns[j].name;
      var newCol := col;
      if '[' in col && ']' in col {
        newCol := BracketField(col);
      }
      if Contains(col, DesktopQualifier) {
        newCol := StripQualifier(col, DesktopQualifier);
      }
      if Contains(col, MaintenanceQualifier) {
        newCol := StripQualifier(col, MaintenanceQualifier);
      }
      newColumns := newColumns[col := newCol];
    }
    r := Rename(t, newColumns);
  }

  /** Both qualifiers end in `[`, so a name that contains one contains `[`. */
  lemma QualifierHasBracket(col: string)
    ensures Contains(col, DesktopQualifier) ==> '[' in col
    ensures Contains(col, MaintenanceQualifier) ==> '[' in col
  {
    assert DesktopQualifier[|DesktopQualifier| - 1] == '[';
    assert MaintenanceQualifier[|MaintenanceQualifier| - 1] == '[';
    if Contains(col, DesktopQualifier) {
      ContainsChar(col, DesktopQualifier, '[');
    }
    if Contains(col, MaintenanceQualifier) {
      ContainsChar(col, MaintenanceQualifier, '[');
    }
  }

  /** A name without `[` passes through unchanged. */
  lemma CleanNameWithoutBracket(col: string)
    requires '[' !in col
    ensures CleanName(col) == col
  {
    QualifierHasBracket(col);
  }

  /** A name holding `[` comes out without any `]`. */
  lemma CleanNameDropsCloseBracket(col: string)
    requires '[' in col
    ensures ']' !in CleanName(col)
  {
    DeleteCharSpec(DeleteAll(col, DesktopQualifier), ']');
    DeleteCharSpec(DeleteAll(col, MaintenanceQualifier), ']');
    DeleteCharSpec(AfterLast(col, '['), ']');
  }

  /**
   * When only the generic rule fires, the new name is the text after the last `[` of the old
   * one with every `]` removed; it holds no bracket, so cleaning it again changes nothing.
   */
  lemma CleanNameGeneric(col: string)
    requires '[' in col && ']' in col
    requires !Contains(col, DesktopQualifier) && !Contains(col, MaintenanceQualifier)
    ensures exists k :: 0 <= k < |col| && col[k] == '[' && '[' !in col[k + 1..] && CleanName(col) == DeleteAll(col[k + 1..], "]")
    ensures '[' !in CleanName(col) && ']' !in CleanName(col)
    ensures CleanName(CleanName(col)) == CleanName(col)
  {
    AfterLastSuffix(col, '[');
    AfterLastFree(col, '[');
    DeleteCharSpec(AfterLast(col, '['), ']');
    CleanNameWithoutBracket(CleanName(col));
  }

  /**
   * The qualifier rules: the maintenance rule wins over every other, the desktop rule over the
   * generic one; the rule that fires removes at least one copy of its qualifier and every `]`.
   */
  lemma CleanNameQualified(col: string)
    ensures Contains(col, MaintenanceQualifier) ==>
      CleanName(col) == StripQualifier(col, MaintenanceQualifier)
      && |CleanName(col)| <= |col| - |MaintenanceQualifier| && ']' !in CleanName(col)
    ensures Contains(col, DesktopQualifier) && !Contains(col, MaintenanceQualifier) ==>
      CleanName(col) == StripQualifier(col, DesktopQualifier)
      && |CleanName(col)| <= |col| - |DesktopQualifier| && ']' !in CleanName(col)
  {
    if Contains(col, MaintenanceQualifier) {
      DeleteAllShrinks(col, MaintenanceQualifier);
      DeleteCharSpec(DeleteAll(col, MaintenanceQualifier), ']');
    }
    if Contains(col, DesktopQualifier) {
      DeleteAllShrinks(col, DesktopQualifier);
      DeleteCharSpec(DeleteAll(col, DesktopQualifier), ']');
    }
  }

  /**
   * Cleaning a name a second time changes nothing exactly when the first result holds neither
   * qualifier. (Cutting a qualifier out can join the text around it into a new qualifier, so the
   * condition is needed.)
   */
  lemma CleanNameIdempotentIff(col: string)
    ensures CleanName(CleanName(col)) == CleanName(col)
        <==> !Contains(CleanName(col), DesktopQualifier) && !Contains(CleanName(col), MaintenanceQualifier)
  {
    var r := CleanName(col);
    CleanNameQualified(r);
    if !Contains(r, DesktopQualifier) && !Contains(r, MaintenanceQualifier) {
      if '[' in r {
        if '[' in col {
          CleanNameDropsCloseBracket(col);
        } else {
          CleanNameWithoutBracket(col);
        }
      } else {
        CleanNameWithoutBracket(r);
      }
    }
  }

  /**
   * Table-level cleaning keeps the rows, the number, order and dtypes of the columns, and is
   * idempotent when no cleaned name holds a qualifier.
   */
  lemma CleanColumnsTwice(columns: seq<Column>)
    requires forall j :: 0 <= j < |columns| ==>
      !Contains(CleanName(columns[j].name), DesktopQualifier) && !Contains(CleanName(columns[j].name), MaintenanceQualifier)
    ensures CleanColumns(CleanColumns(columns)) == CleanColumns(columns)
  {
    forall j | 0 <= j < |columns| ensures CleanName(CleanName(columns[j].name)) == CleanName(columns[j].name) {
      CleanNameIdempotentIff(columns[j].name);
    }
  }
}
