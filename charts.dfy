/**
 * The visualisation step: which columns can be charted (the numeric columns
 * of the table as projected), the warning when there are none, and the
 * series handed to the chart for the chosen column.
 */
module Charts {
  import opened Wrappers
  import opened Tables
  import opened Cleaning

  datatype ChartKind = Bar | Line | Histogram

  datatype ChartOutcome =
    | NoNumericColumns(warning: string)
    | Chart(kind: ChartKind, column: string, series: seq<Cell>)

  const NoNumericWarning := "No numeric columns available for visualization."

  /** `df.select_dtypes(include='number').columns`: the numeric labels, in column order. */
  function NumericNames(cols: seq<Column>): (ns: seq<string>)
    ensures |ns| <= |cols|
    ensures forall n :: n in ns <==> exists j :: 0 <= j < |cols| && cols[j].numeric && cols[j].name == n
    ensures IsSubsequence(ns, Names(cols))
  {
    if |cols| == 0 then []
    else
      var rest := NumericNames(cols[1..]);
      assert Names(cols)[1..] == Names(cols[1..]);
      assert forall j :: 0 <= j < |cols[1..]| ==> cols[1..][j] == cols[j + 1];
      if cols[0].numeric then
        [cols[0].name] + rest
      else
        assert IsSubsequence(rest, Names(cols)) by { SubsequenceOfTail(rest, Names(cols)); }
        rest
  }

  /**
   * Lines 60-70: with no numeric column the script warns and draws nothing;
   * otherwise it charts the column picked in the select box. A pick that is
   * not among the numeric columns falls back to the box's default, the first.
   * Bar and line charts plot the cells in row order; the histogram's 20-bin
   * bucketing is left to the plotting library.
   */
  function Visualize(t: Table, kind: ChartKind, pick: Option<string>): (c: ChartOutcome)
    requires Rectangular(t)
    ensures c.NoNumericColumns? <==> NumericNames(t.columns) == []
    ensures c.NoNumericColumns? ==> c.warning == NoNumericWarning
    ensures c.Chart? ==> c.kind == kind && c.column in NumericNames(t.columns)
    ensures c.Chart? ==> c.series == ColumnCells(t, IndexOf(Names(t.columns), c.column))
    ensures c.Chart? && pick.Some? && pick.value in NumericNames(t.columns) ==> c.column == pick.value
  {
    var numeric := NumericNames(t.columns);
    if numeric == [] then NoNumericColumns(NoNumericWarning)
    else
      var column := if pick.Some? && pick.value in numeric then pick.value else numeric[0];
      assert column in numeric;
      assert column in Names(t.columns) by {
        var j :| 0 <= j < |t.columns| && t.columns[j].numeric && t.columns[j].name == column;
        assert Names(t.columns)[j] == column;
      }
      Chart(kind, column, ColumnCells(t, IndexOf(Names(t.columns), column)))
  }

  /**
   * The chartable columns are computed after projection: a label can be
   * charted exactly when it was selected and names a numeric column of the
   * table before projection.
   */
  lemma ChartableAfterProjection(t: Table, selected: seq<string>)
    requires WellFormed(t) && Project(t, selected).Ok?
    ensures forall n :: n in NumericNames(Project(t, selected).value.columns) <==>
      n in selected && n in NumericNames(t.columns)
  {
    var p := Project(t, selected).value;
    var names := Names(t.columns);
    forall n ensures n in NumericNames(p.columns) <==> n in selected && n in NumericNames(t.columns) {
      if n in NumericNames(p.columns) {
        var k :| 0 <= k < |p.columns| && p.columns[k].numeric && p.columns[k].name == n;
        assert Names(p.columns)[k] == n;
        var j := IndexOf(names, selected[k]);
        assert t.columns[j] == p.columns[k];
      }
      if n in selected && n in NumericNames(t.columns) {
        var k :| 0 <= k < |selected| && selected[k] == n;
        var j :| 0 <= j < |t.columns| && t.columns[j].numeric && t.columns[j].name == n;
        assert names[j] == n;
        IndexOfDistinct(names, j);
        assert p.columns[k] == t.columns[j];
      }
    }
  }
}
