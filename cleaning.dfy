/**
 * The three cleaning steps of the script: `drop_duplicates`, filling the
 * missing cells of numeric columns with the column mean, and projection to
 * the selected columns.
 */
module Cleaning {
  import opened Wrappers
  import opened Tables

  // ---------------------------------------------------------------------
  // Duplicate rows
  // ---------------------------------------------------------------------

  /**
   * The rows of `rows` that are not in `seen` and have not appeared earlier,
   * in their original order.
   */
  function DedupFrom(rows: seq<Row>, seen: set<Row>): (r: seq<Row>)
    ensures forall x :: x in r <==> x in rows && x !in seen
    ensures Distinct(r)
  {
    if |rows| == 0 then []
    else if rows[0] in seen then DedupFrom(rows[1..], seen)
    else [rows[0]] + DedupFrom(rows[1..], seen + {rows[0]})
  }

  /**
   * `drop_duplicates()` on the rows: keep the first occurrence of each row.
   * Every row survives, once, and the survivors keep their relative order.
   */
  function Dedup(rows: seq<Row>): (r: seq<Row>)
    ensures forall x :: x in r <==> x in rows
    ensures Distinct(r)
    ensures IsSubsequence(r, rows)
  {
    DedupFromSubsequence(rows, {});
    DedupFrom(rows, {})
  }

  /** `a` is obtained from `b` by deleting elements. */
  predicate IsSubsequence<T(==)>(a: seq<T>, b: seq<T>)
    decreases |b|
  {
    |a| == 0 ||
    (|b| > 0 && ((a[0] == b[0] && IsSubsequence(a[1..], b[1..])) || IsSubsequence(a, b[1..])))
  }

  /**
   * An independent definition, read from the back: the row at position `i`
   * survives exactly when it does not occur in `rows[..i]`.
   */
  function FirstOccurrences(rows: seq<Row>): (r: seq<Row>)
  {
    if |rows| == 0 then []
    else
      var init, last := rows[..|rows| - 1], rows[|rows| - 1];
      FirstOccurrences(init) + (if last in init then [] else [last])
  }

  lemma {:induction false} DedupFromSubsequence(rows: seq<Row>, seen: set<Row>)
    ensures IsSubsequence(DedupFrom(rows, seen), rows)
    decreases |rows|
  {
    if |rows| > 0 {
      if rows[0] in seen {
        DedupFromSubsequence(rows[1..], seen);
        SubsequenceOfTail(DedupFrom(rows[1..], seen), rows);
      } else {
        DedupFromSubsequence(rows[1..], seen + {rows[0]});
        var r := DedupFrom(rows, seen);
        assert r[0] == rows[0] && r[1..] == DedupFrom(rows[1..], seen + {rows[0]});
      }
    }
  }

  /** A subsequence of the tail is a subsequence of the whole. */
  lemma SubsequenceOfTail<T>(a: seq<T>, b: seq<T>)
    requires |b| > 0 && IsSubsequence(a, b[1..])
    ensures IsSubsequence(a, b)
  {
  }

  /** Adding one row at the end adds it to the result exactly when it is new. */
  lemma {:induction false} DedupFromSnoc(rows: seq<Row>, x: Row, seen: set<Row>)
    ensures DedupFrom(rows + [x], seen) ==
            DedupFrom(rows, seen) + (if x in seen || x in rows then [] else [x])
    decreases |rows|
  {
    if |rows| == 0 {
      assert rows + [x] == [x];
    } else {
      var head, rest := rows[0], rows[1..];
      var seen' := seen + {head};
      var tail := if x in seen || x in rows then [] else [x];
      assert (rows + [x])[0] == head;
      assert (rows + [x])[1..] == rest + [x];
      assert x in rows <==> x == head || x in rest;
      if head in seen {
        DedupFromSnoc(rest, x, seen);
      } else {
        DedupFromSnoc(rest, x, seen');
        assert DedupFrom(rest + [x], seen') == DedupFrom(rest, seen') + tail;
        assert [head] + (DedupFrom(rest, seen') + tail) == [head] + DedupFrom(rest, seen') + tail;
      }
    }
  }

  /** Duplicate removal keeps exactly the first occurrence of every row, in order. */
  lemma {:induction false} DedupKeepsFirstOccurrences(rows: seq<Row>)
    ensures Dedup(rows) == FirstOccurrences(rows)
    decreases |rows|
  {
    if |rows| > 0 {
      var init, last := rows[..|rows| - 1], rows[|rows| - 1];
      assert rows == init + [last];
      DedupFromSnoc(init, last, {});
      DedupKeepsFirstOccurrences(init);
    }
  }

  /** A sequence without repeats, none of whose rows was seen, is kept whole. */
  lemma {:induction false} DedupFromDistinct(rows: seq<Row>, seen: set<Row>)
    requires Distinct(rows)
    requires forall x :: x in rows ==> x !in seen
    ensures DedupFrom(rows, seen) == rows
    decreases |rows|
  {
    if |rows| > 0 {
      var head, rest := rows[0], rows[1..];
      forall x | x in rest ensures x !in seen + {head} {
        var k :| 0 <= k < |rest| && rest[k] == x;
        assert rows[k + 1] == x;
      }
      assert Distinct(rest);
      DedupFromDistinct(rest, seen + {head});
      assert [head] + rest == rows;
    }
  }

  /** Removing duplicates twice is the same as removing them once. */
  lemma DedupIdempotent(rows: seq<Row>)
    ensures Dedup(Dedup(rows)) == Dedup(rows)
  {
    DedupFromDistinct(Dedup(rows), {});
  }

  /** Rows drawn from a well-formed table make a well-formed table with the same columns. */
  lemma RowsFromWellFormed(t: Table, rows: seq<Row>)
    requires WellFormed(t)
    requires forall x :: x in rows ==> x in t.rows
    ensures WellFormed(Table(t.columns, rows))
  {
    forall i | 0 <= i < |rows|
      ensures |rows[i]| == |t.columns|
      ensures forall j :: 0 <= j < |t.columns| && t.columns[j].numeric ==>
        rows[i][j] == Missing || rows[i][j].v.Num?
    {
      assert rows[i] in t.rows;
      var i' :| 0 <= i' < |t.rows| && t.rows[i'] == rows[i];
    }
  }

  /**
   * `df.drop_duplicates(inplace=True)`: the same columns; rows compared on all
   * cells; the surviving rows are the distinct rows of the table, each once,
   * in the order of their first occurrences.
   */
  function RemoveDuplicates(t: Table): (r: Table)
    ensures r.columns == t.columns
    ensures forall x :: x in r.rows <==> x in t.rows
    ensures Distinct(r.rows)
    ensures |r.rows| <= |t.rows|
    ensures WellFormed(t) ==> WellFormed(r)
    ensures r.rows == FirstOccurrences(t.rows)
  {
    var rows := Dedup(t.rows);
    DedupKeepsFirstOccurrences(t.rows);
    DedupFromSubsequence(t.rows, {});
    SubsequenceLength(rows, t.rows);
    if WellFormed(t) then
      RowsFromWellFormed(t, rows);
      Table(t.columns, rows)
    else
      Table(t.columns, rows)
  }

  lemma {:induction false} SubsequenceLength<T>(a: seq<T>, b: seq<T>)
    requires IsSubsequence(a, b)
    ensures |a| <= |b|
    decreases |b|
  {
    if |a| > 0 {
      if a[0] == b[0] && IsSubsequence(a[1..], b[1..]) {
        SubsequenceLength(a[1..], b[1..]);
      } else {
        SubsequenceLength(a, b[1..]);
      }
    }
  }

  /** Scenario: rows (1,2), (1,2), (3,4) lose the repeated (1,2). */
  lemma RemoveDuplicatesExample()
    ensures
      var a, b := Present(Num(1.0)), Present(Num(2.0));
      var c, d := Present(Num(3.0)), Present(Num(4.0));
      RemoveDuplicates(Table([Column("a", true), Column("b", true)], [[a, b], [a, b], [c, d]])).rows
        == [[a, b], [c, d]]
  {
    var a, b := Present(Num(1.0)), Present(Num(2.0));
    var c, d := Present(Num(3.0)), Present(Num(4.0));
    var rows := [[a, b], [a, b], [c, d]];
    assert [c, d] != [a, b] by { assert [c, d][0] != [a, b][0]; }
    assert rows[1..] == [[a, b], [c, d]] && rows[1..][1..] == [[c, d]] && [[c, d]][1..] == [];
    assert DedupFrom([[c, d]], {[a, b]}) == [[c, d]];
    assert DedupFrom(rows[1..], {[a, b]}) == [[c, d]];
    var none: set<Row> := {};
    assert none + {rows[0]} == {[a, b]};
  }

  // ---------------------------------------------------------------------
  // Filling missing numeric cells
  // ---------------------------------------------------------------------

  /** Some cell is present. */
  predicate HasPresent(cells: seq<Cell>)
  {
    exists i :: 0 <= i < |cells| && cells[i].Present?
  }

  /**
   * Whether `fillna(df[numeric_cols].mean())` touches column `j`: it is
   * numeric and its mean is defined (pandas' mean of an all-missing column is
   * NaN, and filling with NaN changes nothing).
   */
  predicate Fillable(t: Table, j: int)
    requires Rectangular(t) && 0 <= j < |t.columns|
  {
    t.columns[j].numeric && HasPresent(ColumnCells(t, j))
  }

  /** The value written into the missing cells of column `j`, or `Missing` for none. */
  function FillValue(t: Table, j: int, mean: seq<Cell> -> real): (c: Cell)
    requires Rectangular(t) && 0 <= j < |t.columns|
  {
    if Fillable(t, j) then Present(Num(mean(ColumnCells(t, j)))) else Missing
  }

  function FillRow(row: Row, fills: seq<Cell>): (r: Row)
    requires |row| == |fills|
  {
    seq(|row|, j requires 0 <= j < |row| => if row[j] == Missing then fills[j] else row[j])
  }

  /**
   * `df[numeric_cols] = df[numeric_cols].fillna(df[numeric_cols].mean())`.
   * The mean of a column is left abstract: `mean` maps the column's cells to
   * the value pandas computes for them.
   */
  function FillMissing(t: Table, mean: seq<Cell> -> real): (r: Table)
    requires Rectangular(t)
    ensures r.columns == t.columns && |r.rows| == |t.rows| && Rectangular(r)
    ensures forall i, j :: 0 <= i < |t.rows| && 0 <= j < |t.columns| && r.rows[i][j] != t.rows[i][j] ==>
      t.rows[i][j] == Missing && t.columns[j].numeric
    ensures forall i, j :: 0 <= i < |t.rows| && 0 <= j < |t.columns| && Fillable(t, j) && t.rows[i][j] == Missing ==>
      r.rows[i][j] == Present(Num(mean(ColumnCells(t, j))))
    ensures forall i, j :: 0 <= i < |t.rows| && 0 <= j < |t.columns| && !Fillable(t, j) ==>
      r.rows[i][j] == t.rows[i][j]
  {
    var fills := seq(|t.columns|, j requires 0 <= j < |t.columns| => FillValue(t, j, mean));
    Table(t.columns, seq(|t.rows|, i requires 0 <= i < |t.rows| => FillRow(t.rows[i], fills)))
  }

  /** After filling, a numeric column that had a present cell has no missing cell left. */
  lemma FillCompletesColumn(t: Table, mean: seq<Cell> -> real, j: int)
    requires Rectangular(t) && 0 <= j < |t.columns| && t.columns[j].numeric
    requires HasPresent(ColumnCells(t, j))
    ensures forall i :: 0 <= i < |t.rows| ==> FillMissing(t, mean).rows[i][j] != Missing
  {
  }

  /** Filling keeps a table well formed: the filled values are numbers. */
  lemma FillKeepsWellFormed(t: Table, mean: seq<Cell> -> real)
    requires WellFormed(t)
    ensures WellFormed(FillMissing(t, mean))
  {
    assert Names(FillMissing(t, mean).columns) == Names(t.columns);
  }

  /** Filling a second time changes nothing. */
  lemma FillIdempotent(t: Table, mean: seq<Cell> -> real)
    requires Rectangular(t)
    ensures FillMissing(FillMissing(t, mean), mean) == FillMissing(t, mean)
  {
    var r := FillMissing(t, mean);
    var r2 := FillMissing(r, mean);
    forall i, j | 0 <= i < |t.rows| && 0 <= j < |t.columns| ensures r2.rows[i][j] == r.rows[i][j] {
    }
    assert forall i :: 0 <= i < |t.rows| ==> r2.rows[i] == r.rows[i];
  }

  /** The arithmetic mean of the present numbers, for concrete scenarios. */
  function ArithmeticMean(cells: seq<Cell>): (m: real)
  {
    if Count(cells) == 0 then 0.0 else Sum(cells) / Count(cells) as real
  }

  function Sum(cells: seq<Cell>): (total: real)
  {
    if |cells| == 0 then 0.0
    else (if cells[0].Present? && cells[0].v.Num? then cells[0].v.x else 0.0) + Sum(cells[1..])
  }

  function Count(cells: seq<Cell>): (n: nat)
  {
    if |cells| == 0 then 0
    else (if cells[0].Present? && cells[0].v.Num? then 1 else 0) + Count(cells[1..])
  }

  /** Scenario: the column 1, missing, 3 becomes 1, 2, 3. */
  lemma FillMissingExample()
    ensures
      var one, three := Present(Num(1.0)), Present(Num(3.0));
      FillMissing(Table([Column("a", true)], [[one], [Missing], [three]]), ArithmeticMean).rows
        == [[one], [Present(Num(2.0))], [three]]
  {
    var one, three := Present(Num(1.0)), Present(Num(3.0));
    var t := Table([Column("a", true)], [[one], [Missing], [three]]);
    assert ColumnCells(t, 0) == [one, Missing, three];
    var cells := [one, Missing, three];
    assert cells[1..] == [Missing, three] && cells[1..][1..] == [three] && [three][1..] == [];
    assert Sum([]) == 0.0 && Count([]) == 0;
    assert Sum([three]) == 3.0;
    assert Count([three]) == 1;
    assert Sum([Missing, three]) == 3.0;
    assert Count([Missing, three]) == 1;
    assert Sum(cells) == 4.0;
    assert Count(cells) == 2;
    assert ArithmeticMean(cells) == 2.0;
    assert Fillable(t, 0) by { assert ColumnCells(t, 0)[0].Present?; }
    var r := FillMissing(t, ArithmeticMean);
    assert r.rows[1][0] == Present(Num(2.0));
    assert r.rows[0] == [one] && r.rows[1] == [Present(Num(2.0))] && r.rows[2] == [three];
  }

  // ---------------------------------------------------------------------
  // Projection
  // ---------------------------------------------------------------------

  /** The names of `selected` that are not column labels, in order. */
  function Absent(selected: seq<string>, names: seq<string>): (r: seq<string>)
    ensures forall n :: n in r <==> n in selected && n !in names
  {
    if |selected| == 0 then []
    else (if selected[0] in names then [] else [selected[0]]) + Absent(selected[1..], names)
  }

  /**
   * `df[selected_columns]`: the selected columns in the order given, every row
   * kept; pandas raises a KeyError naming the labels that are not columns.
   */
  function Project(t: Table, selected: seq<string>): (r: Result<Table, seq<string>>)
    requires Rectangular(t)
    ensures r.Err? <==> exists n :: n in selected && n !in Names(t.columns)
    ensures r.Err? ==> r.error != [] && forall n :: n in r.error <==> n in selected && n !in Names(t.columns)
    ensures r.Ok? ==> Names(r.value.columns) == selected && |r.value.rows| == |t.rows| && Rectangular(r.value)
    ensures r.Ok? ==> forall k :: 0 <= k < |selected| ==>
      r.value.columns[k] == t.columns[IndexOf(Names(t.columns), selected[k])]
    ensures r.Ok? ==> forall i, k :: 0 <= i < |t.rows| && 0 <= k < |selected| ==>
      r.value.rows[i][k] == t.rows[i][IndexOf(Names(t.columns), selected[k])]
  {
    var names := Names(t.columns);
    var missing := Absent(selected, names);
    if missing != [] then
      assert missing[0] in missing;
      Err(missing)
    else
      assert forall k :: 0 <= k < |selected| ==> selected[k] in names by {
        forall k | 0 <= k < |selected| ensures selected[k] in names {
          assert selected[k] !in missing;
        }
      }
      var at := seq(|selected|, k requires 0 <= k < |selected| => IndexOf(names, selected[k]));
      Ok(Table(seq(|selected|, k requires 0 <= k < |selected| => t.columns[at[k]]),
               seq(|t.rows|, i requires 0 <= i < |t.rows| =>
                 seq(|selected|, k requires 0 <= k < |selected| => t.rows[i][at[k]]))))
  }

  /** The default selection, every column in order, leaves the table as it is. */
  lemma ProjectAllIsIdentity(t: Table)
    requires WellFormed(t)
    ensures Project(t, Names(t.columns)) == Ok(t)
  {
    var names := Names(t.columns);
    var p := Project(t, names).value;
    forall k | 0 <= k < |names| ensures IndexOf(names, names[k]) == k {
      IndexOfDistinct(names, k);
    }
    assert p.columns == t.columns;
    forall i | 0 <= i < |t.rows| ensures p.rows[i] == t.rows[i] {
      assert |p.rows[i]| == |t.rows[i]|;
      forall k | 0 <= k < |names| ensures p.rows[i][k] == t.rows[i][k] { }
    }
    assert p.rows == t.rows;
  }

  /** Projecting a well-formed table onto distinct labels gives a well-formed table. */
  lemma ProjectKeepsWellFormed(t: Table, selected: seq<string>)
    requires WellFormed(t) && Distinct(selected)
    requires Project(t, selected).Ok?
    ensures WellFormed(Project(t, selected).value)
  {
  }
}
