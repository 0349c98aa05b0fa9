/**
 * The data model of a pandas DataFrame as the script uses it: an ordered
 * list of named columns, each flagged numeric or not (pandas' dtype
 * inference is taken as given), and rows of cells, some of them missing.
 */
module Tables {

  /** The value of a present cell; pandas' floats are modelled as reals. */
  datatype Scalar = Num(x: real) | Text(s: string) | Flag(b: bool)

  /** A cell: `Missing` stands for pandas' NaN / None. */
  datatype Cell = Missing | Present(v: Scalar)

  type Row = seq<Cell>

  /** A column header, and whether `select_dtypes(include='number')` picks the column. */
  datatype Column = Column(name: string, numeric: bool)

  datatype Table = Table(columns: seq<Column>, rows: seq<Row>)

  /** The column labels, in order (`df.columns`). */
  function Names(cols: seq<Column>): (ns: seq<string>)
    ensures |ns| == |cols|
    ensures forall j :: 0 <= j < |cols| ==> ns[j] == cols[j].name
  {
    seq(|cols|, j requires 0 <= j < |cols| => cols[j].name)
  }

  predicate Distinct<T(==)>(s: seq<T>)
  {
    forall i, j :: 0 <= i < j < |s| ==> s[i] != s[j]
  }

  /** Every row has one cell per column. */
  predicate Rectangular(t: Table)
  {
    forall i :: 0 <= i < |t.rows| ==> |t.rows[i]| == |t.columns|
  }

  /** A numeric column holds only numbers and missing cells. */
  predicate NumericHoldsNumbers(t: Table)
    requires Rectangular(t)
  {
    forall i, j :: 0 <= i < |t.rows| && 0 <= j < |t.columns| && t.columns[j].numeric ==>
      t.rows[i][j] == Missing || t.rows[i][j].v.Num?
  }

  /**
   * The shape every table read by pandas has: rectangular, with unique
   * column labels (the readers rename repeated headers), and numeric
   * columns holding numbers.
   */
  predicate WellFormed(t: Table)
  {
    Rectangular(t) && Distinct(Names(t.columns)) && NumericHoldsNumbers(t)
  }

  /** The cells of column `j`, top to bottom (`df[name]`). */
  function ColumnCells(t: Table, j: int): (c: seq<Cell>)
    requires Rectangular(t) && 0 <= j < |t.columns|
    ensures |c| == |t.rows|
    ensures forall i :: 0 <= i < |t.rows| ==> c[i] == t.rows[i][j]
  {
    seq(|t.rows|, i requires 0 <= i < |t.rows| => t.rows[i][j])
  }

  /** The position of the first column labelled `n`. */
  function IndexOf(ns: seq<string>, n: string): (k: nat)
    requires n in ns
    ensures k < |ns| && ns[k] == n && n !in ns[..k]
  {
    if ns[0] == n then 0
    else
      var k := 1 + IndexOf(ns[1..], n);
      assert ns[..k] == [ns[0]] + ns[1..][..k - 1];
      k
  }

  /** With unique labels, the label at position `k` is found at `k`. */
  lemma IndexOfDistinct(ns: seq<string>, k: nat)
    requires Distinct(ns) && k < |ns|
    ensures IndexOf(ns, ns[k]) == k
  {
  }
}
