/**
 * One run of the script after the upload loop (lines 41-95). These lines sit
 * outside the `for` loop, so they run once, on the `file`, `file_ext` and
 * `df` the last iteration left behind, and only while the "Clean data"
 * checkbox is ticked: removing duplicates and filling missing values change
 * the table in place, the column selection rebinds it, and the chart and
 * the conversion read the result.
 */
module Script {
  import opened Wrappers
  import opened Strings
  import opened Paths
  import opened Tables
  import opened Cleaning
  import opened Charts
  import opened Conversion
  import opened Ingest

  /**
   * The widgets' values in one run of the script. Streamlit reports a button
   * as pressed only in the run right after its click, so in a real run at
   * most one of `removeDuplicates`, `fillMissing` and `convertTo.Some?` holds,
   * and a download never carries the effect of a cleaning button; the model
   * also admits the combined values, which no run produces.
   */
  datatype Controls = Controls(
    clean: bool,                    // the "Clean data" checkbox
    removeDuplicates: bool,         // the "Remove Duplicates" button was pressed
    fillMissing: bool,              // the "Fill Missing Values" button was pressed
    selected: Option<seq<string>>,  // the column multiselect; None leaves its default, every column
    chartKind: ChartKind,           // the chart-type select box
    chartColumn: Option<string>,    // the numeric-column select box; None leaves its default
    convertTo: Option<Target>)      // Some(target) when "Convert" was pressed with that radio choice

  /** `to_csv`, `to_excel` and `to_json(orient='records', lines=True)`, left abstract. */
  type Encoder = (Target, Table) -> seq<byte>

  /** What the download button offers. */
  datatype Download = Download(fileName: string, mime: string, data: seq<byte>)

  /** What lines 41-95 produce in one run. */
  datatype Section =
    | NoUploads                        // `if uploaded_files:` is false
    | CleaningHidden                   // the "Clean data" checkbox is not ticked
    | Unbound                          // no file was ever read: `df` is unbound (NameError)
    | KeyError(missing: seq<string>)   // the selection names labels that are not columns
    | Shown(table: Table, chart: ChartOutcome, download: Option<Download>)

  /** The DataFrame the cleaning steps mutate in place. */
  class Frame {
    var columns: seq<Column>
    var rows: seq<Row>

    function Value(): (t: Table)
      reads this
    {
      Table(columns, rows)
    }

    constructor (t: Table)
      ensures Value() == t
    {
      columns := t.columns;
      rows := t.rows;
    }

    /** Line 46: `df.drop_duplicates(inplace=True)`. */
    method DropDuplicates()
      requires WellFormed(Value())
      modifies this
      ensures Value() == RemoveDuplicates(old(Value()))
      ensures WellFormed(Value())
    {
      rows := Dedup(rows);
    }

    /** Lines 51-52: the numeric columns' missing cells get the column mean. */
    method FillNumeric(mean: seq<Cell> -> real)
      requires WellFormed(Value())
      modifies this
      ensures Value() == FillMissing(old(Value()), mean)
      ensures WellFormed(Value())
    {
      FillKeepsWellFormed(Value(), mean);
      var filled := FillMissing(Value(), mean);
      rows := filled.rows;
    }
  }

  /**
   * Lines 75-87: the branch on the radio choice sets the encoded bytes, the
   * download's name and its MIME type.
   */
  method Convert(fileName: string, fileExt: string, df: Frame, target: Target, encode: Encoder)
    returns (d: Download)
    ensures d.fileName == Replace(fileName, fileExt, TargetExtension(target))
    ensures d.mime == MimeType(target)
    ensures d.data == encode(target, df.Value())
  {
    var data: seq<byte>;
    var name: string;
    var mimeType: string;
    if target == Csv {
      data := encode(Csv, df.Value());
      name := Replace(fileName, fileExt, ".csv");
      mimeType := MimeType(Csv);
    } else if target == Excel {
      data := encode(Excel, df.Value());
      name := Replace(fileName, fileExt, ".xlsx");
      mimeType := MimeType(Excel);
    } else {
      data := encode(Json, df.Value());
      name := Replace(fileName, fileExt, ".json");
      mimeType := MimeType(Json);
    }
    d := Download(name, mimeType, data);
  }

  /**
   * Lines 42-95 as a value, for a table `t` that was read from a file. The
   * section fails with a KeyError exactly when the selection names a label
   * that is not a column; otherwise it shows the selected columns (every
   * column by default) and offers a download exactly when "Convert" was
   * pressed, encoding the table shown.
   */
  function CleanSection(t: Table, fileName: string, fileExt: string, ui: Controls,
                        mean: seq<Cell> -> real, encode: Encoder): (s: Section)
    requires WellFormed(t)
    ensures s.KeyError? || s.Shown?
    ensures s.KeyError? <==> ui.selected.Some? && exists n :: n in ui.selected.value && n !in Names(t.columns)
    ensures s.Shown? ==>
      Names(s.table.columns) == (if ui.selected.Some? then ui.selected.value else Names(t.columns)) &&
      |s.table.rows| <= |t.rows|
    ensures s.Shown? ==> (s.download.Some? <==> ui.convertTo.Some?)
    ensures s.Shown? && s.download.Some? ==>
      s.download.value.fileName == OutputName(fileName, fileExt, ui.convertTo.value) &&
      s.download.value.data == encode(ui.convertTo.value, s.table)
  {
    var t1 := if ui.removeDuplicates then RemoveDuplicates(t) else t;
    var t2 := if ui.fillMissing then FillMissing(t1, mean) else t1;
    var selected := if ui.selected.Some? then ui.selected.value else Names(t2.columns);
    match Project(t2, selected)
    case Err(missing) => KeyError(missing)
    case Ok(t3) =>
      Shown(t3, Visualize(t3, ui.chartKind, ui.chartColumn),
            match ui.convertTo
            case None => None
            case Some(target) =>
              Some(Download(OutputName(fileName, fileExt, target), MimeType(target), encode(target, t3))))
  }

  /** A table the loop leaves in `df` was read by a well-behaved reader, so it is well formed. */
  lemma LastLoadedWellFormed(files: seq<Upload>, read: Reader)
    requires WellBehaved(read)
    ensures LastLoaded(files, read).Some? ==> WellFormed(LastLoaded(files, read).value)
  {
    if LastLoaded(files, read).Some? {
      LastLoadedIsLatestRead(files, read);
      var t := LastLoaded(files, read).value;
      var i :| 0 <= i < |files| && ReadOne(files[i], read) == Loaded(t);
      LoadedWellFormed(files[i], read);
    }
  }

  /** A file that is loaded was parsed by a well-behaved reader, so its table is well formed. */
  lemma LoadedWellFormed(f: Upload, read: Reader)
    requires WellBehaved(read) && ReadOne(f, read).Loaded?
    ensures WellFormed(ReadOne(f, read).table)
  {
  }

  /**
   * The whole of lines 13-95 after the loop, as a value. Nothing follows the
   * loop without uploads or with cleaning unticked; `df` is unbound exactly
   * when every file was skipped; and a download is always named after the
   * last file uploaded, whichever file the table came from.
   */
  function ScriptSection(files: seq<Upload>, read: Reader, ui: Controls,
                         mean: seq<Cell> -> real, encode: Encoder): (s: Section)
    requires WellBehaved(read)
    ensures s.NoUploads? <==> files == []
    ensures s.CleaningHidden? <==> files != [] && !ui.clean
    ensures s.Unbound? <==>
      files != [] && ui.clean && forall i :: 0 <= i < |files| ==> ReadOne(files[i], read).Skipped?
    ensures s.Shown? && ui.convertTo.Some? ==>
      var last := files[|files| - 1];
      s.download.Some? &&
      s.download.value.fileName == OutputName(last.name, Extension(last.name), ui.convertTo.value)
  {
    if files == [] then NoUploads
    else if !ui.clean then CleaningHidden
    else
      var last := files[|files| - 1];
      LastLoadedIsLatestRead(files, read);
      LastLoadedWellFormed(files, read);
      match LastLoaded(files, read)
      case None => Unbound
      case Some(t) => CleanSection(t, last.name, Extension(last.name), ui, mean, encode)
  }

  /**
   * One run of the script: the upload loop, then (outside it) cleaning,
   * selection, visualisation and conversion on what the loop left behind.
   */
  method Run(files: seq<Upload>, read: Reader, ui: Controls, mean: seq<Cell> -> real, encode: Encoder)
    returns (errors: seq<string>, section: Section)
    requires WellBehaved(read)
    ensures errors == Errors(files, read)
    ensures section == ScriptSection(files, read, ui, mean, encode)
  {
    var exit;
    errors, exit := IngestAll(files, read);
    if exit == None {
      section := NoUploads;
      return;
    }
    var file, fileExt, loaded := exit.value.file, exit.value.fileExt, exit.value.df;
    if !ui.clean {
      section := CleaningHidden;
      return;
    }
    if loaded == None {
      section := Unbound;
      return;
    }
    LastLoadedWellFormed(files, read);
    var df := new Frame(loaded.value);
    if ui.removeDuplicates {
      df.DropDuplicates();
    }
    if ui.fillMissing {
      df.FillNumeric(mean);
    }
    var selected := if ui.selected.Some? then ui.selected.value else Names(df.columns);
    var projected := Project(df.Value(), selected);
    if projected.Err? {
      section := KeyError(projected.error);
      return;
    }
    df := new Frame(projected.value);
    var chart := Visualize(df.Value(), ui.chartKind, ui.chartColumn);
    var download: Option<Download> := None;
    if ui.convertTo.Some? {
      var d := Convert(file.name, fileExt, df, ui.convertTo.value, encode);
      download := Some(d);
    }
    section := Shown(df.Value(), chart, download);
  }

  /**
   * With neither button pressed and the selection left at its default, the
   * section shows the table exactly as it was read.
   */
  lemma DefaultRunKeepsTable(t: Table, fileName: string, fileExt: string, ui: Controls,
                             mean: seq<Cell> -> real, encode: Encoder)
    requires WellFormed(t)
    requires !ui.removeDuplicates && !ui.fillMissing && ui.selected == None
    ensures CleanSection(t, fileName, fileExt, ui, mean, encode).Shown?
    ensures CleanSection(t, fileName, fileExt, ui, mean, encode).table == t
    ensures CleanSection(t, fileName, fileExt, ui, mean, encode).download ==
      match ui.convertTo
      case None => None
      case Some(target) => Some(Download(OutputName(fileName, fileExt, target), MimeType(target), encode(target, t)))
  {
    ProjectAllIsIdentity(t);
  }

  /**
   * The chart is drawn from the table as projected: a charted column is one
   * of the selected labels (every label, by default), and a numeric column
   * of the table before projection.
   */
  lemma ChartedColumnWasSelected(t: Table, fileName: string, fileExt: string, ui: Controls,
                                 mean: seq<Cell> -> real, encode: Encoder)
    requires WellFormed(t)
    ensures var s := CleanSection(t, fileName, fileExt, ui, mean, encode);
      s.Shown? && s.chart.Chart? ==>
        s.chart.column in (if ui.selected.Some? then ui.selected.value else Names(t.columns)) &&
        s.chart.column in NumericNames(t.columns)
  {
    var t1 := if ui.removeDuplicates then RemoveDuplicates(t) else t;
    var t2 := if ui.fillMissing then FillMissing(t1, mean) else t1;
    if ui.fillMissing {
      FillKeepsWellFormed(t1, mean);
    }
    assert t2.columns == t.columns;
    var selected := if ui.selected.Some? then ui.selected.value else Names(t2.columns);
    var s := CleanSection(t, fileName, fileExt, ui, mean, encode);
    if s.Shown? && s.chart.Chart? {
      ChartableAfterProjection(t2, selected);
    }
  }

  /** "sales.csv" has the extension ".csv". */
  lemma SalesExtension()
    ensures Extension("sales.csv") == ".csv"
  {
    var p := "sales.csv";
    RFindAt(p, '/', -1);
    RFindAt(p, '.', 5);
    SimpleNameExtension(p, 5);
    assert p[5..] == ".csv";
    assert Lower(".csv") == ".csv";
  }

  /** "q2.csv" has the extension ".csv". */
  lemma Q2Extension()
    ensures Extension("q2.csv") == ".csv"
  {
    var q := "q2.csv";
    RFindAt(q, '/', -1);
    RFindAt(q, '.', 2);
    SimpleNameExtension(q, 2);
    assert q[2..] == ".csv";
    assert Lower(".csv") == ".csv";
  }

  /** Converting "q2.csv" to Excel offers "q2.xlsx". */
  lemma Q2OutputName()
    ensures OutputName("q2.csv", ".csv", Excel) == "q2.xlsx"
  {
    OutputNameOfStem("q2", ".csv", Excel);
    assert "q2" + ".csv" == "q2.csv";
    assert "q2" + ".xlsx" == "q2.xlsx";
  }

  /** A load followed by a skip leaves the loaded table as the last one. */
  lemma LoadedThenSkipped(x: Outcome, y: Outcome, t: Table)
    requires x == Loaded(t) && y.Skipped?
    ensures LastTable([x, y]) == Some(t)
  {
    assert [x, y][..1] == [x];
  }

  /** A file read into `t` followed by a skipped file leaves `t` in `df`. */
  lemma ScenarioLastLoaded(a: Upload, b: Upload, t: Table, read: Reader)
    requires ReadOne(a, read) == Loaded(t) && ReadOne(b, read).Skipped?
    ensures LastLoaded([a, b], read) == Some(t)
  {
    assert Outcomes([a, b], read) == [ReadOne(a, read), ReadOne(b, read)];
    LoadedThenSkipped(ReadOne(a, read), ReadOne(b, read), t);
  }

  /**
   * Scenario of the loop-scope quirk: "sales.csv" is read, then the reader
   * fails on "q2.csv", which is reported and skipped. The conversion then
   * encodes the table of "sales.csv" but names the download after "q2.csv".
   */
  lemma SkippedLastFileNamesTheDownload(sales: seq<byte>, q2: seq<byte>, t: Table, e: string,
                                        read: Reader, mean: seq<Cell> -> real, encode: Encoder)
    requires WellBehaved(read) && read(CsvFormat, sales) == Parsed(t)
    requires read(CsvFormat, q2) == ReadFailed(e)
    ensures var ui := Controls(true, false, false, None, Bar, None, Some(Excel));
      var files := [Upload("sales.csv", sales), Upload("q2.csv", q2)];
      ScriptSection(files, read, ui, mean, encode).Shown? &&
      ScriptSection(files, read, ui, mean, encode).table == t &&
      ScriptSection(files, read, ui, mean, encode).download ==
        Some(Download("q2.xlsx", MimeType(Excel), encode(Excel, t)))
  {
    var ui := Controls(true, false, false, None, Bar, None, Some(Excel));
    var a, b := Upload("sales.csv", sales), Upload("q2.csv", q2);
    var files := [a, b];
    SalesExtension();
    Q2Extension();
    assert ReadOne(a, read) == Loaded(t);
    assert ReadOne(b, read).Skipped?;
    ScenarioLastLoaded(a, b, t, read);
    LastLoadedWellFormed(files, read);
    assert ScriptSection(files, read, ui, mean, encode) == CleanSection(t, b.name, ".csv", ui, mean, encode);
    DefaultRunKeepsTable(t, b.name, ".csv", ui, mean, encode);
    Q2OutputName();
  }
}
