/**
 * The upload loop (lines 14-27): for each uploaded file, its lower-cased
 * extension selects the CSV or the Excel reader; any other extension, and
 * any reader failure, is reported and the loop moves on to the next file.
 * The variables `file`, `file_ext` and `df` outlive the loop, and the rest of
 * the script works on the values the last iteration left in them.
 */
module Ingest {
  import opened Wrappers
  import opened Strings
  import opened Paths
  import opened Tables

  newtype byte = x: int | 0 <= x < 256

  /** An uploaded file: its name and its raw content. */
  datatype Upload = Upload(name: string, data: seq<byte>)

  /** The two pandas readers the script dispatches to. */
  datatype Format = CsvFormat | ExcelFormat

  /** What a reader does with a file's bytes: a table, or the exception's message. */
  datatype ReadResult = Parsed(table: Table) | ReadFailed(reason: string)

  /** `pd.read_csv` and `pd.read_excel`, left abstract. */
  type Reader = (Format, seq<byte>) -> ReadResult

  /** Pandas never hands back a malformed table. */
  ghost predicate WellBehaved(read: Reader)
  {
    forall fmt, data :: read(fmt, data).Parsed? ==> WellFormed(read(fmt, data).table)
  }

  /** What one iteration of the loop does with one file. */
  datatype Outcome = Loaded(table: Table) | Skipped(message: string)

  /** The reader chosen for an extension; `None` for an unsupported one. */
  function ReaderFor(fileExt: string): (f: Option<Format>)
    ensures f == Some(CsvFormat) <==> fileExt == ".csv"
    ensures f == Some(ExcelFormat) <==> fileExt == ".xlsx"
  {
    if fileExt == ".csv" then Some(CsvFormat)
    else if fileExt == ".xlsx" then Some(ExcelFormat)
    else None
  }

  function UnsupportedMessage(fileExt: string): (m: string)
  {
    "Unsupported file type: " + fileExt
  }

  function ReadErrorMessage(name: string, reason: string): (m: string)
  {
    "Error reading file " + name + ": " + reason
  }

  /**
   * One iteration of the loop, as a value. A file is loaded when its
   * extension is ".csv" or ".xlsx" and the matching reader succeeds; an
   * unsupported extension is reported by itself, and a reader failure is
   * reported with the file's name and the reader's message.
   */
  function ReadOne(f: Upload, read: Reader): (o: Outcome)
    ensures ReaderFor(Extension(f.name)) == None ==>
      o == Skipped(UnsupportedMessage(Extension(f.name)))
    ensures ReaderFor(Extension(f.name)).Some? ==>
      match read(ReaderFor(Extension(f.name)).value, f.data)
      case Parsed(t) => o == Loaded(t)
      case ReadFailed(e) => o == Skipped(ReadErrorMessage(f.name, e))
    ensures o.Loaded? ==> Extension(f.name) in [".csv", ".xlsx"]
  {
    var fileExt := Extension(f.name);
    match ReaderFor(fileExt)
    case None => Skipped(UnsupportedMessage(fileExt))
    case Some(fmt) =>
      match read(fmt, f.data)
      case Parsed(t) => Loaded(t)
      case ReadFailed(e) => Skipped(ReadErrorMessage(f.name, e))
  }

  /** `f` applied to every element, in order. */
  function Map<A, B>(xs: seq<A>, f: A -> B): (ys: seq<B>)
    ensures |ys| == |xs|
    ensures forall i :: 0 <= i < |xs| ==> ys[i] == f(xs[i])
  {
    seq(|xs|, i requires 0 <= i < |xs| => f(xs[i]))
  }

  lemma MapAppend<A, B>(xs: seq<A>, zs: seq<A>, f: A -> B)
    ensures Map(xs + zs, f) == Map(xs, f) + Map(zs, f)
  {
  }

  /** The outcome of every iteration, in upload order. */
  function Outcomes(files: seq<Upload>, read: Reader): (outs: seq<Outcome>)
  {
    Map(files, (f: Upload) => ReadOne(f, read))
  }

  lemma OutcomesExtend(files: seq<Upload>, i: nat, read: Reader)
    requires i < |files|
    ensures Outcomes(files[..i + 1], read) == Outcomes(files[..i], read) + [ReadOne(files[i], read)]
  {
    assert files[..i + 1] == files[..i] + [files[i]];
    MapAppend(files[..i], [files[i]], (f: Upload) => ReadOne(f, read));
  }

  /** The messages reported for a run of outcomes, in order. */
  function Messages(outs: seq<Outcome>): (ms: seq<string>)
  {
    if |outs| == 0 then []
    else
      Messages(outs[..|outs| - 1]) +
        (match outs[|outs| - 1] case Skipped(m) => [m] case Loaded(_) => [])
  }

  /** The table of the last loaded outcome, if any. */
  function LastTable(outs: seq<Outcome>): (last: Option<Table>)
  {
    if |outs| == 0 then None
    else
      match outs[|outs| - 1]
      case Loaded(t) => Some(t)
      case Skipped(_) => LastTable(outs[..|outs| - 1])
  }

  /** The messages the loop reports, in upload order. */
  function Errors(files: seq<Upload>, read: Reader): (ms: seq<string>)
  {
    Messages(Outcomes(files, read))
  }

  /** The value `df` holds after the loop: the table of the last file that was read. */
  function LastLoaded(files: seq<Upload>, read: Reader): (df: Option<Table>)
  {
    LastTable(Outcomes(files, read))
  }

  /** What the rest of the script sees once the loop is over. */
  datatype LoopExit = LoopExit(file: Upload, fileExt: string, df: Option<Table>)

  /**
   * Lines 14-27. The loop visits every file; a skipped file leaves `df` as it
   * was, while `file` and `file_ext` always belong to the file visited last.
   */
  method IngestAll(files: seq<Upload>, read: Reader) returns (errors: seq<string>, exit: Option<LoopExit>)
    ensures errors == Errors(files, read)
    ensures files == [] ==> exit == None
    ensures files != [] ==> exit == Some(LoopExit(files[|files| - 1],
                                                 Extension(files[|files| - 1].name),
                                                 LastLoaded(files, read)))
  {
    errors := [];
    var df: Option<Table> := None;
    exit := None;
    for i := 0 to |files|
      invariant errors == Errors(files[..i], read)
      invariant df == LastLoaded(files[..i], read)
      invariant i == 0 ==> exit == None
      invariant i > 0 ==> exit == Some(LoopExit(files[i - 1], Extension(files[i - 1].name), df))
    {
      IngestStep(files, i, read);
      var file := files[i];
      var fileExt := Extension(file.name);
      exit := Some(LoopExit(file, fileExt, df));
      var result: ReadResult;
      if fileExt == ".csv" {
        result := read(CsvFormat, file.data);
      } else if fileExt == ".xlsx" {
        result := read(ExcelFormat, file.data);
      } else {
        assert ReadOne(file, read) == Skipped(UnsupportedMessage(fileExt));
        errors := errors + [UnsupportedMessage(fileExt)];
        continue;
      }
      assert result == read(ReaderFor(fileExt).value, file.data);
      if result.ReadFailed? {
        assert ReadOne(file, read) == Skipped(ReadErrorMessage(file.name, result.reason));
        errors := errors + [ReadErrorMessage(file.name, result.reason)];
        continue;
      }
      assert ReadOne(file, read) == Loaded(result.table);
      df := Some(result.table);
      exit := Some(LoopExit(file, fileExt, df));
    }
    assert files[..|files|] == files;
  }

  /** What one more file adds to the messages and to the last table. */
  lemma IngestStep(files: seq<Upload>, i: nat, read: Reader)
    requires i < |files|
    ensures Errors(files[..i + 1], read) == Errors(files[..i], read) +
      (match ReadOne(files[i], read) case Skipped(m) => [m] case Loaded(_) => [])
    ensures LastLoaded(files[..i + 1], read) ==
      (match ReadOne(files[i], read) case Loaded(t) => Some(t) case Skipped(_) => LastLoaded(files[..i], read))
  {
    OutcomesExtend(files, i, read);
    var outs := Outcomes(files[..i + 1], read);
    assert outs[..|outs| - 1] == Outcomes(files[..i], read);
  }

  /** Outcomes appended later never change the messages already reported. */
  lemma {:induction false} MessagesOfPrefix(outs: seq<Outcome>, more: seq<Outcome>)
    ensures Messages(outs) <= Messages(outs + more)
    decreases |more|
  {
    if |more| > 0 {
      var all := outs + more;
      assert all[..|all| - 1] == outs + more[..|more| - 1];
      MessagesOfPrefix(outs, more[..|more| - 1]);
    } else {
      assert outs + more == outs;
    }
  }

  /** The outcomes of two runs of files, one after the other. */
  lemma OutcomesAppend(files: seq<Upload>, more: seq<Upload>, read: Reader)
    ensures Outcomes(files + more, read) == Outcomes(files, read) + Outcomes(more, read)
  {
    MapAppend(files, more, (f: Upload) => ReadOne(f, read));
  }

  /**
   * Each file's outcome depends on that file alone, and files uploaded after
   * it never change the messages already reported for earlier ones.
   */
  lemma ErrorsOfPrefix(files: seq<Upload>, more: seq<Upload>, read: Reader)
    ensures Errors(files, read) <= Errors(files + more, read)
  {
    OutcomesAppend(files, more, read);
    MessagesOfPrefix(Outcomes(files, read), Outcomes(more, read));
  }

  /** A message is reported exactly when some outcome skipped a file with it. */
  lemma {:induction false} MessagesAreSkips(outs: seq<Outcome>)
    ensures forall m :: m in Messages(outs) <==> exists i :: 0 <= i < |outs| && outs[i] == Skipped(m)
    decreases |outs|
  {
    if |outs| > 0 {
      var init := outs[..|outs| - 1];
      MessagesAreSkips(init);
      assert forall i :: 0 <= i < |init| ==> init[i] == outs[i];
    }
  }

  /** A message is reported exactly when some file was skipped with it. */
  lemma ErrorsAreSkips(files: seq<Upload>, read: Reader)
    ensures forall m :: m in Errors(files, read) <==>
      exists i :: 0 <= i < |files| && ReadOne(files[i], read) == Skipped(m)
  {
    var outs := Outcomes(files, read);
    MessagesAreSkips(outs);
    assert forall i :: 0 <= i < |files| ==> outs[i] == ReadOne(files[i], read);
  }

  /** The last table is absent exactly when every outcome is a skip. */
  lemma {:induction false} LastTableAbsent(outs: seq<Outcome>)
    ensures LastTable(outs) == None <==> forall i :: 0 <= i < |outs| ==> outs[i].Skipped?
    decreases |outs|
  {
    if |outs| > 0 {
      var n := |outs| - 1;
      var init := outs[..n];
      LastTableAbsent(init);
      assert forall i :: 0 <= i < n ==> init[i] == outs[i];
    }
  }

  /** A last table is the table of an outcome followed only by skips. */
  lemma {:induction false} LastTableIsLatest(outs: seq<Outcome>)
    ensures LastTable(outs).Some? ==>
      exists i :: 0 <= i < |outs| && outs[i] == Loaded(LastTable(outs).value) &&
        forall j :: i < j < |outs| ==> outs[j].Skipped?
    decreases |outs|
  {
    if |outs| > 0 {
      var n := |outs| - 1;
      var init := outs[..n];
      if outs[n].Skipped? {
        assert LastTable(outs) == LastTable(init);
        LastTableIsLatest(init);
        if LastTable(init).Some? {
          var i :| 0 <= i < n && init[i] == Loaded(LastTable(init).value) &&
            forall j :: i < j < n ==> init[j].Skipped?;
          assert outs[i] == init[i];
          assert forall j :: i < j < n ==> outs[j] == init[j];
        }
      } else {
        assert LastTable(outs) == Some(outs[n].table);
      }
    }
  }

  /**
   * `df` after the loop is the table of the last file that was read: it is
   * absent exactly when every file was skipped, and otherwise it is the table
   * of a file after which every file was skipped.
   */
  lemma LastLoadedIsLatestRead(files: seq<Upload>, read: Reader)
    ensures LastLoaded(files, read) == None <==> forall i :: 0 <= i < |files| ==> ReadOne(files[i], read).Skipped?
    ensures LastLoaded(files, read).Some? ==>
      exists i :: 0 <= i < |files| && ReadOne(files[i], read) == Loaded(LastLoaded(files, read).value) &&
        forall j :: i < j < |files| ==> ReadOne(files[j], read).Skipped?
  {
    var outs := Outcomes(files, read);
    LastTableAbsent(outs);
    LastTableIsLatest(outs);
    assert forall i :: 0 <= i < |files| ==> outs[i] == ReadOne(files[i], read);
  }

  /** Scenario: a file with an unknown extension yields no table and one message. */
  lemma UnsupportedExample(data: seq<byte>, read: Reader)
    ensures ReadOne(Upload("report.xyz", data), read) == Skipped("Unsupported file type: .xyz")
  {
    var p := "report.xyz";
    RFindAt(p, '/', -1);
    RFindAt(p, '.', 6);
    SimpleNameExtension(p, 6);
    assert p[6..] == ".xyz";
    assert Lower(".xyz") == ".xyz";
  }
}
