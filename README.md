# ConvertEase, modelled in Dafny

ConvertEase is a single-page Streamlit script (`main.py`). It takes uploaded
CSV and Excel files and reads each into a pandas DataFrame. It then offers
four steps on the table:

- removing duplicate rows;
- filling the missing numeric values with the column mean;
- selecting columns;
- drawing a chart of one numeric column.

Finally it converts the table to CSV, Excel or JSON for download. This project
models the script's logic and proves properties of the model.

The model follows the code as written. The cleaning, chart and conversion
block (lines 41-95) sits outside the `for` loop over the uploads. It therefore
runs once per script run, on what the loop left behind:

- the last uploaded `file`;
- its lower-cased extension `file_ext`;
- the `df` of the last file that was read successfully.

A file that is skipped still rebinds `file` and `file_ext`. So when the last
upload is skipped, the download is named after that file while its contents
come from an earlier one (`Script.SkippedLastFileNamesTheDownload`). The name
of the download is built with `str.replace`, which replaces every occurrence of
the extension rather than only a trailing one. Because the extension was
lower-cased first, a name such as `DATA.CSV` comes back unchanged.

Modules, one per file:

- `Wrappers`: `Option` and `Result`.
- `Strings`: the Python string operations the script uses, over `seq<char>`:
  - `str.rfind` of one character;
  - `str.lower`, ASCII only;
  - `str.replace`, including the empty-pattern case;
  - the test for an occurrence of the pattern that `str.replace` replaces.
- `Paths`: `os.path.splitext` with POSIX rules, and the lower-cased extension
  of line 15.
- `Tables`: the table value. Its columns carry a name and a numeric flag; its
  cells are missing or hold a number, a string or a boolean.
- `Cleaning`: `drop_duplicates`, `fillna` of the numeric columns with a mean,
  and `df[selected_columns]`.
- `Charts`: the numeric-column selection and the chart-or-warning choice
  (lines 58-70).
- `Conversion`: the target's extension, the MIME type and the download's name
  (lines 73-87).
- `Ingest`: the upload loop (lines 14-27), as a method with invariants. It is
  specified by functions over the sequence of per-file outcomes.
- `Script`: the rest of one run.
  - A `Frame` class stands for the DataFrame that lines 46 and 52 mutate in
    place. Its methods state the new value in terms of `old(...)`.
  - `Convert` is the if/elif over the target.
  - `Run` is the whole script, and `ScriptSection` is its value-level
    specification.

The readers (`pd.read_csv`, `pd.read_excel`) and the encoders (`to_csv`,
`to_excel`, `to_json`) are parameters: `Ingest.Reader` and `Script.Encoder`.
So is the column mean (`mean: seq<Cell> -> real`). The widget values for one
run are a `Controls` value.

## Model

| member | source | states |
|---|---|---|
| Strings.RFind | main.py:15 | the index of the last occurrence of the character, or -1 when there is none; no occurrence after it |
| Strings.Lower | main.py:15 | same length; upper-case ASCII letters become lower case (code point + 32), everything else is kept; nothing upper case is left |
| Strings.Contains | main.py:78 | the occurrence test that `str.replace` acts on holds exactly when the pattern occurs at some position of the string |
| Strings.OccursAfterHead | main.py:78 | a pattern that is not a prefix occurs in the string exactly when it occurs in its tail |
| Strings.Replace | main.py:78 | `str.replace` of a non-empty pattern by itself returns the string unchanged |
| Strings.ScanWithItself | main.py:78 | the left-to-right scan that replaces a non-empty pattern by itself rebuilds the string |
| Strings.ReplaceAbsent | main.py:78 | `str.replace` with a non-empty pattern that does not occur returns the string unchanged |
| Strings.ReplaceFirstOccurrence | main.py:78 | when the pattern's first character does not recur in it, and the stem holds no occurrence, the occurrence right after the stem is the first one replaced |
| Strings.ReplaceJoin | main.py:78-86 | pieces that do not contain the pattern, joined by it, come out joined by the replacement: every occurrence is replaced, however many there are |
| Strings.FirstCharAbsent | main.py:78 | a pattern whose first character is not in the string does not occur in it |
| Strings.AbsentAcrossPrefix | main.py:78 | a pattern starting with a character absent from `a` occurs in `a + b` only if it occurs in `b` |
| Paths.SplitExt | main.py:15 | `splitext` returns a root and an extension that concatenate back to the path; the extension is empty, or one dot followed by no dot and no '/' |
| Paths.SplitAt | main.py:15 | the same, given the positions of the last '/' and the last '.' |
| Paths.SuffixAfterLastDot | main.py:15 | the part from the last dot on, when that dot follows the last '/', is a dot followed by no dot and no '/' |
| Paths.SimpleNameExtension | main.py:15 | a name without '/' or leading dot has the extension starting at its last dot |
| Paths.Extension | main.py:15 | the lower-cased extension is no longer than the name, and is empty or a single dot followed by no dot and no '/' |
| Paths.ExtensionPresence | main.py:15 | a name has a non-empty extension exactly when its last path component has a dot preceded by a non-dot character |
| Paths.InnerDotOfExtension | main.py:15 | a non-empty extension implies a dot after a non-dot character in the last component |
| Paths.NoInnerDotWithoutExtension | main.py:15 | an empty extension implies no such dot in the last component |
| Paths.ExtensionInBasename | main.py:15 | the extension is a suffix of the last path component, never reaching into a directory name |
| Paths.ExtensionOfPlainName | main.py:15 | "data.csv" has extension ".csv" |
| Paths.ExtensionIsLowered | main.py:15 | "Report.XLSX" has extension ".xlsx" |
| Paths.ExtensionAfterLastDot | main.py:15 | "archive.csv.xlsx" has extension ".xlsx" |
| Paths.LeadingDotIsNoExtension | main.py:15 | ".csv" has no extension |
| Paths.DirectoryDotIsNoExtension | main.py:15 | "v1.2/README" has no extension |
| Tables.Names | main.py:55 | the column labels, one per column, in order |
| Tables.ColumnCells | main.py:64 | the cells of one column, one per row, in row order |
| Tables.IndexOf | main.py:56 | the first position of a label present in the list |
| Tables.IndexOfDistinct | main.py:56 | among distinct labels, the position of the label at `k` is `k` |
| Ingest.ReaderFor | main.py:18-22 | ".csv" selects the CSV reader, ".xlsx" the Excel reader, anything else none |
| Ingest.ReadOne | main.py:15-27 | one iteration: an unsupported extension is skipped with "Unsupported file type: " + extension; a reader failure is skipped with "Error reading file " + name + ": " + reason; otherwise the table is loaded, and only ".csv" or ".xlsx" can load |
| Ingest.Map | main.py:14 | one outcome per file: the outcome at each position is that of the file at the same position |
| Ingest.OutcomesExtend | main.py:14 | one more file adds exactly its own outcome at the end |
| Ingest.IngestStep | main.py:23-27 | one more file appends its message if skipped, and replaces the last table only if loaded |
| Ingest.IngestAll | main.py:14-27 | the loop reports exactly `Errors` (every skip message in upload order); afterwards `file` and `file_ext` belong to the last upload, and `df` is the table of the last file read, or none |
| Ingest.MessagesOfPrefix | main.py:23-27 | messages already reported are never changed by later outcomes |
| Ingest.OutcomesAppend | main.py:14 | the outcomes of two runs of files are concatenated |
| Ingest.ErrorsOfPrefix | main.py:14-27 | the messages for a prefix of the uploads are a prefix of the messages for all of them |
| Ingest.MessagesAreSkips | main.py:23-27 | a message is reported exactly when some outcome skipped with it |
| Ingest.ErrorsAreSkips | main.py:14-27 | a message is reported exactly when some file was skipped with it |
| Ingest.LastTableAbsent | main.py:19-21 | there is no last table exactly when every outcome is a skip |
| Ingest.LastTableIsLatest | main.py:19-27 | a last table is the table of an outcome followed only by skips |
| Ingest.LastLoadedIsLatestRead | main.py:14-27 | `df` after the loop is unbound exactly when every file was skipped; otherwise it is the table of a file after which every file was skipped |
| Ingest.UnsupportedExample | main.py:22-24 | "report.xyz" is skipped with "Unsupported file type: .xyz" |
| Cleaning.Dedup | main.py:46 | every row survives, exactly once, and the survivors keep their relative order |
| Cleaning.DedupFrom | main.py:46 | keeps exactly the rows not yet seen, each once |
| Cleaning.DedupFromSubsequence | main.py:46 | the kept rows are a subsequence of the input: relative order is kept |
| Cleaning.DedupFromSnoc | main.py:46 | a row appended at the end is kept exactly when it is new |
| Cleaning.DedupKeepsFirstOccurrences | main.py:46 | duplicate removal equals an independent definition that keeps the first occurrence of every row, in order |
| Cleaning.DedupFromDistinct | main.py:46 | rows that are already distinct, none of them seen, are kept whole |
| Cleaning.DedupIdempotent | main.py:46 | removing duplicates twice is the same as once |
| Cleaning.RowsFromWellFormed | main.py:46 | rows drawn from a well-formed table form a well-formed table with the same columns |
| Cleaning.RemoveDuplicates | main.py:46 | same columns; the rows are the first occurrence of every row, in order: the same set of rows, no repeated row, no more rows than before; well-formedness kept |
| Cleaning.SubsequenceLength | main.py:46 | a subsequence is no longer than its sequence |
| Cleaning.RemoveDuplicatesExample | main.py:46 | rows (1,2), (1,2), (3,4) become (1,2), (3,4) |
| Cleaning.FillMissing | main.py:51-52 | shape kept; a changed cell was missing and lies in a numeric column; the missing cells of a numeric column with some value get the column mean; other columns (all-missing or non-numeric) are unchanged |
| Cleaning.FillCompletesColumn | main.py:51-52 | after filling, a numeric column with a present value has no missing cell |
| Cleaning.FillKeepsWellFormed | main.py:51-52 | filling keeps a well-formed table well formed (numeric columns still hold numbers) |
| Cleaning.FillIdempotent | main.py:51-52 | filling twice is the same as filling once |
| Cleaning.FillMissingExample | main.py:51-52 | the numeric column 1, missing, 3 becomes 1, 2, 3 with the arithmetic mean |
| Cleaning.Absent | main.py:56 | the selected labels that are not columns |
| Cleaning.Project | main.py:55-56 | a KeyError listing the absent labels exactly when a selected label is not a column; otherwise the columns are the selected ones in selection order, every row is kept, and each cell is taken from the first column with that label |
| Cleaning.ProjectAllIsIdentity | main.py:55-56 | the default selection (every column) leaves a well-formed table unchanged |
| Cleaning.ProjectKeepsWellFormed | main.py:55-56 | projecting a well-formed table on distinct labels gives a well-formed table |
| Charts.NumericNames | main.py:60 | the labels of the numeric columns, in column order, a subsequence of all labels |
| Charts.Visualize | main.py:59-70 | the warning "No numeric columns available for visualization." exactly when there is no numeric column; otherwise a chart of the requested kind over a numeric column's cells, the chosen column when it is numeric |
| Charts.ChartableAfterProjection | main.py:55-62 | after projection the chartable columns are exactly the selected numeric columns |
| Conversion.TargetExtension | main.py:76-87 | each target's extension is a dot followed by at least one character, with no further dot and no '/' |
| Conversion.MediaTypeOf | main.py:79-87 | a type and a subtype without '/', joined by '/', form a media type |
| Conversion.MimeType | main.py:79-87 | each target's MIME type is a media type: one '/' with a non-empty type before it and a non-empty subtype after it |
| Conversion.OutputName | main.py:78-86 | when the file's extension already is the target's, the name is offered unchanged |
| Conversion.TargetsDistinguishable | main.py:76-87 | distinct targets have distinct extensions and distinct MIME types |
| Conversion.OutputNameSwapsExtension | main.py:78-86 | a name with a lower-case extension whose root does not contain it gets exactly its extension swapped for the target's |
| Conversion.OutputNameWithoutOccurrence | main.py:78-86 | a name in which the lower-cased extension does not occur is offered unchanged |
| Conversion.OutputNameOfStem | main.py:78-86 | a stem without the extension's first character, followed by the extension, is offered as the stem followed by the target's extension |
| Conversion.ConvertPlainNameExample | main.py:80-82 | "data.csv" converted to Excel is offered as "data.xlsx" |
| Conversion.UpperCaseExtension | main.py:15 | "DATA.CSV" has extension ".csv" |
| Conversion.ConvertUpperCaseNameExample | main.py:82 | "DATA.CSV" converted to Excel is offered as "DATA.CSV" |
| Conversion.OutputNameReplacesEveryOccurrence | main.py:78-86 | every occurrence of the extension in the name is replaced by the target's extension: a name made of pieces joined by the extension is offered as the same pieces joined by the target's extension |
| Conversion.ConvertEmptyExtensionExample | main.py:78 | with an empty extension, the target's extension is inserted around every character |
| Script.Frame.constructor | main.py:19-21 | the frame holds the given table |
| Script.Frame.DropDuplicates | main.py:46 | the frame's new value is `RemoveDuplicates` of the old one, still well formed |
| Script.Frame.FillNumeric | main.py:51-52 | the frame's new value is `FillMissing` of the old one, still well formed |
| Script.Convert | main.py:75-87 | the download carries the encoding for the target, the name with `file_ext` replaced by the target's extension, and the target's MIME type |
| Script.CleanSection | main.py:41-95 | a KeyError exactly when the selection names a label that is not a column; otherwise the selected columns (every column by default), no more rows than read, and a download exactly when "Convert" was pressed, named by replacing `file_ext` and encoding the table shown |
| Script.LastLoadedWellFormed | main.py:14-27 | the table the loop leaves in `df` is well formed when the readers produce well-formed tables |
| Script.ScriptSection | main.py:13-95 | nothing without uploads or with "Clean data" unticked; `df` unbound exactly when every file was skipped; a download always named after the last file uploaded |
| Script.Run | main.py:13-95 | one run reports exactly the loop's messages, and produces the section `ScriptSection` describes: nothing without uploads or with "Clean data" unticked; a NameError when no file was read; otherwise the cleaned, projected table with its chart and download |
| Script.DefaultRunKeepsTable | main.py:41-95 | with neither button pressed and the default selection, the section shows the table as read, and the download encodes that table |
| Script.ChartedColumnWasSelected | main.py:55-64 | a charted column was selected and was numeric before projection |
| Script.SalesExtension | main.py:15 | "sales.csv" has extension ".csv" |
| Script.Q2Extension | main.py:15 | "q2.csv" has extension ".csv" |
| Script.Q2OutputName | main.py:82 | "q2.csv" with extension ".csv" converted to Excel is "q2.xlsx" |
| Script.ScenarioLastLoaded | main.py:14-27 | a file that is read followed by a file that is skipped leaves the first file's table in `df` |
| Script.SkippedLastFileNamesTheDownload | main.py:14-95 | "sales.csv" is read and the reader then fails on "q2.csv": the Excel download is named "q2.xlsx" but encodes the table of "sales.csv" |

## Left out

- Streamlit itself is not modelled: page layout, sidebar, subheaders, `st.error`/`st.success`/`st.warning` rendering, reruns and widget keys. The widget values of one run are the `Controls` value. An error message is modelled as a string that the loop reports.
- The file preview, size display and summary (lines 29-38: `head`, `size / 1024`, `describe`, `isnull().sum()`) are not modelled. They change no variable the rest of the script reads.
- The abort of a run by the data summary is not modelled. When "Show Data Summary" is ticked for a table with no columns, `df.describe()` (line 36) raises a ValueError. That line lies outside the `try` block, so the exception ends the script run. The model has no "Show Data Summary" control, so in every modelled run the loop goes on to the next file.
- Ingest.IngestAll, Script.Run: the abort of a run by two uploads with the same name is not modelled. The "Show Data Summary" checkbox (line 35) is created without a `key` for every file that was read, so when two files with the same name are both read, its second creation raises Streamlit's duplicate-widget error. That line lies outside the `try` block, so the run ends there: later files are not processed and lines 41-95 do not run. The model's loop handles every file, and `Ingest.ErrorsAreSkips` and `Script.Run` are stated for that loop.
- Parsing and serialisation (`pd.read_csv`, `pd.read_excel`, `to_csv`, `to_excel`, `to_json`, `BytesIO`) are not modelled. They are the parameters `Reader` and `Encoder`, and the model assumes only that a reader's tables are well formed (`WellBehaved`).
- pandas dtype inference is not modelled: each column's numeric flag is given with the table.
- Floating-point arithmetic is not modelled. Numbers are `real`, and the column mean is a parameter; `ArithmeticMean` is used only for a concrete example.
- The drawing of the bar, line and histogram charts is not modelled, including `hist(bins=20)`. Only the chosen kind, column and data series are modelled.
- Strings.Lower: only ASCII letters are lowered, whereas Python's `str.lower` also lowers non-ASCII letters.
- Paths.SplitExt: follows POSIX `posixpath.splitext` only; the Windows alternative separator `\` is not modelled.
- Cleaning.Dedup, Cleaning.RemoveDuplicates, Script.Frame.DropDuplicates: rows are compared cell by cell with the model's structural equality on `Cell`. pandas compares the cells of an object column with Python's `hash` and `==`, so `True`, `1` and `1.0` count as one value there, and so do `False` and `0`. For one object column holding `True`, `1` and `"x"`, pandas keeps two rows where the model keeps three.
- The DataFrame index is not modelled. After line 46 the surviving rows keep their original labels (for example 0, 2, 3), and `st.bar_chart` and `st.line_chart` (lines 64 and 66) plot against those labels; a chart's series here is only the column's cells in row order. The encoders drop the index (`index=False`, `orient='records'`), so only the chart's x-axis is affected.
- Cleaning.RemoveDuplicates: for a table with rows but no columns, pandas `drop_duplicates` returns the table unchanged, whereas the model keeps one row. The readers never return rows without columns, and projection comes only after line 46, so this case does not arise in the script.
- Cleaning.Project: the text of pandas' KeyError message is not modelled; the error carries the list of absent labels.
- Cleaning.Project: with repeated column labels, each selected label takes only the first column with that label, whereas pandas returns every column with that label. The readers rename repeated headers (`a`, `a.1`), so a table read by pandas has no repeated labels.
