/**
 * The conversion step (lines 73-87): the target format chosen in the radio
 * box gives the MIME type and the download's file name, which the script
 * builds with `file.name.replace(file_ext, new_ext)`.
 */
module Conversion {
  import opened Strings
  import opened Paths

  datatype Target = Csv | Excel | Json

  /** The extension written into the download's name for each target. */
  function TargetExtension(target: Target): (ext: string)
    ensures |ext| > 1 && ext[0] == '.' && '.' !in ext[1..] && '/' !in ext
  {
    match target
    case Csv => ".csv"
    case Excel => ".xlsx"
    case Json => ".json"
  }

  /** A media type `type/subtype`: one '/' with something on either side. */
  predicate IsMediaType(m: string)
  {
    exists i :: 0 < i < |m| - 1 && m[i] == '/' && '/' !in m[..i] && '/' !in m[i + 1..]
  }

  /** A type and a subtype, neither holding '/', joined by '/' form a media type. */
  lemma MediaTypeOf(top: string, sub: string)
    requires |top| > 0 && |sub| > 0 && '/' !in top && '/' !in sub
    ensures IsMediaType(top + "/" + sub)
  {
    var m := top + "/" + sub;
    assert m[..|top|] == top;
    assert m[|top| + 1..] == sub;
  }

  /** The MIME type announced with the download. */
  function MimeType(target: Target): (m: string)
    ensures IsMediaType(m)
  {
    match target
    case Csv =>
      MediaTypeOf("text", "csv");
      "text" + "/" + "csv"
    case Excel =>
      // the subtype is written in two parts so that each can be inspected for '/'
      var sub := "vnd.openxmlformats-officedocument" + ".spreadsheetml.sheet";
      assert '/' !in sub;
      MediaTypeOf("application", sub);
      "application" + "/" + sub
    case Json =>
      MediaTypeOf("application", "json");
      "application" + "/" + "json"
  }

  /**
   * The download's name: every occurrence of the lower-cased extension in the
   * original name is replaced by the target's extension.
   */
  function OutputName(name: string, fileExt: string, target: Target): (r: string)
    ensures fileExt == TargetExtension(target) ==> r == name
  {
    Replace(name, fileExt, TargetExtension(target))
  }

  /** Distinct targets never share an extension or a MIME type. */
  lemma TargetsDistinguishable(a: Target, b: Target)
    requires a != b
    ensures TargetExtension(a) != TargetExtension(b)
    ensures MimeType(a) != MimeType(b)
  {
    match (a, b)
    case (Csv, Excel) => assert TargetExtension(a)[1] != TargetExtension(b)[1];
    case (Csv, Json) => assert TargetExtension(a)[1] != TargetExtension(b)[1];
    case (Excel, Csv) => assert TargetExtension(a)[1] != TargetExtension(b)[1];
    case (Excel, Json) => assert TargetExtension(a)[1] != TargetExtension(b)[1];
    case (Json, Csv) => assert TargetExtension(a)[1] != TargetExtension(b)[1];
    case (Json, Excel) => assert TargetExtension(a)[1] != TargetExtension(b)[1];
    case _ =>
  }

  /**
   * A name whose extension is already lower case, and whose root does not
   * contain that extension, has exactly its extension swapped.
   */
  lemma OutputNameSwapsExtension(name: string, target: Target)
    requires Extension(name) == SplitExt(name).1 != []
    requires !Contains(SplitExt(name).0, Extension(name))
    ensures OutputName(name, Extension(name), target) == SplitExt(name).0 + TargetExtension(target)
  {
    ReplaceFirstOccurrence(SplitExt(name).0, Extension(name), [], TargetExtension(target));
    assert SplitExt(name).0 + Extension(name) + [] == name;
  }

  /**
   * A name in which the lower-cased extension does not literally occur (an
   * upper-case extension, say) comes back unchanged, whatever the target.
   */
  lemma OutputNameWithoutOccurrence(name: string, fileExt: string, target: Target)
    requires fileExt != [] && !Contains(name, fileExt)
    ensures OutputName(name, fileExt, target) == name
  {
    ReplaceAbsent(name, fileExt, TargetExtension(target));
  }

  /**
   * A stem that does not hold the extension's first character, followed by
   * the extension, is offered as the stem followed by the target's extension.
   */
  lemma OutputNameOfStem(stem: string, fileExt: string, target: Target)
    requires |fileExt| > 0 && fileExt[0] !in fileExt[1..] && fileExt[0] !in stem
    ensures OutputName(stem + fileExt, fileExt, target) == stem + TargetExtension(target)
  {
    FirstCharAbsent(stem, fileExt);
    ReplaceFirstOccurrence(stem, fileExt, [], TargetExtension(target));
    assert stem + fileExt + [] == stem + fileExt;
    assert stem + TargetExtension(target) + ReplaceScan([], fileExt, TargetExtension(target))
      == stem + TargetExtension(target);
  }

  /** Converting "data.csv" to Excel offers "data.xlsx". */
  lemma ConvertPlainNameExample()
    ensures OutputName("data.csv", ".csv", Excel) == "data.xlsx"
  {
    OutputNameOfStem("data", ".csv", Excel);
    assert "data" + ".csv" == "data.csv";
    assert "data" + ".xlsx" == "data.xlsx";
  }

  /** "DATA.CSV" has the extension ".csv" once lower-cased. */
  lemma UpperCaseExtension()
    ensures Extension("DATA.CSV") == ".csv"
  {
    var p := "DATA.CSV";
    RFindAt(p, '/', -1);
    RFindAt(p, '.', 4);
    SimpleNameExtension(p, 4);
    assert p[4..] == ".CSV";
    var lowered := Lower(".CSV");
    assert lowered[0] == '.' && lowered[1] == 'c' && lowered[2] == 's' && lowered[3] == 'v';
  }

  /** Converting "DATA.CSV" to Excel offers "DATA.CSV": ".csv" does not occur in it. */
  lemma ConvertUpperCaseNameExample()
    ensures OutputName("DATA.CSV", Extension("DATA.CSV"), Excel) == "DATA.CSV"
  {
    UpperCaseExtension();
    var pat := ".csv";
    FirstCharAbsent("CSV", pat);
    assert !IsPrefix(pat, ".CSV") by { assert ".CSV"[1] != pat[1]; }
    assert ".CSV"[1..] == "CSV";
    assert !Contains(".CSV", pat);
    AbsentAcrossPrefix("DATA", ".CSV", pat);
    assert "DATA" + ".CSV" == "DATA.CSV";
    ReplaceAbsent("DATA.CSV", pat, ".xlsx");
  }

  /**
   * Every occurrence is replaced, not only the trailing one: a name cut by the
   * extension into pieces that do not contain it (for ".csv", the name
   * "q1.csv.backup.csv" is "q1", "backup" and "" joined by ".csv") is offered
   * as the same pieces joined by the target's extension ("q1.json.backup.json"
   * for JSON).
   */
  lemma OutputNameReplacesEveryOccurrence(pieces: seq<string>, fileExt: string, target: Target)
    requires |fileExt| > 0 && fileExt[0] !in fileExt[1..]
    requires forall k :: 0 <= k < |pieces| ==> !Contains(pieces[k], fileExt)
    ensures OutputName(Join(pieces, fileExt), fileExt, target) == Join(pieces, TargetExtension(target))
  {
    ReplaceJoin(pieces, fileExt, TargetExtension(target));
  }

  /** With an empty extension (a name without one), the target's extension lands between every character. */
  lemma ConvertEmptyExtensionExample()
    ensures OutputName("ab", "", Csv) == ".csva.csvb.csv"
  {
  }
}
