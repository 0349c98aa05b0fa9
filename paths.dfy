/**
 * The extension of an uploaded file's name, as the script computes it with
 * `os.path.splitext(file.name)[-1].lower()` (POSIX path rules: '/' separates
 * components, '.' separates the extension).
 */
module Paths {
  import opened Strings

  /** Every character of `s` is a dot. */
  predicate AllDots(s: string)
  {
    forall k :: 0 <= k < |s| ==> s[k] == '.'
  }

  /**
   * `os.path.splitext(p)`: the root and the extension. The extension starts at
   * the last '.', provided that dot lies after the last '/' and some character
   * other than '.' precedes it within that last component (so leading dots, as
   * in ".bashrc", do not start an extension); otherwise it is empty.
   */
  function SplitExt(p: string): (r: (string, string))
    ensures r.0 + r.1 == p
    ensures r.1 == [] || (r.1[0] == '.' && '.' !in r.1[1..] && '/' !in r.1)
  {
    SplitAt(p, RFind(p, '/'), RFind(p, '.'))
  }

  /** `SplitExt` with the two `rfind` results as plain numbers. */
  function SplitAt(p: string, sepIndex: int, dotIndex: int): (r: (string, string))
    requires -1 <= sepIndex < |p| && -1 <= dotIndex < |p|
    requires dotIndex >= 0 ==> p[dotIndex] == '.'
    requires forall k :: sepIndex < k < |p| ==> p[k] != '/'
    requires forall k :: dotIndex < k < |p| ==> p[k] != '.'
    ensures r.0 + r.1 == p
    ensures r.1 == [] || (r.1[0] == '.' && '.' !in r.1[1..] && '/' !in r.1)
  {
    if dotIndex > sepIndex && !AllDots(p[sepIndex + 1..dotIndex]) then
      SuffixAfterLastDot(p, sepIndex, dotIndex);
      (p[..dotIndex], p[dotIndex..])
    else
      (p, [])
  }

  /**
   * The extension's shape with the two `rfind` results as plain numbers: the
   * last dot lies after the last separator.
   */
  lemma SuffixAfterLastDot(p: string, sepIndex: int, dotIndex: int)
    requires -1 <= sepIndex < dotIndex < |p| && p[dotIndex] == '.'
    requires forall k :: sepIndex < k < |p| ==> p[k] != '/'
    requires forall k :: dotIndex < k < |p| ==> p[k] != '.'
    ensures p[..dotIndex] + p[dotIndex..] == p
    ensures p[dotIndex..][0] == '.' && '.' !in p[dotIndex..][1..] && '/' !in p[dotIndex..]
  {
    AbsentFrom(p, dotIndex + 1, '.');
    AbsentFrom(p, dotIndex, '/');
    assert p[dotIndex..][1..] == p[dotIndex + 1..];
  }

  /** No character of `p` from position `i` on is `c`. */
  lemma AbsentFrom(p: string, i: int, c: char)
    requires 0 <= i <= |p|
    requires forall k :: i <= k < |p| ==> p[k] != c
    ensures c !in p[i..]
  {
    forall k | 0 <= k < |p[i..]| ensures p[i..][k] != c {
      assert p[i..][k] == p[i + k];
    }
  }

  /** The last path component of `p`. */
  function Basename(p: string): (b: string)
  {
    p[RFind(p, '/') + 1..]
  }

  /** The extension as the ingest loop uses it: lower-cased. */
  function Extension(name: string): (ext: string)
    ensures |ext| <= |name|
    ensures ext == [] || (ext[0] == '.' && '.' !in ext[1..] && '/' !in ext)
  {
    Lower(SplitExt(name).1)
  }

  /** Some dot of `b` is preceded by a character other than a dot. */
  predicate HasInnerDot(b: string)
  {
    exists i, j :: 0 <= i < j < |b| && b[i] != '.' && b[j] == '.'
  }

  /**
   * An independent reading of `SplitExt`: a name has a (non-empty) extension
   * exactly when its last component holds a dot preceded by a non-dot character.
   */
  lemma ExtensionPresence(p: string)
    ensures SplitExt(p).1 != [] <==> HasInnerDot(Basename(p))
  {
    if SplitExt(p).1 != [] {
      InnerDotOfExtension(p);
    } else {
      NoInnerDotWithoutExtension(p);
    }
  }

  lemma InnerDotOfExtension(p: string)
    requires SplitExt(p).1 != []
    ensures HasInnerDot(Basename(p))
  {
    var sepIndex := RFind(p, '/');
    var dotIndex := RFind(p, '.');
    assert SplitAt(p, sepIndex, dotIndex).1 != [];
    InnerDotBefore(p, sepIndex, dotIndex);
  }

  /** A non-dot between the separator at `sepIndex` and the dot at `dotIndex` makes an inner dot. */
  lemma InnerDotBefore(p: string, sepIndex: int, dotIndex: int)
    requires -1 <= sepIndex < dotIndex < |p| && p[dotIndex] == '.'
    requires !AllDots(p[sepIndex + 1..dotIndex])
    ensures HasInnerDot(p[sepIndex + 1..])
  {
    var b := p[sepIndex + 1..];
    var gap := p[sepIndex + 1..dotIndex];
    var k :| 0 <= k < |gap| && gap[k] != '.';
    assert b[k] == gap[k];
    assert b[dotIndex - sepIndex - 1] == p[dotIndex];
  }

  lemma NoInnerDotWithoutExtension(p: string)
    requires SplitExt(p).1 == []
    ensures !HasInnerDot(Basename(p))
  {
    NoInnerDotAfter(p, RFind(p, '/'), RFind(p, '.'));
  }

  /**
   * `NoInnerDotWithoutExtension` with the two `rfind` results as plain
   * numbers: the last dot at `dotIndex` either precedes the last component
   * starting after `sepIndex`, or only dots lie between them.
   */
  lemma NoInnerDotAfter(p: string, sepIndex: int, dotIndex: int)
    requires -1 <= sepIndex < |p| && -1 <= dotIndex < |p|
    requires forall k :: dotIndex < k < |p| ==> p[k] != '.'
    requires dotIndex <= sepIndex || AllDots(p[sepIndex + 1..dotIndex])
    ensures !HasInnerDot(p[sepIndex + 1..])
  {
    var b := p[sepIndex + 1..];
    var last := if dotIndex > sepIndex then dotIndex - sepIndex - 1 else -1;
    forall k | last < k < |b| ensures b[k] != '.' {
      assert b[k] == p[sepIndex + 1 + k];
    }
    if last >= 0 {
      var gap := p[sepIndex + 1..dotIndex];
      forall k | 0 <= k < last ensures b[k] == '.' {
        assert b[k] == gap[k];
      }
    }
    OnlyLeadingDots(b, last);
  }

  /** A string whose dots all lie in a leading run of dots has no inner dot. */
  lemma OnlyLeadingDots(b: string, last: int)
    requires -1 <= last < |b|
    requires forall k :: last < k < |b| ==> b[k] != '.'
    requires forall k :: 0 <= k < last ==> b[k] == '.'
    ensures !HasInnerDot(b)
  {
  }

  /** The extension, when there is one, is a suffix of the last path component. */
  lemma ExtensionInBasename(p: string)
    ensures |SplitExt(p).1| <= |Basename(p)|
    ensures SplitExt(p).1 == Basename(p)[|Basename(p)| - |SplitExt(p).1|..]
  {
    var sepIndex := RFind(p, '/');
    var dotIndex := RFind(p, '.');
    var b, ext := Basename(p), SplitExt(p).1;
    if ext != [] {
      assert b == p[sepIndex + 1..];
      assert ext == p[dotIndex..];
      SuffixOfSuffix(p, sepIndex + 1, dotIndex);
    }
  }

  /** Dropping `i` and then `j - i` characters drops `j`. */
  lemma SuffixOfSuffix(p: string, i: int, j: int)
    requires 0 <= i <= j <= |p|
    ensures p[i..][j - i..] == p[j..]
  {
  }

  /** `RFind` is pinned down by its contract: the last `c` is at `i`. */
  lemma RFindAt(s: string, c: char, i: int)
    requires -1 <= i < |s|
    requires i >= 0 ==> s[i] == c
    requires forall k :: i < k < |s| ==> s[k] != c
    ensures RFind(s, c) == i
  {
  }

  /**
   * A name without '/' that does not start with a dot, and whose last dot is
   * at `dotIndex`, has the extension starting there.
   */
  lemma SimpleNameExtension(p: string, dotIndex: int)
    requires 0 < dotIndex < |p| && p[0] != '.'
    requires RFind(p, '/') == -1 && RFind(p, '.') == dotIndex
    ensures SplitExt(p).1 == p[dotIndex..]
    ensures Extension(p) == Lower(p[dotIndex..])
  {
    assert p[0..dotIndex][0] == p[0];
  }

  /** "data.csv" has the extension ".csv". */
  lemma ExtensionOfPlainName()
    ensures Extension("data.csv") == ".csv"
  {
    var p := "data.csv";
    RFindAt(p, '/', -1);
    RFindAt(p, '.', 4);
    SimpleNameExtension(p, 4);
    assert p[4..] == ".csv";
    assert Lower(".csv") == ".csv";
  }

  /** An upper-case extension is lower-cased: "Report.XLSX" gives ".xlsx". */
  lemma ExtensionIsLowered()
    ensures Extension("Report.XLSX") == ".xlsx"
  {
    var p := "Report.XLSX";
    RFindAt(p, '/', -1);
    RFindAt(p, '.', 6);
    SimpleNameExtension(p, 6);
    assert p[6..] == ".XLSX";
    var lowered := Lower(".XLSX");
    assert lowered[0] == '.' && lowered[1] == 'x' && lowered[2] == 'l' && lowered[3] == 's' && lowered[4] == 'x';
  }

  /** Only the part after the last dot counts: "archive.csv.xlsx" gives ".xlsx". */
  lemma ExtensionAfterLastDot()
    ensures Extension("archive.csv.xlsx") == ".xlsx"
  {
    var p := "archive.csv.xlsx";
    RFindAt(p, '/', -1);
    RFindAt(p, '.', 11);
    SimpleNameExtension(p, 11);
    assert p[11..] == ".xlsx";
    assert Lower(".xlsx") == ".xlsx";
  }

  /** Leading dots do not start an extension: ".csv" has none. */
  lemma LeadingDotIsNoExtension()
    ensures Extension(".csv") == []
  {
    var p := ".csv";
    RFindAt(p, '/', -1);
    RFindAt(p, '.', 0);
    assert AllDots(p[0..0]);
  }

  /** A dot in a directory name is no extension: "v1.2/README" has none. */
  lemma DirectoryDotIsNoExtension()
    ensures Extension("v1.2/README") == []
  {
    var p := "v1.2/README";
    RFindAt(p, '/', 4);
    RFindAt(p, '.', 2);
  }
}
