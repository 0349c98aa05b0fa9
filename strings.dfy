/**
 * The few Python string operations the script relies on, over `seq<char>`:
 * `str.rfind` for one character, `str.lower` and `str.replace`, with the
 * test for an occurrence of a pattern that `str.replace` acts on.
 */
module Strings {

  /** `p` is a prefix of `s`. */
  predicate IsPrefix(p: string, s: string)
  {
    |p| <= |s| && s[..|p|] == p
  }

  /** `p` occurs in `s` starting at position `i`. */
  predicate OccursAt(s: string, p: string, i: int)
  {
    0 <= i <= |s| - |p| && s[i..i + |p|] == p
  }

  /** `p` occurs in `s` at some position: an independent reading of `Contains`. */
  ghost predicate Occurs(s: string, p: string)
  {
    exists i :: OccursAt(s, p, i)
  }

  /**
   * Whether `p` occurs in `s`, the occurrences `str.replace` replaces, found by
   * scanning `s` from the left (the empty string occurs everywhere).
   */
  predicate Contains(s: string, p: string)
    ensures Contains(s, p) <==> Occurs(s, p)
    decreases |s|
  {
    if IsPrefix(p, s) then
      assert OccursAt(s, p, 0) by { assert s[0..|p|] == s[..|p|]; }
      true
    else if |s| == 0 then
      false
    else
      OccursAfterHead(s, p);
      Contains(s[1..], p)
  }

  /** When `p` is not a prefix of `s`, it occurs in `s` exactly when it occurs in the tail. */
  lemma OccursAfterHead(s: string, p: string)
    requires |s| > 0 && !IsPrefix(p, s)
    ensures Occurs(s, p) <==> Occurs(s[1..], p)
  {
    var t := s[1..];
    if Occurs(s, p) {
      var i :| OccursAt(s, p, i);
      assert i != 0;
      assert t[i - 1..i - 1 + |p|] == s[i..i + |p|];
      assert OccursAt(t, p, i - 1);
    }
    if Occurs(t, p) {
      var j :| OccursAt(t, p, j);
      assert s[j + 1..j + 1 + |p|] == t[j..j + |p|];
      assert OccursAt(s, p, j + 1);
    }
  }

  /** Python's `s.rfind(c)`: the index of the last `c` in `s`, or -1 when there is none. */
  function RFind(s: string, c: char): (r: int)
    ensures -1 <= r < |s|
    ensures r >= 0 ==> s[r] == c
    ensures forall k :: r < k < |s| ==> s[k] != c
  {
    if |s| == 0 then -1
    else if s[|s| - 1] == c then |s| - 1
    else RFind(s[..|s| - 1], c)
  }

  predicate IsUpper(c: char)
  {
    'A' <= c <= 'Z'
  }

  function LowerChar(c: char): (l: char)
  {
    if IsUpper(c) then (c as int - 'A' as int + 'a' as int) as char else c
  }

  /** Python's `s.lower()`, restricted to the ASCII letters. */
  function Lower(s: string): (r: string)
    ensures |r| == |s|
    ensures forall k :: 0 <= k < |r| ==> !IsUpper(r[k])
    ensures forall k :: 0 <= k < |s| && !IsUpper(s[k]) ==> r[k] == s[k]
    ensures forall k :: 0 <= k < |s| && IsUpper(s[k]) ==> r[k] as int == s[k] as int + 32
  {
    seq(|s|, k requires 0 <= k < |s| => LowerChar(s[k]))
  }

  /**
   * Python's `s.replace(pat, rep)`: every occurrence of `pat`, scanned from the
   * left without overlap, is replaced by `rep`. An empty `pat` matches before
   * every character and at the end. Replacing a pattern by itself changes
   * nothing.
   */
  function Replace(s: string, pat: string, rep: string): (r: string)
    ensures |pat| > 0 && rep == pat ==> r == s
  {
    if |pat| == 0 then InsertAround(s, rep)
    else
      ScanWithItself(s, pat);
      ReplaceScan(s, pat, rep)
  }

  /** `s.replace("", rep)`: `rep` before every character and once more at the end. */
  function InsertAround(s: string, rep: string): (r: string)
    decreases |s|
  {
    if |s| == 0 then rep else rep + [s[0]] + InsertAround(s[1..], rep)
  }

  /** The left-to-right scan of `s.replace(pat, rep)` for a non-empty `pat`. */
  function ReplaceScan(s: string, pat: string, rep: string): (r: string)
    requires |pat| > 0
    decreases |s|
  {
    if IsPrefix(pat, s) then rep + ReplaceScan(s[|pat|..], pat, rep)
    else if |s| == 0 then []
    else [s[0]] + ReplaceScan(s[1..], pat, rep)
  }

  lemma {:induction false} ScanWithItself(s: string, pat: string)
    requires |pat| > 0
    ensures ReplaceScan(s, pat, pat) == s
    decreases |s|
  {
    if IsPrefix(pat, s) {
      ScanWithItself(s[|pat|..], pat);
      assert s[..|pat|] + s[|pat|..] == s;
    } else if |s| > 0 {
      ScanWithItself(s[1..], pat);
      assert [s[0]] + s[1..] == s;
    }
  }

  /** A string in which a non-empty `pat` does not occur comes back from `Replace` unchanged. */
  lemma {:induction false} ReplaceAbsent(s: string, pat: string, rep: string)
    requires |pat| > 0 && !Contains(s, pat)
    ensures ReplaceScan(s, pat, rep) == s
    decreases |s|
  {
    if |s| > 0 {
      ReplaceAbsent(s[1..], pat, rep);
      assert [s[0]] + s[1..] == s;
    }
  }

  /**
   * When the first character of `pat` does not recur in it (as with ".csv"),
   * an occurrence cannot straddle `stem` and a following `pat`; so if `stem`
   * holds no occurrence, the first one replaced is the one right after it.
   */
  lemma {:induction false} ReplaceFirstOccurrence(stem: string, pat: string, rest: string, rep: string)
    requires |pat| > 0 && pat[0] !in pat[1..]
    requires !Contains(stem, pat)
    ensures ReplaceScan(stem + pat + rest, pat, rep) == stem + rep + ReplaceScan(rest, pat, rep)
    decreases |stem|
  {
    if |stem| == 0 {
      assert stem + pat + rest == pat + rest;
      ReplaceAtMatch(pat, rest, rep);
    } else {
      assert !Contains(stem[1..], pat);
      ReplaceFirstOccurrence(stem[1..], pat, rest, rep);
      NoOccurrenceAtStart(stem, pat, rest);
      ReplaceStemStep(stem, pat, rest, rep);
    }
  }

  /** The inductive step of `ReplaceFirstOccurrence`: one character of `stem` is copied. */
  lemma ReplaceStemStep(stem: string, pat: string, rest: string, rep: string)
    requires |stem| > 0 && |pat| > 0 && !IsPrefix(pat, stem + pat + rest)
    requires ReplaceScan(stem[1..] + pat + rest, pat, rep) == stem[1..] + rep + ReplaceScan(rest, pat, rep)
    ensures ReplaceScan(stem + pat + rest, pat, rep) == stem + rep + ReplaceScan(rest, pat, rep)
  {
    var s := stem + pat + rest;
    ReplaceAtMismatch(s, pat, rep);
    assert s[0] == stem[0];
    assert s[1..] == stem[1..] + pat + rest;
    ConsAssociates(stem, rep, ReplaceScan(rest, pat, rep));
  }

  /** One step of the scan where `pat` matches at the front. */
  lemma ReplaceAtMatch(pat: string, rest: string, rep: string)
    requires |pat| > 0
    ensures ReplaceScan(pat + rest, pat, rep) == rep + ReplaceScan(rest, pat, rep)
  {
    var s := pat + rest;
    assert s[..|pat|] == pat;
    assert s[|pat|..] == rest;
  }

  /** One step of the scan where `pat` does not match at the front. */
  lemma ReplaceAtMismatch(s: string, pat: string, rep: string)
    requires |pat| > 0 && |s| > 0 && !IsPrefix(pat, s)
    ensures ReplaceScan(s, pat, rep) == [s[0]] + ReplaceScan(s[1..], pat, rep)
  {
  }

  /**
   * A non-empty `stem` that holds no occurrence of `pat`, followed by `pat`:
   * `pat` does not start at the first character.
   */
  lemma NoOccurrenceAtStart(stem: string, pat: string, rest: string)
    requires |stem| > 0 && |pat| > 0 && pat[0] !in pat[1..]
    requires !Contains(stem, pat)
    ensures !IsPrefix(pat, stem + pat + rest)
  {
    var s := stem + pat + rest;
    if |pat| <= |stem| {
      assert s[..|pat|] == stem[..|pat|];
    } else {
      assert s[|stem|] == pat[0];
      assert pat[1..][|stem| - 1] == pat[|stem|];
    }
  }

  lemma ConsAssociates(a: string, b: string, c: string)
    requires |a| > 0
    ensures [a[0]] + (a[1..] + b + c) == a + b + c
  {
    assert a == [a[0]] + a[1..];
  }

  /** Python's `sep.join(segs)`. */
  function Join(segs: seq<string>, sep: string): (r: string)
    decreases |segs|
  {
    if |segs| == 0 then []
    else if |segs| == 1 then segs[0]
    else segs[0] + sep + Join(segs[1..], sep)
  }

  /**
   * Every occurrence is replaced: a string cut by `pat` into segments that hold
   * no occurrence of it becomes the same segments joined by `rep`.
   */
  lemma {:induction false} ReplaceJoin(segs: seq<string>, pat: string, rep: string)
    requires |pat| > 0 && pat[0] !in pat[1..]
    requires forall k :: 0 <= k < |segs| ==> !Contains(segs[k], pat)
    ensures ReplaceScan(Join(segs, pat), pat, rep) == Join(segs, rep)
    decreases |segs|
  {
    if |segs| == 1 {
      ReplaceAbsent(segs[0], pat, rep);
    } else if |segs| > 1 {
      var rest := segs[1..];
      assert forall k :: 0 <= k < |rest| ==> rest[k] == segs[k + 1];
      ReplaceJoin(rest, pat, rep);
      ReplaceFirstOccurrence(segs[0], pat, Join(rest, pat), rep);
    }
  }

  /** A pattern whose first character is not in `s` does not occur in `s`. */
  lemma {:induction false} FirstCharAbsent(s: string, pat: string)
    requires |pat| > 0 && pat[0] !in s
    ensures !Contains(s, pat)
    decreases |s|
  {
    if |s| > 0 {
      assert s[0] != pat[0];
      assert forall k :: 0 <= k < |s[1..]| ==> s[1..][k] == s[k + 1];
      FirstCharAbsent(s[1..], pat);
    }
  }

  /**
   * A pattern that starts with a character absent from `a` cannot begin in
   * `a`, so it occurs in `a + b` only if it occurs in `b`.
   */
  lemma {:induction false} AbsentAcrossPrefix(a: string, b: string, pat: string)
    requires |pat| > 0 && pat[0] !in a && !Contains(b, pat)
    ensures !Contains(a + b, pat)
    decreases |a|
  {
    if |a| > 0 {
      assert (a + b)[0] == a[0] != pat[0];
      assert (a + b)[1..] == a[1..] + b;
      AbsentAcrossPrefix(a[1..], b, pat);
    } else {
      assert a + b == b;
    }
  }
}
