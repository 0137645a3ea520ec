/**
 * The string manipulation the program applies to file names: Python's
 * `os.path.splitext` (Windows flavour, where both `\` and `/` separate path
 * components) and `str.lower`.
 */
module PathText {

  predicate IsSep(c: char) { c == '\\' || c == '/' }

  predicate IsDot(c: char) { c == '.' }

  /** Index of the last separator in `p`, or -1 (`str.rfind` on both separators). */
  function LastSep(p: string): (i: int)
    ensures -1 <= i < |p|
    ensures i >= 0 ==> IsSep(p[i])
    ensures forall j :: i < j < |p| ==> !IsSep(p[j])
  {
    if p == [] then -1
    else if IsSep(p[|p| - 1]) then |p| - 1
    else LastSep(p[..|p| - 1])
  }

  /** Index of the last dot in `p`, or -1 (`str.rfind('.')`). */
  function LastDot(p: string): (i: int)
    ensures -1 <= i < |p|
    ensures i >= 0 ==> IsDot(p[i])
    ensures forall j :: i < j < |p| ==> !IsDot(p[j])
  {
    if p == [] then -1
    else if IsDot(p[|p| - 1]) then |p| - 1
    else LastDot(p[..|p| - 1])
  }

  predicate HasNonDot(s: string)
  {
    exists i :: 0 <= i < |s| && !IsDot(s[i])
  }

  /**
   * `os.path.splitext(p)`: the extension is the part from the last dot of the
   * last path component on, unless that component holds nothing but dots
   * before it (so `.profile` and `..` have no extension).
   */
  function SplitExt(p: string): (r: (string, string))
    ensures r.0 + r.1 == p
    ensures r.1 == [] || (IsDot(r.1[0]) && forall i :: 1 <= i < |r.1| ==> !IsDot(r.1[i]) && !IsSep(r.1[i]))
  {
    var s := LastSep(p);
    var d := LastDot(p);
    if d > s && HasNonDot(p[s + 1..d]) then
      ExtensionShape(p, s, d);
      (p[..d], p[d..])
    else
      (p, [])
  }

  lemma ExtensionShape(p: string, s: int, d: int)
    requires -1 <= s < d < |p| && IsDot(p[d])
    requires forall j :: s < j < |p| ==> !IsSep(p[j])
    requires forall j :: d < j < |p| ==> !IsDot(p[j])
    ensures p[..d] + p[d..] == p
    ensures IsDot(p[d..][0]) && forall i :: 1 <= i < |p[d..]| ==> !IsDot(p[d..][i]) && !IsSep(p[d..][i])
  {
    forall i | 1 <= i < |p[d..]|
      ensures !IsDot(p[d..][i]) && !IsSep(p[d..][i])
    {
      assert p[d..][i] == p[d + i];
    }
  }

  /** The extension part of `os.path.splitext(p)`. */
  function Extension(p: string): string
  {
    SplitExt(p).1
  }

  lemma {:induction false} LastSepAppend(a: string, b: string)
    requires forall j :: 0 <= j < |b| ==> !IsSep(b[j])
    ensures LastSep(a + b) == LastSep(a)
  {
    if b != [] {
      assert (a + b)[..|a + b| - 1] == a + b[..|b| - 1];
      LastSepAppend(a, b[..|b| - 1]);
    } else {
      assert a + b == a;
    }
  }

  /**
   * Splitting a name built from a stem and a well-formed extension gives the
   * two parts back, provided the stem does not end in a separator or a dot.
   */
  lemma SplitExtOfJoin(stem: string, ext: string)
    requires stem != [] && !IsSep(stem[|stem| - 1]) && !IsDot(stem[|stem| - 1])
    requires ext != [] && IsDot(ext[0])
    requires forall i :: 1 <= i < |ext| ==> !IsDot(ext[i]) && !IsSep(ext[i])
    ensures SplitExt(stem + ext) == (stem, ext)
  {
    var p := stem + ext;
    LastSepAppend(stem, ext);
    var s := LastSep(p);
    var d := LastDot(p);
    assert p[|stem|] == '.';
    assert d == |stem|;
    assert s < |stem| - 1;
    assert !IsDot(p[s + 1..d][|stem| - 1 - (s + 1)]);
    assert p[..d] == stem && p[d..] == ext;
  }

  /** A name whose last component has no dot after its leading dots has no extension. */
  lemma NoDotNoExtension(p: string)
    requires forall i :: LastSep(p) < i < |p| ==> !IsDot(p[i])
    ensures SplitExt(p) == (p, [])
  {
  }

  function LowerChar(c: char): char
  {
    if 'A' <= c <= 'Z' then (c as int + 32) as char else c
  }

  /** `str.lower` restricted to ASCII letters. */
  function Lower(s: string): (r: string)
    ensures |r| == |s| && forall i :: 0 <= i < |s| ==> r[i] == LowerChar(s[i])
  {
    seq(|s|, i requires 0 <= i < |s| => LowerChar(s[i]))
  }
}
