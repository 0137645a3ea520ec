/**
 * Output file names of `export_img`: a one-page export is written to the
 * destination path itself; page `i` (1-based) of an export of `n >= 2` pages is
 * written to the destination's stem, then `i` zero-padded to the decimal
 * length of `n`, then the destination's extension.
 */
module Naming {
  import opened Wrappers
  import opened Decimal
  import opened PathText

  /** The name of page `i` when page numbers are padded to `width` digits. */
  function NumberedName(path: string, i: nat, width: nat): string
  {
    SplitExt(path).0 + ZeroPad(i, width) + SplitExt(path).1
  }

  /** The names of pages 1..n, numbers padded to `width` digits. */
  function NamesWithWidth(path: string, n: nat, width: nat): (r: seq<string>)
    ensures |r| == n && forall i :: 0 <= i < n ==> r[i] == NumberedName(path, i + 1, width)
  {
    seq(n, i requires 0 <= i < n => NumberedName(path, i + 1, width))
  }

  /**
   * The file names of an export of `n` pages to `path`; None for zero pages,
   * where the program's `log(0, 10)` raises before any page is written.
   * The padding width is the decimal length of `n`; the program computes it
   * as `int(log(n, 10)) + 1` in floating point, which differs at 1000 (see
   * ThousandPagesMisordered).
   */
  function NamesFor(path: string, n: nat): (r: Option<seq<string>>)
    ensures r.None? <==> n == 0
    ensures r.Some? ==> |r.value| == n
  {
    if n == 0 then None
    else if n == 1 then Some([path])
    else Some(NamesWithWidth(path, n, DecimalLength(n)))
  }

  /**
   * One page keeps the destination path verbatim; with two or more, each
   * name is the stem, a number of exactly the decimal length of `n`
   * digits that reads as the page's position, and the extension.
   */
  lemma NamesForShape(path: string, n: nat, i: nat)
    requires 1 <= n && i < n
    ensures n == 1 ==> NamesFor(path, n) == Some([path])
    ensures n >= 2 ==> exists digits: string ::
      NamesFor(path, n).value[i] == SplitExt(path).0 + digits + SplitExt(path).1 &&
      |digits| == DecimalLength(n) && digits == FixedDigits(i + 1, DecimalLength(n))
  {
    if n >= 2 {
      DecimalLengthMonotone(i + 1, n);
      ZeroPadIsFixedDigits(i + 1, DecimalLength(n));
      var digits := ZeroPad(i + 1, DecimalLength(n));
      assert NamesFor(path, n).value[i] == SplitExt(path).0 + digits + SplitExt(path).1;
    }
  }

  /** Padding to a width that holds `n` keeps the names in page order. */
  lemma NumberedNamesOrdered(path: string, i: nat, j: nat, width: nat)
    requires i < j && DecimalLength(j) <= width
    ensures LexLess(NumberedName(path, i, width), NumberedName(path, j, width))
  {
    var (stem, ext) := SplitExt(path);
    var a, b := ZeroPad(i, width), ZeroPad(j, width);
    ZeroPadOrdered(i, j, width);
    LexLessExtend(a, b, ext, ext);
    LexLessPrefix(stem, a + ext, b + ext);
    assert stem + a + ext == stem + (a + ext);
    assert stem + b + ext == stem + (b + ext);
  }

  /**
   * For two or more pages, sorting the names as strings puts them in page
   * order; in particular they are pairwise distinct.
   */
  lemma NamesForOrdered(path: string, n: nat)
    requires n >= 2
    ensures forall i, j :: 0 <= i < j < n ==> LexLess(NamesFor(path, n).value[i], NamesFor(path, n).value[j])
    ensures forall i, j :: 0 <= i < n && 0 <= j < n && i != j ==> NamesFor(path, n).value[i] != NamesFor(path, n).value[j]
  {
    var names := NamesFor(path, n).value;
    forall i, j | 0 <= i < j < n
      ensures LexLess(names[i], names[j]) && names[i] != names[j]
    {
      DecimalLengthMonotone(j + 1, n);
      NumberedNamesOrdered(path, i + 1, j + 1, DecimalLength(n));
      if names[i] == names[j] {
        LexLessIrreflexive(names[i]);
      }
    }
  }

  /**
   * Each numbered name keeps the destination's extension: splitting it again
   * gives the stem with the number, and the same extension.
   */
  lemma NamesKeepExtension(path: string, n: nat, i: nat)
    requires 2 <= n && i < n && Extension(path) != []
    ensures SplitExt(NamesFor(path, n).value[i]) == (SplitExt(path).0 + ZeroPad(i + 1, DecimalLength(n)), Extension(path))
  {
    var stem, ext := SplitExt(path).0, SplitExt(path).1;
    var digits := ZeroPad(i + 1, DecimalLength(n));
    var s := stem + digits;
    assert NamesFor(path, n).value[i] == NumberedName(path, i + 1, DecimalLength(n)) == s + ext;
    ZeroPadEndsInDigit(i + 1, DecimalLength(n));
    assert s[|s| - 1] == digits[|digits| - 1];
    SplitExtOfJoin(s, ext);
  }

  /**
   * The program pads to `int(log(n, 10)) + 1` digits, computed in floating
   * point; for n = 1000, `log(1000, 10)` evaluates to 2.9999999999999996, so
   * the width is 3. Page 1000 is then named with four digits and sorts
   * before page 999, whatever the destination.
   */
  lemma ThousandPagesMisordered(path: string)
    ensures LexLess(NamesWithWidth(path, 1000, 3)[999], NamesWithWidth(path, 1000, 3)[998])
    ensures |NamesWithWidth(path, 1000, 3)[999]| == |NamesWithWidth(path, 1000, 3)[998]| + 1
  {
    var names := NamesWithWidth(path, 1000, 3);
    assert names[999] == NumberedName(path, 1000, 3);
    assert names[998] == NumberedName(path, 999, 3);
    ThousandBeforeNineHundredNinetyNine(SplitExt(path).0, SplitExt(path).1);
  }

  // The program does not concatenate the stem, the number and the extension:
  // it builds the format string `stem + "%0<w>d" + ext` and applies Python's
  // `%` operator to it, so a `%` in the destination path is read as part of
  // the format.

  /** The conversion the program inserts into the format string. */
  function Conversion(width: nat): string
  {
    "%0" + NatToString(width) + "d"
  }

  /**
   * `fmt % (arg,)` for a format whose conversions are `%%` and `conv`: `%%`
   * yields `%` and `conv` consumes the one argument. Any other `%` is None
   * here, as Python 3.7 and later raise for it: either at once (an
   * unsupported or incomplete conversion) or at `conv`, whose argument a
   * valid conversion has already consumed; so are a `conv` left without an
   * argument and an argument left unconverted. Earlier versions differ only
   * for a `%` whose flags, width, precision or length modifier are followed
   * by `%`, which they print as `%`.
   */
  function Interpolate(fmt: string, conv: string, width: nat, arg: Option<nat>): Option<string>
    decreases |fmt|
  {
    if fmt == [] then (if arg.None? then Some([]) else None)
    else if fmt[0] != '%' then Prepend([fmt[0]], Interpolate(fmt[1..], conv, width, arg))
    else if |fmt| >= 2 && fmt[1] == '%' then Prepend(['%'], Interpolate(fmt[2..], conv, width, arg))
    else if arg.Some? && |conv| > 0 && conv <= fmt then
      Prepend(ZeroPad(arg.value, width), Interpolate(fmt[|conv|..], conv, width, None))
    else None
  }

  function Prepend(s: string, r: Option<string>): Option<string>
  {
    if r.Some? then Some(s + r.value) else None
  }

  /** The name the program computes for page `i`: `filename_format % (i,)`. */
  function NameAsWritten(path: string, i: nat, width: nat): Option<string>
  {
    var conv := Conversion(width);
    Interpolate(SplitExt(path).0 + conv + SplitExt(path).1, conv, width, Some(i))
  }

  lemma {:induction false} InterpolatePlain(s: string, rest: string, conv: string, width: nat, arg: Option<nat>)
    requires forall k :: 0 <= k < |s| ==> s[k] != '%'
    ensures Interpolate(s + rest, conv, width, arg) == Prepend(s, Interpolate(rest, conv, width, arg))
  {
    if s == [] {
      assert s + rest == rest;
      match Interpolate(rest, conv, width, arg) {
        case None =>
        case Some(v) => assert [] + v == v;
      }
    } else {
      assert (s + rest)[0] == s[0] && (s + rest)[1..] == s[1..] + rest;
      InterpolatePlain(s[1..], rest, conv, width, arg);
      match Interpolate(rest, conv, width, arg) {
        case None =>
        case Some(v) => assert [s[0]] + (s[1..] + v) == s + v;
      }
    }
  }

  /** Without a `%` in the destination path, the program's name is the intended one. */
  lemma NameAsWrittenWithoutPercent(path: string, i: nat, width: nat)
    requires forall k :: 0 <= k < |path| ==> path[k] != '%'
    ensures NameAsWritten(path, i, width) == Some(NumberedName(path, i, width))
  {
    var stem, ext := SplitExt(path).0, SplitExt(path).1;
    NoPercentInParts(stem, ext);
    PlainFormat(stem, ext, i, width);
  }

  lemma NoPercentInParts(stem: string, ext: string)
    requires forall k :: 0 <= k < |stem + ext| ==> (stem + ext)[k] != '%'
    ensures forall k :: 0 <= k < |stem| ==> stem[k] != '%'
    ensures forall k :: 0 <= k < |ext| ==> ext[k] != '%'
  {
    assert forall k :: 0 <= k < |stem| ==> stem[k] == (stem + ext)[k];
    assert forall k :: 0 <= k < |ext| ==> ext[k] == (stem + ext)[|stem| + k];
  }

  lemma PlainFormat(stem: string, ext: string, i: nat, width: nat)
    requires forall k :: 0 <= k < |stem| ==> stem[k] != '%'
    requires forall k :: 0 <= k < |ext| ==> ext[k] != '%'
    ensures Interpolate(stem + Conversion(width) + ext, Conversion(width), width, Some(i)) == Some(stem + ZeroPad(i, width) + ext)
  {
    var conv := Conversion(width);
    Associate(stem, conv, ext);
    InterpolatePlain(stem, conv + ext, conv, width, Some(i));
    InterpolateConversion(ext, width, i);
    Associate(stem, ZeroPad(i, width), ext);
  }

  lemma InterpolateConversion(ext: string, width: nat, i: nat)
    requires forall k :: 0 <= k < |ext| ==> ext[k] != '%'
    ensures Interpolate(Conversion(width) + ext, Conversion(width), width, Some(i)) == Some(ZeroPad(i, width) + ext)
  {
    var conv := Conversion(width);
    assert (conv + ext)[0] == '%' && (conv + ext)[1] == '0';
    assert conv <= conv + ext && (conv + ext)[|conv|..] == ext;
    InterpolatePlain(ext, [], conv, width, None);
    assert ext + [] == ext;
  }

  /**
   * A doubled `%` in the destination's stem is collapsed: exporting to
   * `a%%b\o.png` writes `a%b\o1.png`, `a%b\o2.png`, ..., files in another
   * directory than the one given.
   */
  lemma DoubledPercentCollapsed(path: string, a: string, b: string, i: nat, width: nat)
    requires SplitExt(path).0 == a + "%%" + b
    requires forall k :: 0 <= k < |a| ==> a[k] != '%'
    requires forall k :: 0 <= k < |b| ==> b[k] != '%'
    requires forall k :: 0 <= k < |Extension(path)| ==> Extension(path)[k] != '%'
    ensures NameAsWritten(path, i, width) == Some(a + "%" + b + ZeroPad(i, width) + Extension(path))
    ensures NumberedName(path, i, width) == a + "%%" + b + ZeroPad(i, width) + Extension(path)
  {
    DoubledPercentInFormat(a, b, Extension(path), i, width);
  }

  lemma DoubledPercentInFormat(a: string, b: string, ext: string, i: nat, width: nat)
    requires forall k :: 0 <= k < |a| ==> a[k] != '%'
    requires forall k :: 0 <= k < |b| ==> b[k] != '%'
    requires forall k :: 0 <= k < |ext| ==> ext[k] != '%'
    ensures Interpolate(a + "%%" + b + Conversion(width) + ext, Conversion(width), width, Some(i))
         == Some(a + "%" + b + ZeroPad(i, width) + ext)
  {
    var conv := Conversion(width);
    var pad := ZeroPad(i, width);
    var tail := b + (conv + ext);
    Reassociate(a, "%%", b, conv, ext);
    InterpolateConversion(ext, width, i);
    InterpolatePlain(b, conv + ext, conv, width, Some(i));
    assert Interpolate(tail, conv, width, Some(i)) == Some(b + (pad + ext));
    InterpolateDoubled(tail, conv, width, Some(i));
    assert Interpolate("%%" + tail, conv, width, Some(i)) == Some("%" + (b + (pad + ext)));
    InterpolatePlain(a, "%%" + tail, conv, width, Some(i));
    Reassociate(a, "%", b, pad, ext);
  }

  lemma Associate(s1: string, s2: string, s3: string)
    ensures s1 + (s2 + s3) == s1 + s2 + s3
  {
  }

  lemma Reassociate(s1: string, s2: string, s3: string, s4: string, s5: string)
    ensures s1 + (s2 + (s3 + (s4 + s5))) == s1 + s2 + s3 + s4 + s5
  {
  }

  lemma InterpolateDoubled(tail: string, conv: string, width: nat, arg: Option<nat>)
    ensures Interpolate("%%" + tail, conv, width, arg) == Prepend(['%'], Interpolate(tail, conv, width, arg))
  {
    var fmt := "%%" + tail;
    assert fmt[0] == '%' && fmt[1] == '%' && fmt[2..] == tail;
  }

  /**
   * A letter that, right after a `%`, raises in every Python version: it is
   * either not a conversion at all, or a conversion that consumes the page
   * number before the program's own `%0<w>d` is reached. The length
   * modifiers `h`, `l` and `L` are skipped by Python and so are excluded.
   */
  predicate RaisingConversionLetter(c: char)
  {
    ('a' <= c <= 'z' || 'A' <= c <= 'Z') && c != 'h' && c != 'l' && c != 'L'
  }

  /**
   * A single `%` in the destination's stem followed by such a letter makes
   * the formatting raise, so a multi-page export to `a%b\o.png` fails
   * although the directory exists.
   */
  lemma LonePercentRaises(path: string, a: string, c: char, b: string, i: nat, width: nat)
    requires SplitExt(path).0 == a + ['%', c] + b && RaisingConversionLetter(c)
    requires forall k :: 0 <= k < |a| ==> a[k] != '%'
    ensures NameAsWritten(path, i, width) == None
    ensures NumberedName(path, i, width) == a + ['%', c] + b + ZeroPad(i, width) + Extension(path)
  {
    LonePercentInFormat(a, c, b, Extension(path), i, width);
  }

  lemma LonePercentInFormat(a: string, c: char, b: string, ext: string, i: nat, width: nat)
    requires RaisingConversionLetter(c)
    requires forall k :: 0 <= k < |a| ==> a[k] != '%'
    ensures Interpolate(a + ['%', c] + b + Conversion(width) + ext, Conversion(width), width, Some(i)) == None
  {
    var conv := Conversion(width);
    var tail := ['%', c] + b + conv + ext;
    assert a + ['%', c] + b + conv + ext == a + tail;
    assert tail[1] == c != conv[1];
    InterpolatePlain(a, tail, conv, width, Some(i));
  }
}
