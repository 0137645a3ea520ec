/**
 * Decimal rendering of non-negative integers, as Python's `str(n)` and the
 * `%0<w>d` conversion produce it, and the character-by-character ordering of
 * strings that Python's `<` on `str` uses.
 */
module Decimal {

  /** The ASCII digit for `d`. */
  function Digit(d: nat): (c: char)
    requires d < 10
    ensures '0' <= c <= '9'
  {
    (d + '0' as int) as char
  }

  function Pow10(k: nat): (r: nat)
    ensures r >= 1
  {
    if k == 0 then 1 else 10 * Pow10(k - 1)
  }

  /** The number of decimal digits of `n` (at least one, for zero). */
  function DecimalLength(n: nat): (k: nat)
    ensures k >= 1
  {
    if n < 10 then 1 else 1 + DecimalLength(n / 10)
  }

  /** `DecimalLength(n)` is the least width `w` with `n < 10^w`. */
  lemma {:induction false} DecimalLengthIsLeastWidth(n: nat)
    ensures n < Pow10(DecimalLength(n))
    ensures n >= 1 ==> Pow10(DecimalLength(n) - 1) <= n
  {
    if n >= 10 {
      DecimalLengthIsLeastWidth(n / 10);
    }
  }

  lemma {:induction false} DecimalLengthMonotone(a: nat, b: nat)
    requires a <= b
    ensures DecimalLength(a) <= DecimalLength(b)
  {
    if a >= 10 {
      DecimalLengthMonotone(a / 10, b / 10);
    }
  }

  lemma {:induction false} Pow10Monotone(i: nat, j: nat)
    requires i <= j
    ensures Pow10(i) <= Pow10(j)
  {
    if i < j {
      Pow10Monotone(i, j - 1);
    }
  }

  /** Python's `str(n)` for a non-negative integer. */
  function NatToString(n: nat): (s: string)
    ensures |s| == DecimalLength(n)
    ensures forall i :: 0 <= i < |s| ==> '0' <= s[i] <= '9'
  {
    if n < 10 then [Digit(n)] else NatToString(n / 10) + [Digit(n % 10)]
  }

  /** Distinct numbers have distinct decimal renderings. */
  lemma {:induction false} NatToStringInjective(a: nat, b: nat)
    requires NatToString(a) == NatToString(b)
    ensures a == b
  {
    var s := NatToString(a);
    if a >= 10 && b >= 10 {
      assert NatToString(a / 10) == s[..|s| - 1] == NatToString(b / 10);
      NatToStringInjective(a / 10, b / 10);
      assert Digit(a % 10) == s[|s| - 1] == Digit(b % 10);
    } else if a < 10 && b < 10 {
      assert Digit(a) == s[0] == Digit(b);
    }
  }

  function Zeros(k: nat): (s: string)
    ensures |s| == k && forall i :: 0 <= i < k ==> s[i] == '0'
  {
    if k == 0 then [] else Zeros(k - 1) + ['0']
  }

  /**
   * Python's `'%0<width>d' % n`: `str(n)` left-padded with zeros to `width`
   * characters, and never truncated.
   */
  function ZeroPad(n: nat, width: nat): (s: string)
  {
    var digits := NatToString(n);
    Zeros(if width > |digits| then width - |digits| else 0) + digits
  }

  /** A padded number ends in a digit, so never in a separator or a dot. */
  lemma ZeroPadEndsInDigit(n: nat, width: nat)
    ensures |ZeroPad(n, width)| > 0 && '0' <= ZeroPad(n, width)[|ZeroPad(n, width)| - 1] <= '9'
  {
    var digits := NatToString(n);
    var z := Zeros(if width > |digits| then width - |digits| else 0);
    assert ZeroPad(n, width)[|ZeroPad(n, width)| - 1] == digits[|digits| - 1];
  }

  /** The last `w` decimal digits of `n`, zero-filled: the reference for ZeroPad. */
  function FixedDigits(n: nat, w: nat): (s: string)
    ensures |s| == w
  {
    if w == 0 then [] else FixedDigits(n / 10, w - 1) + [Digit(n % 10)]
  }

  lemma {:induction false} FixedDigitsOfZero(w: nat)
    ensures FixedDigits(0, w) == Zeros(w)
  {
    if w > 0 {
      FixedDigitsOfZero(w - 1);
    }
  }

  /** When `n` fits in `w` digits, zero padding yields exactly the last `w` digits of `n`. */
  lemma {:induction false} ZeroPadIsFixedDigits(n: nat, w: nat)
    requires DecimalLength(n) <= w
    ensures ZeroPad(n, w) == FixedDigits(n, w)
  {
    if n < 10 {
      FixedDigitsOfZero(w - 1);
      assert n / 10 == 0 && n % 10 == n;
    } else {
      ZeroPadIsFixedDigits(n / 10, w - 1);
      var head := NatToString(n / 10);
      calc {
        ZeroPad(n, w);
        Zeros(w - |head| - 1) + (head + [Digit(n % 10)]);
        (Zeros((w - 1) - |head|) + head) + [Digit(n % 10)];
        ZeroPad(n / 10, w - 1) + [Digit(n % 10)];
      }
    }
  }

  /**
   * Python's `a < b` on strings: the first differing character decides, and a
   * proper prefix is smaller.
   */
  predicate LexLess(a: string, b: string)
  {
    if a == [] then b != []
    else if b == [] then false
    else a[0] < b[0] || (a[0] == b[0] && LexLess(a[1..], b[1..]))
  }

  lemma {:induction false} LexLessIrreflexive(a: string)
    ensures !LexLess(a, a)
  {
    if a != [] {
      LexLessIrreflexive(a[1..]);
    }
  }

  /** A shared prefix does not change the order. */
  lemma {:induction false} LexLessPrefix(p: string, a: string, b: string)
    requires LexLess(a, b)
    ensures LexLess(p + a, p + b)
  {
    if p == [] {
      assert p + a == a && p + b == b;
    } else {
      LexLessPrefix(p[1..], a, b);
      assert (p + a)[0] == p[0] == (p + b)[0];
      assert (p + a)[1..] == p[1..] + a;
      assert (p + b)[1..] == p[1..] + b;
    }
  }

  /** Between strings of equal length, anything appended does not change the order. */
  lemma {:induction false} LexLessExtend(a: string, b: string, x: string, y: string)
    requires |a| == |b| && LexLess(a, b)
    ensures LexLess(a + x, b + y)
  {
    if a[0] == b[0] {
      LexLessExtend(a[1..], b[1..], x, y);
      assert (a + x)[1..] == a[1..] + x;
      assert (b + y)[1..] == b[1..] + y;
    }
  }

  /** Strings that agree up to their last character are ordered by that character. */
  lemma {:induction false} LexLessLast(a: string, c: char, d: char)
    requires c < d
    ensures LexLess(a + [c], a + [d])
  {
    if a == [] {
      assert ([] + [c])[0] == c && ([] + [d])[0] == d;
    } else {
      LexLessLast(a[1..], c, d);
      assert (a + [c])[1..] == a[1..] + [c];
      assert (a + [d])[1..] == a[1..] + [d];
    }
  }

  /** One more digit on the right: `str(n)` is `str(n // 10)` followed by the last digit. */
  lemma NatToStringStep(n: nat)
    requires n >= 10
    ensures NatToString(n) == NatToString(n / 10) + [Digit(n % 10)]
  {
  }

  lemma NatToStringOfThousand()
    ensures NatToString(1000) == "1000"
  {
    NatToStringStep(1000);
    NatToStringStep(100);
    NatToStringStep(10);
  }

  lemma NatToStringOfNineHundredNinetyNine()
    ensures NatToString(999) == "999"
  {
    NatToStringStep(999);
    NatToStringStep(99);
  }

  lemma ZeroPadOfThousandAndNineHundredNinetyNine()
    ensures ZeroPad(1000, 3) == "1000" && ZeroPad(999, 3) == "999"
  {
    NatToStringOfThousand();
    NatToStringOfNineHundredNinetyNine();
    assert Zeros(0) == [];
  }

  /**
   * Page 1000 padded to three digits sorts before page 999, whatever
   * surrounds the number, and is one character longer.
   */
  lemma ThousandBeforeNineHundredNinetyNine(stem: string, ext: string)
    ensures LexLess(stem + ZeroPad(1000, 3) + ext, stem + ZeroPad(999, 3) + ext)
    ensures |stem + ZeroPad(1000, 3) + ext| == |stem + ZeroPad(999, 3) + ext| + 1
  {
    ZeroPadOfThousandAndNineHundredNinetyNine();
    var a, b := "1000", "999";
    assert (a + ext)[0] == '1' && (b + ext)[0] == '9';
    LexLessPrefix(stem, a + ext, b + ext);
    assert stem + a + ext == stem + (a + ext);
    assert stem + b + ext == stem + (b + ext);
  }

  lemma NatToStringOfTen()
    ensures NatToString(10) == "10"
  {
    NatToStringStep(10);
  }

  /** Unpadded, 10 sorts before 2, whatever surrounds the number. */
  lemma TenBeforeTwo(stem: string, ext: string)
    ensures LexLess(stem + NatToString(10) + ext, stem + NatToString(2) + ext)
  {
    NatToStringOfTen();
    assert NatToString(2) == "2";
    var a, b := "10", "2";
    assert (a + ext)[0] == '1' && (b + ext)[0] == '2';
    LexLessPrefix(stem, a + ext, b + ext);
    assert stem + a + ext == stem + (a + ext);
    assert stem + b + ext == stem + (b + ext);
  }

  /** Fixed-width digit strings sort in numeric order. */
  lemma {:induction false} FixedDigitsOrdered(i: nat, j: nat, w: nat)
    requires i < j < Pow10(w)
    ensures LexLess(FixedDigits(i, w), FixedDigits(j, w))
  {
    if w > 0 {
      if i / 10 < j / 10 {
        FixedDigitsOrdered(i / 10, j / 10, w - 1);
        LexLessExtend(FixedDigits(i / 10, w - 1), FixedDigits(j / 10, w - 1), [Digit(i % 10)], [Digit(j % 10)]);
      } else {
        assert i / 10 == j / 10 && i % 10 < j % 10;
        LexLessLast(FixedDigits(i / 10, w - 1), Digit(i % 10), Digit(j % 10));
      }
    }
  }

  /**
   * Zero-padding two numbers to a width that holds the larger one yields
   * strings of that width which sort in numeric order.
   */
  lemma ZeroPadOrdered(i: nat, j: nat, w: nat)
    requires i < j && DecimalLength(j) <= w
    ensures |ZeroPad(i, w)| == w && |ZeroPad(j, w)| == w
    ensures LexLess(ZeroPad(i, w), ZeroPad(j, w))
  {
    DecimalLengthMonotone(i, j);
    ZeroPadIsFixedDigits(i, w);
    ZeroPadIsFixedDigits(j, w);
    DecimalLengthIsLeastWidth(j);
    Pow10Monotone(DecimalLength(j), w);
    FixedDigitsOrdered(i, j, w);
  }
}
