/**
 Reading the text of `convert` back. The printed form of a number is a
 sign, the integer digits, and optionally a '.', the fractional digits and
 the "..." marker. This module parses that form and proves that the parse
 of `convert(x, base)` recovers the sign, the integer part of |x| exactly,
 and the fractional part of |x| truncated to the printed number of places,
 exactly when no marker was printed.
 */
module ReadBack {
  import opened Positional
  import opened Wrappers
  import opened BaseConvert

  /** What a printed number says: its sign, its integer digits, its fractional
      digits (none when there is no '.') and whether it ends in "...". */
  datatype Reading = Reading(negative: bool, whole: seq<nat>, fraction: seq<nat>, truncated: bool)

  /** The position of the first `ch` in `s`, or |s| when there is none. */
  function FirstIndex(s: string, ch: char): (i: nat)
    ensures i <= |s|
    ensures i < |s| ==> s[i] == ch
    ensures ch !in s[..i]
  {
    if |s| == 0 then 0
    else if s[0] == ch then 0
    else
      var i := 1 + FirstIndex(s[1..], ch);
      assert s[..i] == [s[0]] + s[1..][..i - 1];
      i
  }

  /** Reads an unsigned number: the integer digits, then, after the first '.',
      the fractional digits with an optional trailing "...". */
  function ReadUnsigned(s: string): Option<Reading>
  {
    var i := FirstIndex(s, '.');
    if i == |s| then
      match ReadDigits(s)
      case None => None
      case Some(w) => Some(Reading(false, w, [], false))
    else
      match (ReadDigits(s[..i]), ReadFraction(s[i + 1..]))
      case (Some(w), Some(fr)) => Some(Reading(false, w, fr.0, fr.1))
      case _ => None
  }

  /** Reads the text after the '.': the fractional digits, and whether the
      text ends in the "..." marker. */
  function ReadFraction(frac: string): Option<(seq<nat>, bool)>
  {
    var truncated := EndsWithEllipsis(frac);
    var body := if truncated then frac[..|frac| - 3] else frac;
    match ReadDigits(body)
    case None => None
    case Some(f) => Some((f, truncated))
  }

  /** Reads a number with an optional leading '-'. */
  function ReadNumber(s: string): Option<Reading>
  {
    var negative := |s| > 0 && s[0] == '-';
    match ReadUnsigned(if negative then s[1..] else s)
    case None => None
    case Some(r) => Some(r.(negative := negative))
  }

  /** The first '.' after a '.'-free prefix is the one that follows it. */
  lemma {:induction false} FirstIndexAfter(a: string, ch: char, t: string)
    requires ch !in a
    ensures FirstIndex(a + [ch] + t, ch) == |a|
  {
    if |a| > 0 {
      assert (a + [ch] + t)[1..] == a[1..] + [ch] + t;
      FirstIndexAfter(a[1..], ch, t);
    }
  }

  /** The reading the text of a non-negative ratio should give. */
  function Expected(num: nat, den: nat, b: nat): (r: Reading)
    requires den >= 1 && b >= 2
    ensures !r.negative
  {
    DivModRatio(num, den);
    if num % den == 0 then Reading(false, CanonicalDigits(num / den, b), [], false)
    else
      var e := Expand(num % den, den, b, MAX_DIGITS);
      Reading(false, CanonicalDigits(num / den, b), e.digits, e.rest != 0)
  }

  lemma {:induction false} IntegerTextReads(n: nat, b: nat)
    requires b >= 2
    ensures ReadDigits(IntegerToBase(n, b)) == Some(CanonicalDigits(n, b))
  {
    IntegerToBaseText(n, b);
    ReadDigitsText(CanonicalDigits(n, b));
  }

  /** The text of a non-negative ratio reads back as its expected reading. */
  lemma {:induction false} UnsignedReadsBack(num: nat, den: nat, b: nat)
    requires den >= 1 && b >= 2
    ensures ReadUnsigned(DecimalToBase(num, den, b)) == Some(Expected(num, den, b))
  {
    DivModRatio(num, den);
    DecimalToBaseParts(num, den, b);
    IntegerTextReads(num / den, b);
    if num % den == 0 {
      assert FirstIndex(IntegerToBase(num / den, b), '.') == |IntegerToBase(num / den, b)|;
    } else {
      WithFractionReadsBack(IntegerToBase(num / den, b), CanonicalDigits(num / den, b), num % den, den, b);
    }
  }

  lemma {:induction false} WithFractionReadsBack(intStr: string, w: seq<nat>, f: nat, den: nat, b: nat)
    requires f < den && b >= 2
    requires '.' !in intStr && ReadDigits(intStr) == Some(w)
    ensures var e := Expand(f, den, b, MAX_DIGITS);
      ReadUnsigned(intStr + "." + FractionToBase(f, den, b)) == Some(Reading(false, w, e.digits, e.rest != 0))
  {
    var fracStr := FractionToBase(f, den, b);
    var s := intStr + "." + fracStr;
    FirstIndexAfter(intStr, '.', fracStr);
    assert s[..|intStr|] == intStr;
    assert s[|intStr| + 1..] == fracStr;
    FractionTextReads(f, den, b);
  }

  /** The text of `fraction_to_base` reads back as the loop's digits and
      whether it left a nonzero remainder. */
  lemma {:induction false} FractionTextReads(f: nat, den: nat, b: nat)
    requires f < den && b >= 2
    ensures var e := Expand(f, den, b, MAX_DIGITS);
      ReadFraction(FractionToBase(f, den, b)) == Some((e.digits, e.rest != 0))
  {
    FractionToBaseMarker(f, den, b);
    ReadDigitsText(Expand(f, den, b, MAX_DIGITS).digits);
  }

  /** Reading the text of `convert(num / den, base)` recovers the sign and the
      expected reading of |num| / den. */
  lemma {:induction false} ConvertReadsBack(num: int, den: nat, b: nat)
    requires den >= 1 && b >= 2
    ensures ReadNumber(Convert(num, den, b)) == Some(Expected(Abs(num), den, b).(negative := num < 0))
  {
    UnsignedReadsBack(Abs(num), den, b);
    if num < 0 {
      NegativeText(num, den, b);
    }
  }

  /** `w` are legal radix-b digits of the whole number n, with no leading zero
      other than the lone digit of 0. */
  predicate DescribesWhole(w: seq<nat>, n: nat, b: nat) {
    && |w| >= 1 && IsDigits(w, b) && Eval(w, b) == n
    && (w[0] == 0 <==> n == 0)
    && (n == 0 ==> |w| == 1)
  }

  /** The fractional digits `fr` of f / den in radix b, and the marker flag:
      k = |fr| places, none at all exactly for f == 0, at most MAX_DIGITS;
      the digits are floor(f / den * b^k); the marker is set exactly when
      that truncation loses something, which is exactly when
      f / den * b^MAX_DIGITS is not whole. A truncated expansion has all
      MAX_DIGITS places; a complete one has no more places than needed:
      f / den * b^j is not whole for any shorter j >= 1. */
  predicate DescribesFraction(fr: seq<nat>, truncated: bool, f: nat, den: nat, b: nat)
    requires den >= 1
  {
    var k := |fr|;
    var F := Eval(fr, b);
    && IsDigits(fr, b) && k <= MAX_DIGITS
    && (k == 0 <==> f == 0)
    && F * den <= f * Pow(b, k) < (F + 1) * den
    && (truncated <==> f * Pow(b, k) != F * den)
    && (truncated <==> f * Pow(b, MAX_DIGITS) % den != 0)
    && (truncated ==> k == MAX_DIGITS)
    && (!truncated ==> forall j :: 1 <= j < k ==> Scaled(f, b, j) % den != 0)
  }

  /** f * b^j: the numerator of f / den shifted j places. */
  function Scaled(f: nat, b: nat, j: nat): nat
  {
    f * Pow(b, j)
  }

  /** The expected reading of a / den describes its integer part and its
      fractional part. */
  lemma {:induction false} ExpectedMeaning(a: nat, den: nat, b: nat)
    requires den >= 1 && b >= 2
    ensures var r := Expected(a, den, b);
      && DescribesWhole(r.whole, a / den, b)
      && DescribesFraction(r.fraction, r.truncated, a % den, den, b)
  {
    DivModRatio(a, den);
    WholeMeaning(a / den, b);
    if a % den != 0 {
      FractionMeaning(a % den, den, b);
    } else {
      ZeroFractionMeaning(den, b);
    }
  }

  /** The canonical digits describe their number. */
  lemma {:induction false} WholeMeaning(n: nat, b: nat)
    requires b >= 2
    ensures DescribesWhole(CanonicalDigits(n, b), n, b)
  {}

  /** A zero fraction is described by no digits and no marker. */
  lemma {:induction false} ZeroFractionMeaning(den: nat, b: nat)
    requires den >= 1 && b >= 2
    ensures DescribesFraction([], false, 0, den, b)
  {
    ZeroTimes(Pow(b, 0), den);
    ZeroTimes(Pow(b, MAX_DIGITS), den);
  }

  /** The expansion of a nonzero fraction describes it. */
  lemma {:induction false} FractionMeaning(f: nat, den: nat, b: nat)
    requires 0 < f < den && b >= 2
    ensures var e := Expand(f, den, b, MAX_DIGITS);
      DescribesFraction(e.digits, e.rest != 0, f, den, b)
  {
    var e := Expand(f, den, b, MAX_DIGITS);
    FractionDigitsApproximate(f, den, b);
    FractionToBaseSpec(f, den, b);
    FractionToBaseMarker(f, den, b);
    if e.rest == 0 {
      forall j | 1 <= j < |e.digits|
        ensures Scaled(f, b, j) % den != 0
      {
        StreamIsFloor(f, den, b, j);
      }
    }
  }

  lemma {:induction false} ZeroTimes(p: nat, den: nat)
    requires den >= 1
    ensures 0 * p == 0 && 0 * den <= 0 < (0 + 1) * den && (0 * p) % den == 0
  {}

  /** The meaning of `convert(num / den, base)` read back: the sign of num, and
      the integer part and truncated fraction of |num| / den. */
  lemma {:induction false} ConvertMeaning(num: int, den: nat, b: nat)
    requires den >= 1 && b >= 2
    ensures ReadNumber(Convert(num, den, b)).Some?
    ensures Describes(ReadNumber(Convert(num, den, b)).value, num, den, b)
  {
    ConvertReadsBack(num, den, b);
    ExpectedMeaning(Abs(num), den, b);
    assert WholePart(num, den) == Abs(num) / den;
    assert FractionPart(num, den) == Abs(num) % den;
  }

  // ---------------------------------------------------------------
  // The description fixes the reading
  // ---------------------------------------------------------------

  /** At most one digit sequence describes a whole number: the canonical one. */
  lemma {:induction false} DescribesWholeUnique(w1: seq<nat>, w2: seq<nat>, n: nat, b: nat)
    requires b >= 2
    requires DescribesWhole(w1, n, b) && DescribesWhole(w2, n, b)
    ensures w1 == w2
  {
    CanonicalDigitsUnique(w1, b);
    CanonicalDigitsUnique(w2, b);
  }

  lemma {:induction false} ModOfMultiple(F: nat, den: nat)
    requires den >= 1
    ensures (F * den) % den == 0
  {
    DivModOfDigit(F, 0, den);
  }

  /** floor(X / den) is the only F with F * den <= X < (F + 1) * den. */
  lemma {:induction false} FloorUnique(F1: nat, F2: nat, X: nat, den: nat)
    requires den >= 1
    requires F1 * den <= X < (F1 + 1) * den
    requires F2 * den <= X < (F2 + 1) * den
    ensures F1 == F2
  {
    if F1 < F2 {
      MulLe(F1 + 1, F2, den);
    } else if F2 < F1 {
      MulLe(F2 + 1, F1, den);
    }
  }

  /** At most one digit sequence and marker flag describe a fraction: the
      number of places, the digits and the flag are all determined. */
  lemma {:induction false} DescribesFractionUnique(fr1: seq<nat>, t1: bool, fr2: seq<nat>, t2: bool, f: nat, den: nat, b: nat)
    requires den >= 1 && b >= 2
    requires DescribesFraction(fr1, t1, f, den, b)
    requires DescribesFraction(fr2, t2, f, den, b)
    ensures fr1 == fr2 && t1 == t2
  {
    var k1 := |fr1|;
    var k2 := |fr2|;
    if f != 0 && !t1 {
      ModOfMultiple(Eval(fr1, b), den);
      ModOfMultiple(Eval(fr2, b), den);
      assert Scaled(f, b, k1) % den == 0;
      assert Scaled(f, b, k2) % den == 0;
      assert k1 >= k2;
      assert k2 >= k1;
    }
    FloorUnique(Eval(fr1, b), Eval(fr2, b), f * Pow(b, k1), den);
    EvalInjective(fr1, fr2, b);
  }

  /** `r` says what num / den is: its sign, its integer part and its truncated
      fractional part. */
  predicate Describes(r: Reading, num: int, den: nat, b: nat)
    requires den >= 1
  {
    && (r.negative <==> num < 0)
    && DescribesWhole(r.whole, WholePart(num, den), b)
    && DescribesFraction(r.fraction, r.truncated, FractionPart(num, den), den, b)
  }

  /** The integer part of |num| / den. */
  function WholePart(num: int, den: nat): (n: nat)
    requires den >= 1
    ensures n * den <= Abs(num)
  {
    DivModRatio(Abs(num), den);
    Abs(num) / den
  }

  /** The numerator of the fractional part of |num| / den. */
  function FractionPart(num: int, den: nat): (f: nat)
    requires den >= 1
    ensures f < den
  {
    Abs(num) % den
  }

  /** The converse of ConvertMeaning: a reading that describes num / den (its
      sign, its integer part and its truncated fraction) is the reading of
      `convert(num / den, base)`, and `convert` prints exactly its rendering,
      so the printed text is fixed by its meaning. */
  lemma {:induction false} DescriptionIsConvert(num: int, den: nat, b: nat, r: Reading)
    requires den >= 1 && b >= 2
    requires Describes(r, num, den, b)
    ensures ReadNumber(Convert(num, den, b)) == Some(r)
    ensures Convert(num, den, b) == Render(r)
  {
    ConvertMeaning(num, den, b);
    var c := ReadNumber(Convert(num, den, b)).value;
    DescribesWholeUnique(r.whole, c.whole, Abs(num) / den, b);
    DescribesFractionUnique(r.fraction, r.truncated, c.fraction, c.truncated, Abs(num) % den, den, b);
    ConvertRenders(num, den, b);
  }

  /** Two numbers with the same description print the same text. */
  lemma {:induction false} SameDescriptionSameText(n1: int, n2: int, den: nat, b: nat, r: Reading)
    requires den >= 1 && b >= 2
    requires Describes(r, n1, den, b) && Describes(r, n2, den, b)
    ensures Convert(n1, den, b) == Convert(n2, den, b)
  {
    DescriptionIsConvert(n1, den, b, r);
    DescriptionIsConvert(n2, den, b, r);
  }

  // ---------------------------------------------------------------
  // Printing a reading
  // ---------------------------------------------------------------

  /** The text a reading stands for: an optional '-', the integer digits,
      and, when there are fractional digits, a '.', those digits and the
      marker if the reading is cut off. */
  function Render(r: Reading): string
  {
    (if r.negative then "-" else "") + DigitsText(r.whole)
      + (if |r.fraction| == 0 then "" else "." + DigitsText(r.fraction) + (if r.truncated then "..." else ""))
  }

  /** A non-negative reading with fractional digits renders as its integer
      text, a '.', and its fraction text with the marker. */
  lemma {:induction false} RenderFraction(w: seq<nat>, fr: seq<nat>, truncated: bool)
    requires |fr| > 0
    ensures Render(Reading(false, w, fr, truncated))
      == DigitsText(w) + "." + (DigitsText(fr) + (if truncated then "..." else ""))
  {
    Regroup(DigitsText(w), DigitsText(fr), if truncated then "..." else "");
  }

  lemma {:induction false} Regroup(i: string, f: string, m: string)
    ensures "" + i + ("." + f + m) == i + "." + (f + m)
  {
    assert "" + i == i;
    assert "." + f + m == "." + (f + m);
  }

  /** A negative reading renders as '-' before its magnitude's rendering. */
  lemma {:induction false} RenderNegative(r: Reading)
    ensures Render(r.(negative := true)) == "-" + Render(r.(negative := false))
  {
    var tail := if |r.fraction| == 0 then "" else "." + DigitsText(r.fraction) + (if r.truncated then "..." else "");
    Prefix(DigitsText(r.whole), tail);
  }

  lemma {:induction false} Prefix(i: string, tail: string)
    ensures "-" + i + tail == "-" + ("" + i + tail)
  {
    assert "" + i == i;
  }

  /** A number with a nonzero fractional part prints as the rendering of its
      integer digits and the fraction loop's digits and marker. */
  lemma {:induction false} RenderWithFraction(n: nat, f: nat, den: nat, b: nat)
    requires 0 < f < den && b >= 2
    ensures var e := Expand(f, den, b, MAX_DIGITS);
      IntegerToBase(n, b) + "." + FractionToBase(f, den, b)
        == Render(Reading(false, CanonicalDigits(n, b), e.digits, e.rest != 0))
  {
    var e := Expand(f, den, b, MAX_DIGITS);
    IntegerToBaseText(n, b);
    RenderFraction(CanonicalDigits(n, b), e.digits, e.rest != 0);
  }

  /** The non-negative branch prints exactly the rendering of its expected
      reading. */
  lemma {:induction false} UnsignedRenders(a: nat, den: nat, b: nat)
    requires den >= 1 && b >= 2
    ensures UnsignedToBase(a, den, b) == Render(Expected(a, den, b))
  {
    DecimalToBaseParts(a, den, b);
    DivModRatio(a, den);
    if a % den == 0 {
      IntegerToBaseText(a / den, b);
    } else {
      RenderWithFraction(a / den, a % den, den, b);
    }
  }

  /** `convert` prints exactly the rendering of the reading parsed from it. */
  lemma {:induction false} ConvertRenders(num: int, den: nat, b: nat)
    requires den >= 1 && b >= 2
    ensures ReadNumber(Convert(num, den, b)).Some?
    ensures Convert(num, den, b) == Render(ReadNumber(Convert(num, den, b)).value)
  {
    ConvertReadsBack(num, den, b);
    UnsignedRenders(Abs(num), den, b);
    if num < 0 {
      NegativeText(num, den, b);
      RenderNegative(Expected(Abs(num), den, b));
      var t := UnsignedToBase(Abs(num), den, b);
      assert Convert(num, den, b) == "-" + t;
    }
  }
}
