/**
 The arbitrary-radix converter of Machine_Assignment_2/convert.py.

 A number is split into its integer and fractional parts. The integer part
 is converted by repeated division, the fraction by repeated multiply-and-
 floor with a budget of MAX_DIGITS digits. Every digit value is written as a
 decimal numeral, and the digits of a part are joined with ';'. The float
 the source converts is modelled as the exact ratio num / den of two
 integers, so its arithmetic is exact.
 */
module BaseConvert {
  import opened Positional
  import opened Numerals
  import opened Tokens
  import opened Wrappers

  /** The fractional digit budget. */
  const MAX_DIGITS: nat := 8

  // ---------------------------------------------------------------
  // Digit text: decimal numerals joined by ';'
  // ---------------------------------------------------------------

  /** `[str(d) for d in ds]`. */
  function DigitTokens(ds: seq<nat>): (tokens: seq<string>)
    ensures |tokens| == |ds|
    ensures forall i :: 0 <= i < |ds| ==> tokens[i] == Decimal(ds[i])
  {
    seq(|ds|, i requires 0 <= i < |ds| => Decimal(ds[i]))
  }

  /** `";".join(str(d) for d in ds)`. */
  function DigitsText(ds: seq<nat>): string
  {
    Join(DigitTokens(ds), ';')
  }

  /** Text made only of decimal digits and digit separators. */
  predicate IsDigitsText(s: string) {
    forall ch :: ch in s ==> IsDigitChar(ch) || ch == ';'
  }

  /** The text of a non-empty digit sequence begins and ends with a decimal digit
      and holds nothing but digits and separators; in particular no '.' or '-'. */
  lemma {:induction false} DigitsTextShape(ds: seq<nat>)
    requires |ds| > 0
    ensures var t := DigitsText(ds);
      && |t| > 0 && IsDigitChar(t[0]) && IsDigitChar(t[|t| - 1]) && IsDigitsText(t)
  {
    var tokens := DigitTokens(ds);
    var t := DigitsText(ds);
    assert tokens[0] == Decimal(ds[0]);
    assert tokens[|tokens| - 1] == Decimal(ds[|ds| - 1]);
    forall ch | ch in t
      ensures IsDigitChar(ch) || ch == ';'
    {
      if ch != ';' {
        var k :| 0 <= k < |tokens| && ch in tokens[k];
        assert tokens[k] == Decimal(ds[k]);
      }
    }
  }

  /** Reads ';'-separated decimal numerals back into digit values; fails on
      anything that is not a non-empty numeral between separators. */
  function ReadDigits(s: string): Option<seq<nat>>
  {
    ReadTokens(Split(s, ';'))
  }

  /** The values of a list of numerals, or None if one of them is not a numeral. */
  function ReadTokens(tokens: seq<string>): Option<seq<nat>>
  {
    if |tokens| == 0 then Some([])
    else if !IsNumeral(tokens[0]) then None
    else
      match ReadTokens(tokens[1..])
      case None => None
      case Some(rest) => Some([NumeralValue(tokens[0])] + rest)
  }

  lemma {:induction false} DigitTokensTail(ds: seq<nat>)
    requires |ds| > 0
    ensures DigitTokens(ds)[1..] == DigitTokens(ds[1..])
  {}

  /** Every digit renders as a numeral that reads back as that digit. */
  lemma {:induction false} ReadDigitTokens(ds: seq<nat>)
    ensures ReadTokens(DigitTokens(ds)) == Some(ds)
  {
    if |ds| > 0 {
      DigitTokensTail(ds);
      ReadDigitTokens(ds[1..]);
      NumeralValueOfDecimal(ds[0]);
      assert [ds[0]] + ds[1..] == ds;
    }
  }

  /** The digit text is unambiguous: reading it gives back exactly the digits,
      even in radices whose digits need several characters. */
  lemma {:induction false} ReadDigitsText(ds: seq<nat>)
    requires |ds| > 0
    ensures ReadDigits(DigitsText(ds)) == Some(ds)
  {
    var tokens := DigitTokens(ds);
    forall k | 0 <= k < |tokens|
      ensures ';' !in tokens[k]
    {
      assert IsNumeral(Decimal(ds[k]));
    }
    SplitJoin(tokens, ';');
    ReadDigitTokens(ds);
  }

  // ---------------------------------------------------------------
  // Integer part: integer_to_base
  // ---------------------------------------------------------------

  /** The digits `integer_to_base` collects for `n`, after its reversal: most
      significant first, and none at all for 0 (the source special-cases 0). */
  function IntegerDigits(n: nat, b: nat): (ds: seq<nat>)
    requires b >= 2
    ensures IsDigits(ds, b)
    ensures |ds| == 0 <==> n == 0
    ensures |ds| > 0 ==> ds[0] != 0
    ensures Eval(ds, b) == n
    decreases n
  {
    if n == 0 then []
    else
      DivMod(n, b);
      var high := IntegerDigits(n / b, b);
      EvalAppend(high, n % b, b);
      high + [n % b]
  }

  /** A positive `n` has as many digits as places it needs:
      b^(k-1) <= n < b^k for its k digits. */
  lemma {:induction false} IntegerDigitsPlaces(n: nat, b: nat)
    requires n > 0 && b >= 2
    ensures var ds := IntegerDigits(n, b);
      Pow(b, |ds| - 1) <= n < Pow(b, |ds|)
  {
    var ds := IntegerDigits(n, b);
    EvalBound(ds, b);
    EvalCons(ds[0], ds[1..], b);
    assert [ds[0]] + ds[1..] == ds;
    MulLe(1, ds[0], Pow(b, |ds| - 1));
  }

  /** The digits `integer_to_base(n, b)` prints: those of IntegerDigits, or the
      single digit 0 for 0. */
  function CanonicalDigits(n: nat, b: nat): (ds: seq<nat>)
    requires b >= 2
    ensures |ds| >= 1
    ensures IsDigits(ds, b)
    ensures Eval(ds, b) == n
    ensures ds[0] == 0 <==> n == 0
    ensures n == 0 ==> ds == [0]
  {
    if n == 0 then [0] else IntegerDigits(n, b)
  }

  /** `integer_to_base(n, base)`. */
  function IntegerToBase(n: nat, b: nat): (s: string)
    requires b >= 2
    ensures |s| > 0 && IsDigitChar(s[0]) && IsDigitChar(s[|s| - 1])
    ensures IsDigitsText(s)
    ensures n == 0 <==> s == "0"
  {
    if n == 0 then "0"
    else
      var ds := IntegerDigits(n, b);
      DigitsTextShape(ds);
      assert DigitTokens(ds)[0] == Decimal(ds[0]);
      DigitsText(ds)
  }

  /** `integer_to_base` prints exactly the canonical digits of `n`. */
  lemma {:induction false} IntegerToBaseText(n: nat, b: nat)
    requires b >= 2
    ensures IntegerToBase(n, b) == DigitsText(CanonicalDigits(n, b))
  {
    if n == 0 {
      assert DigitTokens([0]) == ["0"];
    }
  }

  /** Reading the output of `integer_to_base(n, b)` gives legal radix-`b` digits,
      without a leading zero unless `n` is 0, whose value is `n`. */
  lemma {:induction false} IntegerToBaseReadsBack(n: nat, b: nat)
    requires b >= 2
    ensures ReadDigits(IntegerToBase(n, b)).Some?
    ensures var ds := ReadDigits(IntegerToBase(n, b)).value;
      && |ds| >= 1 && IsDigits(ds, b) && Eval(ds, b) == n
      && (ds[0] == 0 <==> n == 0) && (n == 0 ==> ds == [0])
  {
    IntegerToBaseText(n, b);
    ReadDigitsText(CanonicalDigits(n, b));
  }

  lemma {:induction false} EvalPositive(ds: seq<nat>, b: nat)
    requires b >= 1 && |ds| > 0 && ds[0] != 0
    ensures Eval(ds, b) > 0
  {
    EvalCons(ds[0], ds[1..], b);
    assert [ds[0]] + ds[1..] == ds;
    MulLe(1, ds[0], Pow(b, |ds| - 1));
  }

  /** The canonical digits are the only legal radix-`b` digit sequence without a
      leading zero (other than a lone 0) that denotes a given number. */
  lemma {:induction false} CanonicalDigitsUnique(ds: seq<nat>, b: nat)
    requires b >= 2 && |ds| >= 1 && IsDigits(ds, b)
    requires ds[0] != 0 || |ds| == 1
    ensures ds == CanonicalDigits(Eval(ds, b), b)
  {
    var init := ds[..|ds| - 1];
    var last := ds[|ds| - 1];
    var n := Eval(ds, b);
    assert n == Eval(init, b) * b + last;
    DivModOfDigit(Eval(init, b), last, b);
    if |ds| == 1 {
      assert init == [];
      if last != 0 {
        assert IntegerDigits(0, b) == [];
      }
    } else {
      assert init[0] == ds[0];
      EvalPositive(init, b);
      CanonicalDigitsUnique(init, b);
      assert ds == init + [last];
    }
  }

  /** The loop of `integer_to_base` as written: take `n % base` until `n` is 0,
      collecting the numerals least significant first, then reverse and join. */
  method IntegerToBaseLoop(n: nat, b: nat) returns (s: string)
    requires b >= 2
    ensures s == IntegerToBase(n, b)
  {
    if n == 0 {
      assert IntegerToBase(0, b) == "0";
      return "0";
    }
    var collected: seq<string> := [];
    var m: nat := n;
    ghost var low: seq<nat> := [];
    while m > 0
      invariant IntegerDigits(n, b) == IntegerDigits(m, b) + low
      invariant Reversed(collected) == DigitTokens(low)
      decreases m
    {
      var r := m % b;
      LoopStep(n, b, m, collected, low);
      collected := collected + [Decimal(r)];
      low := [r] + low;
      m := m / b;
    }
    assert IntegerDigits(m, b) == [];
    s := Join(Reversed(collected), ';');
    LoopResult(n, b, collected);
  }

  /** One pass of the loop keeps both invariants and shrinks `m`. */
  lemma {:induction false} LoopStep(n: nat, b: nat, m: nat, collected: seq<string>, low: seq<nat>)
    requires m > 0 && b >= 2
    requires IntegerDigits(n, b) == IntegerDigits(m, b) + low
    requires Reversed(collected) == DigitTokens(low)
    ensures m / b < m
    ensures IntegerDigits(n, b) == IntegerDigits(m / b, b) + ([m % b] + low)
    ensures Reversed(collected + [Decimal(m % b)]) == DigitTokens([m % b] + low)
  {
    DivMod(m, b);
    IntegerDigitsStep(m, b);
    SeqAssoc(IntegerDigits(m / b, b), [m % b], low);
    CollectStep(collected, low, m % b);
  }

  lemma {:induction false} SeqAssoc<T>(a: seq<T>, b: seq<T>, c: seq<T>)
    ensures (a + b) + c == a + (b + c)
  {}

  lemma {:induction false} LoopResult(n: nat, b: nat, collected: seq<string>)
    requires n > 0 && b >= 2
    requires Reversed(collected) == DigitTokens(IntegerDigits(n, b))
    ensures Join(Reversed(collected), ';') == IntegerToBase(n, b)
  {
    IntegerToBaseText(n, b);
    assert CanonicalDigits(n, b) == IntegerDigits(n, b);
  }

  lemma {:induction false} IntegerDigitsStep(m: nat, b: nat)
    requires m > 0 && b >= 2
    ensures IntegerDigits(m, b) == IntegerDigits(m / b, b) + [m % b]
  {}

  lemma {:induction false} CollectStep(collected: seq<string>, low: seq<nat>, r: nat)
    requires Reversed(collected) == DigitTokens(low)
    ensures Reversed(collected + [Decimal(r)]) == DigitTokens([r] + low)
  {
    ReversedAppend(collected, Decimal(r));
    DigitTokensCons(r, low);
  }

  lemma {:induction false} DigitTokensCons(d: nat, ds: seq<nat>)
    ensures DigitTokens([d] + ds) == [Decimal(d)] + DigitTokens(ds)
  {}

  /** `list.reverse()`. */
  function Reversed<T>(xs: seq<T>): (r: seq<T>)
    ensures |r| == |xs|
    ensures forall i :: 0 <= i < |xs| ==> r[i] == xs[|xs| - 1 - i]
  {
    if |xs| == 0 then [] else [xs[|xs| - 1]] + Reversed(xs[..|xs| - 1])
  }

  lemma {:induction false} ReversedAppend<T>(xs: seq<T>, x: T)
    ensures Reversed(xs + [x]) == [x] + Reversed(xs)
  {
    assert (xs + [x])[..|xs|] == xs;
  }

  // ---------------------------------------------------------------
  // Fractional part: fraction_to_base
  //
  // The fraction is the exact ratio p / q with 0 <= p < q, so the variable
  // `c` of the source is c = r / q for the remainder r kept here. One pass
  // `c = c * base; digit = int(c); c = c - digit` becomes
  // d = (r * b) / q, r' = (r * b) % q.
  // ---------------------------------------------------------------

  /** The digits a fraction expansion produced and the remainder numerator left after them. */
  datatype Expansion = Expansion(digits: seq<nat>, rest: nat)

  /** One pass of the loop body: the scaled remainder `r * b` splits into a
      radix-`b` digit and a new remainder below `q`. */
  function Step(r: nat, q: nat, b: nat): (s: (nat, nat))
    requires r < q && b >= 1
    ensures s.0 < b && s.1 < q
    ensures r * b == s.0 * q + s.1
  {
    StepDigitBound(r, q, b);
    ((r * b) / q, (r * b) % q)
  }

  lemma {:induction false} StepDigitBound(r: nat, q: nat, b: nat)
    requires r < q && b >= 1
    ensures (r * b) / q < b
  {
    var n := r * b;
    assert n == (n / q) * q + n % q;
    MulLe(r + 1, q, b);
    if n / q >= b {
      MulLe(b, n / q, q);
      MulComm(b, q);
    }
  }

  /** The state of the `for` loop of `fraction_to_base` after `k` passes from
      c = p / q: every pass appends one digit, and after a pass that leaves a
      zero remainder the loop has stopped, so later passes change nothing. */
  function Expand(p: nat, q: nat, b: nat, k: nat): (e: Expansion)
    requires p < q && b >= 2
    ensures e.rest < q
    ensures IsDigits(e.digits, b)
    ensures |e.digits| <= k
    ensures k > 0 ==> |e.digits| >= 1
    ensures e.rest != 0 ==> |e.digits| == k
    decreases k
  {
    if k == 0 then Expansion([], p)
    else
      var e := Expand(p, q, b, k - 1);
      if k > 1 && e.rest == 0 then e
      else
        var s := Step(e.rest, q, b);
        Expansion(e.digits + [s.0], s.1)
  }

  // The unbounded loop: the reference the bounded one is compared with.

  /** The remainder numerator after `j` passes with no stopping rule. */
  function Remainder(p: nat, q: nat, b: nat, j: nat): (r: nat)
    requires p < q && b >= 1
    ensures r < q
    decreases j
  {
    if j == 0 then p else Step(Remainder(p, q, b, j - 1), q, b).1
  }

  /** The first `j` digits of the unbounded loop. */
  function StreamDigits(p: nat, q: nat, b: nat, j: nat): (ds: seq<nat>)
    requires p < q && b >= 1
    ensures |ds| == j
    decreases j
  {
    if j == 0 then [] else StreamDigits(p, q, b, j - 1) + [Step(Remainder(p, q, b, j - 1), q, b).0]
  }

  /** The exact-value invariant of the digit loop: after `j` passes,
      p / q == (d1 ... dj in radix b) / b^j + (r / q) / b^j, i.e.
      p * b^j == Eval(d1 ... dj) * q + r with 0 <= r < q. */
  lemma {:induction false} StreamValue(p: nat, q: nat, b: nat, j: nat)
    requires p < q && b >= 1
    ensures p * Pow(b, j) == Eval(StreamDigits(p, q, b, j), b) * q + Remainder(p, q, b, j)
    decreases j
  {
    if j > 0 {
      StreamValue(p, q, b, j - 1);
      var r := Remainder(p, q, b, j - 1);
      AppendValue(p, q, b, StreamDigits(p, q, b, j - 1), r, Step(r, q, b).0, Step(r, q, b).1);
    }
  }

  /** The digits read as an integer are floor(p * b^j / q), the first `j`
      radix-b digits of p / q, and the remainder is what that floor leaves. */
  lemma {:induction false} StreamIsFloor(p: nat, q: nat, b: nat, j: nat)
    requires p < q && b >= 1
    ensures Eval(StreamDigits(p, q, b, j), b) == (p * Pow(b, j)) / q
    ensures Remainder(p, q, b, j) == (p * Pow(b, j)) % q
  {
    StreamValue(p, q, b, j);
    DivModOfDigit(Eval(StreamDigits(p, q, b, j), b), Remainder(p, q, b, j), q);
  }

  /** Once a pass leaves nothing over, every later pass does too. */
  lemma {:induction false} ZeroRemainderStays(p: nat, q: nat, b: nat, i: nat, j: nat)
    requires p < q && b >= 1
    requires i <= j && Remainder(p, q, b, i) == 0
    ensures Remainder(p, q, b, j) == 0
    decreases j
  {
    if j > i {
      ZeroRemainderStays(p, q, b, i, j - 1);
      StepOfZero(q, b);
    }
  }

  lemma {:induction false} StepOfZero(q: nat, b: nat)
    requires q >= 1 && b >= 1
    ensures Step(0, q, b) == (0, 0)
  {
    assert 0 * b == 0;
  }

  /** The bounded loop emits the leading digits of the unbounded one and stops
      exactly at the first pass that leaves a zero remainder, or at `k`. */
  lemma {:induction false} ExpandFollowsStream(p: nat, q: nat, b: nat, k: nat)
    requires p < q && b >= 2
    ensures var e := Expand(p, q, b, k);
      && e.digits == StreamDigits(p, q, b, |e.digits|)
      && e.rest == Remainder(p, q, b, |e.digits|)
      && (forall j :: 1 <= j < |e.digits| ==> Remainder(p, q, b, j) != 0)
      && (|e.digits| < k ==> e.rest == 0)
    decreases k
  {
    if k > 0 {
      ExpandFollowsStream(p, q, b, k - 1);
    }
  }

  /** Once stopped, the loop state is final. */
  lemma {:induction false} ExpandStopped(p: nat, q: nat, b: nat, i: nat, k: nat)
    requires p < q && b >= 2
    requires 1 <= i <= k && Expand(p, q, b, i).rest == 0
    ensures Expand(p, q, b, k) == Expand(p, q, b, i)
    decreases k
  {
    if k > i {
      ExpandStopped(p, q, b, i, k - 1);
    }
  }

  /** The loop of `fraction_to_base` as written: at most MAX_DIGITS passes,
      leaving as soon as the remainder is 0. */
  method FractionDigits(p: nat, q: nat, b: nat) returns (digits: seq<nat>, c: nat)
    requires p < q && b >= 2
    ensures Expansion(digits, c) == Expand(p, q, b, MAX_DIGITS)
  {
    digits := [];
    c := p;
    var i := 0;
    while i < MAX_DIGITS
      invariant 0 <= i <= MAX_DIGITS
      invariant c < q
      invariant Expansion(digits, c) == Expand(p, q, b, i)
      invariant i >= 1 ==> c != 0
    {
      var s := Step(c, q, b);
      digits := digits + [s.0];
      c := s.1;
      i := i + 1;
      if c == 0 {
        ExpandStopped(p, q, b, i, MAX_DIGITS);
        break;
      }
    }
  }

  /** `fraction_to_base(p / q, base)`: the digit text, then "..." if the budget
      ran out before the remainder reached 0. */
  function FractionToBase(p: nat, q: nat, b: nat): (s: string)
    requires p < q && b >= 2
    ensures |s| > 0 && IsDigitChar(s[0])
  {
    var e := Expand(p, q, b, MAX_DIGITS);
    DigitsTextShape(e.digits);
    DigitsText(e.digits) + (if e.rest != 0 then "..." else "")
  }

  predicate EndsWithEllipsis(s: string) {
    |s| >= 3 && s[|s| - 3..] == "..."
  }

  /** The marker is there exactly when the loop left a nonzero remainder, and
      what precedes it is the digit text. */
  lemma {:induction false} FractionToBaseMarker(p: nat, q: nat, b: nat)
    requires p < q && b >= 2
    ensures var s := FractionToBase(p, q, b);
      var e := Expand(p, q, b, MAX_DIGITS);
      && (e.rest != 0 ==> EndsWithEllipsis(s) && s[..|s| - 3] == DigitsText(e.digits))
      && (e.rest == 0 ==> !EndsWithEllipsis(s) && s == DigitsText(e.digits))
  {
    var e := Expand(p, q, b, MAX_DIGITS);
    var s := FractionToBase(p, q, b);
    var t := DigitsText(e.digits);
    DigitsTextShape(e.digits);
    if e.rest != 0 {
      assert s == t + "...";
      assert s[|s| - 3..] == "...";
      assert s[..|s| - 3] == t;
    } else {
      assert s == t;
      assert IsDigitChar(s[|s| - 1]);
    }
  }

  /** The digits, the remainder and the text of `fraction_to_base`. The text
      ends in "..." exactly when p / q * b^MAX_DIGITS is not a whole number;
      then MAX_DIGITS digit tokens precede the marker. Otherwise the digits
      stop at the first pass whose remainder is 0 and reproduce p / q exactly. */
  lemma {:induction false} FractionToBaseSpec(p: nat, q: nat, b: nat)
    requires p < q && b >= 2
    ensures var s := FractionToBase(p, q, b);
      var e := Expand(p, q, b, MAX_DIGITS);
      var k := |e.digits|;
      && 1 <= k <= MAX_DIGITS
      && e.digits == StreamDigits(p, q, b, k)
      && (EndsWithEllipsis(s) <==> (p * Pow(b, MAX_DIGITS)) % q != 0)
      && (EndsWithEllipsis(s) ==> s == DigitsText(e.digits) + "..." && k == MAX_DIGITS)
      && (!EndsWithEllipsis(s) ==>
            && s == DigitsText(e.digits)
            && p * Pow(b, k) == Eval(e.digits, b) * q
            && Remainder(p, q, b, k) == 0
            && (forall j :: 1 <= j < k ==> Remainder(p, q, b, j) != 0))
  {
    var e := Expand(p, q, b, MAX_DIGITS);
    var k := |e.digits|;
    FractionToBaseMarker(p, q, b);
    ExpandFollowsStream(p, q, b, MAX_DIGITS);
    StreamValue(p, q, b, k);
    StreamIsFloor(p, q, b, MAX_DIGITS);
    if e.rest == 0 {
      ZeroRemainderStays(p, q, b, k, MAX_DIGITS);
    }
  }

  /** The digits are floor(p / q * b^k): a cut-off expansion undershoots p / q
      by less than one unit in its last place, a completed one is exact. */
  lemma {:induction false} FractionDigitsApproximate(p: nat, q: nat, b: nat)
    requires p < q && b >= 2
    ensures var e := Expand(p, q, b, MAX_DIGITS);
      var k := |e.digits|;
      && Eval(e.digits, b) == (p * Pow(b, k)) / q
      && Eval(e.digits, b) * q <= p * Pow(b, k) < (Eval(e.digits, b) + 1) * q
      && (e.rest == 0 <==> p * Pow(b, k) == Eval(e.digits, b) * q)
  {
    var e := Expand(p, q, b, MAX_DIGITS);
    var k := |e.digits|;
    ExpandFollowsStream(p, q, b, MAX_DIGITS);
    StreamValue(p, q, b, k);
    StreamIsFloor(p, q, b, k);
    MulAddRight(Eval(e.digits, b), 1, q);
  }

  /** After removing the marker, splitting at ';' yields one token per digit:
      exactly MAX_DIGITS of them when the expansion was cut off. */
  lemma {:induction false} FractionToBaseTokens(p: nat, q: nat, b: nat)
    requires p < q && b >= 2
    ensures var s := FractionToBase(p, q, b);
      var body := if EndsWithEllipsis(s) then s[..|s| - 3] else s;
      var e := Expand(p, q, b, MAX_DIGITS);
      && ReadDigits(body) == Some(e.digits)
      && (EndsWithEllipsis(s) ==> |Split(body, ';')| == MAX_DIGITS)
  {
    var e := Expand(p, q, b, MAX_DIGITS);
    FractionToBaseMarker(p, q, b);
    ReadDigitsText(e.digits);
    SplitJoinCount(e.digits);
  }

  /** The digit text splits into one token per digit. */
  lemma {:induction false} SplitJoinCount(ds: seq<nat>)
    ensures |ds| > 0 ==> |Split(DigitsText(ds), ';')| == |ds|
  {
    if |ds| > 0 {
      var tokens := DigitTokens(ds);
      forall k | 0 <= k < |tokens|
        ensures ';' !in tokens[k]
      {
        assert IsNumeral(Decimal(ds[k]));
      }
      SplitJoin(tokens, ';');
    }
  }

  /** Only digits, digit separators, the decimal point and the dots of the
      marker. */
  predicate IsNumberText(s: string) {
    forall ch :: ch in s ==> IsDigitChar(ch) || ch == ';' || ch == '.'
  }

  lemma {:induction false} FractionToBaseChars(p: nat, q: nat, b: nat)
    requires p < q && b >= 2
    ensures IsNumberText(FractionToBase(p, q, b))
  {
    var e := Expand(p, q, b, MAX_DIGITS);
    DigitsTextShape(e.digits);
  }

  // ---------------------------------------------------------------
  // Whole numbers: decimal_to_base and convert
  //
  // A number is the exact ratio num / den with den >= 1; every finite
  // double is such a ratio. For num >= 0, `int(x)` is num / den and the
  // fractional part is (num % den) / den.
  // ---------------------------------------------------------------

  /** `decimal_to_base(num / den, base)`: a '-' and the text of the magnitude for
      a negative number; otherwise the integer digits, then a '.' and the
      fractional digits unless the fractional part is 0. The source recurses
      on the negation, which always lands in the non-negative branch, so that
      call is written here as that branch. The text starts with '-' exactly
      for a negative number, and holds no other '-'. */
  function DecimalToBase(num: int, den: nat, b: nat): (s: string)
    requires den >= 1 && b >= 2
    ensures |s| > 0
    ensures s[0] == '-' <==> num < 0
    ensures '-' !in s[1..]
  {
    if num < 0 then
      var t := UnsignedToBase(Abs(num), den, b);
      NoMinusInText(t);
      assert ("-" + t)[1..] == t;
      "-" + t
    else
      var t := UnsignedToBase(num, den, b);
      NoMinusInText(t);
      t
  }

  /** The magnitude of an integer. */
  function Abs(num: int): (a: nat)
    ensures a == num || a == -num
  {
    if num < 0 then -num else num
  }

  /** The non-negative branch of `decimal_to_base`: split off int(x) and the
      fractional part, and print the '.' and the fraction only when the
      fractional part is not 0. The text starts with a digit, holds only
      digits, ';' and '.', and has a '.' exactly when the number is not whole. */
  function UnsignedToBase(num: nat, den: nat, b: nat): (s: string)
    requires den >= 1 && b >= 2
    ensures |s| > 0 && IsDigitChar(s[0])
    ensures IsNumberText(s)
    ensures '.' in s <==> num % den != 0
  {
    var intStr := IntegerToBase(num / den, b);
    if num % den == 0 then intStr
    else
      var fracStr := FractionToBase(num % den, den, b);
      FractionToBaseChars(num % den, den, b);
      var s := intStr + "." + fracStr;
      assert s[|intStr|] == '.';
      s
  }

  /** Euclidean division of a non-negative numerator by its denominator. */
  lemma {:induction false} DivModRatio(num: nat, den: nat)
    requires den >= 1
    ensures num / den >= 0 && num % den < den
    ensures num == (num / den) * den + num % den
  {}

  /** A negative number prints as '-' followed by the text of its magnitude. */
  lemma {:induction false} NegativeText(num: int, den: nat, b: nat)
    requires num < 0 && den >= 1 && b >= 2
    ensures DecimalToBase(num, den, b)[0] == '-'
    ensures DecimalToBase(num, den, b)[1..] == UnsignedToBase(Abs(num), den, b)
  {
    var t := UnsignedToBase(Abs(num), den, b);
    assert DecimalToBase(num, den, b) == "-" + t;
    assert ("-" + t)[1..] == t;
  }

  lemma {:induction false} NoMinusInText(s: string)
    requires |s| > 0 && IsNumberText(s)
    ensures s[0] != '-' && '-' !in s && '-' !in s[1..]
  {
    assert s[0] in s;
  }

  /** `convert(x, base)`, which is `decimal_to_base(x, base)`: the text starts
      with '-' exactly for a negative number, and holds no other '-'. */
  function Convert(num: int, den: nat, b: nat): (s: string)
    requires den >= 1 && b >= 2
    ensures |s| > 0
    ensures s[0] == '-' <==> num < 0
    ensures '-' !in s[1..]
  {
    DecimalToBase(num, den, b)
  }

  /** Negating a positive number only prefixes a single '-'. */
  lemma {:induction false} NegationPrefixesMinus(num: int, den: nat, b: nat)
    requires num > 0 && den >= 1 && b >= 2
    ensures Convert(-num, den, b) == "-" + Convert(num, den, b)
    ensures Convert(-num, den, b)[1] != '-'
  {
    assert -(-num) == num;
    assert Convert(num, den, b)[0] != '-';
  }

  /** Whole numbers print as their integer digits with no '.'; anything with a
      nonzero fractional part prints the integer digits, one '.', and the
      fraction's digits. */
  lemma {:induction false} DecimalToBaseParts(num: nat, den: nat, b: nat)
    requires den >= 1 && b >= 2
    ensures var s := DecimalToBase(num, den, b);
      var intStr := IntegerToBase(num / den, b);
      && s == UnsignedToBase(num, den, b)
      && '.' !in intStr
      && (num % den == 0 ==> s == intStr && '.' !in s)
      && (num % den != 0 ==> s == intStr + "." + FractionToBase(num % den, den, b))
  {
    DivModRatio(num, den);
  }
}
