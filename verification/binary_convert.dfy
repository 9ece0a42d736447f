/**
 The binary-fraction converter of Machine_Assignment_1/convert.py, the
 base-2 predecessor of the arbitrary-radix converter: it doubles the
 fraction MAX_DIGITS times at most, writes the bits with no separator after
 "0.", and marks a cut-off expansion with "...". As in BaseConvert the
 number is the exact ratio p / q.
 */
module BinaryConvert {
  import opened Positional
  import opened Numerals
  import opened Tokens
  import opened Wrappers
  import BaseConvert
  import ReadBack

  /** The bit budget of this converter. */
  const MAX_DIGITS: nat := 8

  /** One pass `c = c * 2; digit = int(c); c = c - digit` on c = r / q, as a
      comparison: doubling yields the bit 1 exactly when it reaches q. */
  function Double(r: nat, q: nat): (s: (nat, nat))
    requires r < q
    ensures s.0 <= 1 && s.1 < q
    ensures 2 * r == s.0 * q + s.1
  {
    if 2 * r >= q then (1, 2 * r - q) else (0, 2 * r)
  }

  /** The comparison is the radix-2 digit step: the bit is floor(2c) and the
      new remainder is what that floor leaves. */
  lemma {:induction false} DoubleIsStep(r: nat, q: nat)
    requires r < q
    ensures Double(r, q) == BaseConvert.Step(r, q, 2)
  {
    assert r * 2 == 2 * r;
    if 2 * r >= q {
      DivModOfDigit(1, 2 * r - q, q);
    } else {
      DivModOfDigit(0, 2 * r, q);
    }
  }

  /** The state of the `for` loop of `decimal_to_binary_fraction` after `k`
      passes from c = p / q; it stops after a pass that leaves 0. */
  function BinaryExpand(p: nat, q: nat, k: nat): (e: BaseConvert.Expansion)
    requires p < q
    ensures e.rest < q
    decreases k
  {
    if k == 0 then BaseConvert.Expansion([], p)
    else
      var e := BinaryExpand(p, q, k - 1);
      if k > 1 && e.rest == 0 then e
      else
        var s := Double(e.rest, q);
        BaseConvert.Expansion(e.digits + [s.0], s.1)
  }

  /** The two converters' fraction loops are step-for-step the same in radix 2. */
  lemma {:induction false} BinaryExpandIsExpand(p: nat, q: nat, k: nat)
    requires p < q
    ensures BinaryExpand(p, q, k) == BaseConvert.Expand(p, q, 2, k)
    decreases k
  {
    if k > 0 {
      BinaryExpandIsExpand(p, q, k - 1);
      var e := BinaryExpand(p, q, k - 1);
      DoubleIsStep(e.rest, q);
    }
  }

  /** `"".join(str(d) for d in ds)`. */
  function BitsText(ds: seq<nat>): string
  {
    Concat(BaseConvert.DigitTokens(ds))
  }

  /** `decimal_to_binary_fraction(p / q)`. */
  function DecimalToBinaryFraction(p: nat, q: nat): (s: string)
    requires 0 < p < q
    ensures |s| >= 2 && s[..2] == "0."
  {
    var e := BinaryExpand(p, q, MAX_DIGITS);
    var s := "0." + BitsText(e.digits) + (if e.rest != 0 then "..." else "");
    assert s[..2] == "0.";
    s
  }

  /** `convert(p / q)` for 0 <= p / q <= 1: "0" and "1" for the end points and
      the binary fraction in between, which is never "0" or "1". */
  function Convert(p: nat, q: nat): (s: string)
    requires p <= q && q >= 1
    ensures s == "0" <==> p == 0
    ensures s == "1" <==> p == q
    ensures 0 < p < q ==> s == DecimalToBinaryFraction(p, q)
  {
    if p == 0 then "0"
    else if p == q then "1"
    else
      var s := DecimalToBinaryFraction(p, q);
      assert s[1] == '.';
      s
  }

  // ---------------------------------------------------------------
  // The bit text and its reading
  // ---------------------------------------------------------------

  /** The character a bit prints as. */
  function BitChar(d: nat): char
  {
    if d == 1 then '1' else '0'
  }

  /** The first bit prints as one character in front of the others. */
  lemma {:induction false} BitsTextCons(ds: seq<nat>)
    requires |ds| > 0 && ds[0] < 2
    ensures BitsText(ds) == [BitChar(ds[0])] + BitsText(ds[1..])
  {
    BaseConvert.DigitTokensTail(ds);
    assert BitsText(ds) == Decimal(ds[0]) + BitsText(ds[1..]);
  }

  /** Bits print as one character each, '0' or '1'. */
  lemma {:induction false} BitsTextChars(ds: seq<nat>)
    requires IsDigits(ds, 2)
    ensures |BitsText(ds)| == |ds|
    ensures forall i :: 0 <= i < |ds| ==> BitsText(ds)[i] == BitChar(ds[i])
  {
    if |ds| > 0 {
      BitsTextCons(ds);
      BitsTextChars(ds[1..]);
    }
  }

  /** The bits of a string of '0' and '1' characters; None for any other character. */
  function ReadBitChars(s: string): Option<seq<nat>>
  {
    if |s| == 0 then Some([])
    else if s[0] != '0' && s[0] != '1' then None
    else
      match ReadBitChars(s[1..])
      case None => None
      case Some(rest) => Some([if s[0] == '1' then 1 else 0] + rest)
  }

  lemma {:induction false} ReadBitsText(ds: seq<nat>)
    requires IsDigits(ds, 2)
    ensures ReadBitChars(BitsText(ds)) == Some(ds)
  {
    if |ds| > 0 {
      BitsTextCons(ds);
      assert BitsText(ds)[1..] == BitsText(ds[1..]);
      ReadBitsText(ds[1..]);
      assert [ds[0]] + ds[1..] == ds;
    }
  }

  /** Reads "0." followed by bits and an optional "...": the bits and whether
      the marker was there. */
  function ReadBinaryFraction(s: string): Option<(seq<nat>, bool)>
  {
    if |s| < 2 || s[..2] != "0." then None
    else
      var t := s[2..];
      var truncated := BaseConvert.EndsWithEllipsis(t);
      match ReadBitChars(if truncated then t[..|t| - 3] else t)
      case None => None
      case Some(bits) => Some((bits, truncated))
  }

  /** Text that reads as bits holds no '.'. */
  lemma {:induction false} BitCharsNoDot(s: string)
    requires ReadBitChars(s).Some?
    ensures '.' !in s
  {
    if |s| > 0 {
      BitCharsNoDot(s[1..]);
      assert s == [s[0]] + s[1..];
    }
  }

  /** "0.", the bits, and the marker when `truncated` read back as the bits
      and the flag. */
  lemma {:induction false} ReadMarked(bits: string, ds: seq<nat>, truncated: bool)
    requires ReadBitChars(bits) == Some(ds)
    ensures ReadBinaryFraction("0." + bits + (if truncated then "..." else "")) == Some((ds, truncated))
  {
    var s := "0." + bits + (if truncated then "..." else "");
    var t := s[2..];
    assert s[..2] == "0.";
    BitCharsNoDot(bits);
    if truncated {
      assert t == bits + "...";
      assert t[|t| - 3..] == "...";
      assert t[..|t| - 3] == bits;
    } else {
      assert t == bits;
      if |t| >= 3 {
        assert t[|t| - 1] in bits;
      }
    }
  }

  /** The text of `decimal_to_binary_fraction` reads back as the loop's bits and
      its marker: the marker is there exactly when the loop left a nonzero
      remainder, and then MAX_DIGITS bits precede it and the text is
      2 + MAX_DIGITS + 3 characters long. */
  lemma {:induction false} BinaryFractionReadsBack(p: nat, q: nat)
    requires 0 < p < q
    ensures var s := DecimalToBinaryFraction(p, q);
      var e := BinaryExpand(p, q, MAX_DIGITS);
      && ReadBinaryFraction(s) == Some((e.digits, e.rest != 0))
      && (e.rest != 0 ==> |e.digits| == MAX_DIGITS && |s| == 2 + MAX_DIGITS + 3)
      && (e.rest == 0 ==> |s| == 2 + |e.digits|)
  {
    var e := BinaryExpand(p, q, MAX_DIGITS);
    BinaryExpandIsExpand(p, q, MAX_DIGITS);
    BitsTextChars(e.digits);
    ReadBitsText(e.digits);
    ReadMarked(BitsText(e.digits), e.digits, e.rest != 0);
  }

  /** What the bits mean: they are the radix-2 digits of p / q truncated to
      their number of places, exact unless the marker is printed, which
      happens exactly when p / q * 2^MAX_DIGITS is not whole. */
  lemma {:induction false} BinaryFractionMeaning(p: nat, q: nat)
    requires 0 < p < q
    ensures ReadBinaryFraction(DecimalToBinaryFraction(p, q)).Some?
    ensures var r := ReadBinaryFraction(DecimalToBinaryFraction(p, q)).value;
      ReadBack.DescribesFraction(r.0, r.1, p, q, 2)
  {
    BinaryFractionReadsBack(p, q);
    BinaryExpandIsExpand(p, q, MAX_DIGITS);
    ReadBack.FractionMeaning(p, q, 2);
  }

  /** Deleting the separators from the digit text leaves the bit text. */
  lemma {:induction false} RemoveSeparators(ds: seq<nat>)
    ensures Remove(BaseConvert.DigitsText(ds), ';') == BitsText(ds)
  {
    var tokens := BaseConvert.DigitTokens(ds);
    forall k | 0 <= k < |tokens|
      ensures ';' !in tokens[k]
    {
      assert IsNumeral(Decimal(ds[k]));
    }
    RemoveJoin(tokens, ';');
  }

  /** With the separators deleted, the radix-2 text of the general converter
      is the text of the binary one after its "0.". */
  lemma {:induction false} MatchesBaseConverter(p: nat, q: nat)
    requires 0 < p < q
    ensures DecimalToBinaryFraction(p, q) == "0." + Remove(BaseConvert.FractionToBase(p, q, 2), ';')
  {
    var e := BaseConvert.Expand(p, q, 2, MAX_DIGITS);
    BinaryExpandIsExpand(p, q, MAX_DIGITS);
    RemoveMarked(e.digits, e.rest != 0);
  }

  lemma {:induction false} RemoveMarked(ds: seq<nat>, truncated: bool)
    ensures var marker := if truncated then "..." else "";
      Remove(BaseConvert.DigitsText(ds) + marker, ';') == BitsText(ds) + marker
  {
    var marker := if truncated then "..." else "";
    RemoveSeparators(ds);
    RemoveAppend(BaseConvert.DigitsText(ds), marker, ';');
    RemoveAbsent(marker, ';');
  }
}
