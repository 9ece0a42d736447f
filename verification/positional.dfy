/**
 Positional notation in an arbitrary radix: powers, the value of a digit
 sequence read most significant first, and the small arithmetic facts the
 conversion proofs are built from. Each arithmetic lemma names one ring or
 order law with its operands, so the proofs that use them stay linear.
 */
module Positional {

  /** `b` to the power `k`. */
  function Pow(b: nat, k: nat): (p: nat)
    ensures b >= 1 ==> p >= 1
  {
    if k == 0 then 1 else b * Pow(b, k - 1)
  }

  /** Every entry is a legal digit of radix `b`. */
  predicate IsDigits(ds: seq<nat>, b: nat) {
    forall i :: 0 <= i < |ds| ==> ds[i] < b
  }

  /** The number the digits denote in radix `b`, most significant first (Horner's rule). */
  function Eval(ds: seq<nat>, b: nat): nat
  {
    if |ds| == 0 then 0 else Eval(ds[..|ds| - 1], b) * b + ds[|ds| - 1]
  }

  /** Appending a digit shifts the value one place and adds the digit. */
  lemma {:induction false} EvalAppend(ds: seq<nat>, d: nat, b: nat)
    ensures Eval(ds + [d], b) == Eval(ds, b) * b + d
  {
    assert (ds + [d])[..|ds|] == ds;
  }

  /** A leading digit contributes its value times the weight of its place. */
  lemma {:induction false} EvalCons(d: nat, ds: seq<nat>, b: nat)
    ensures Eval([d] + ds, b) == d * Pow(b, |ds|) + Eval(ds, b)
  {
    if |ds| > 0 {
      var init := ds[..|ds| - 1];
      var last := ds[|ds| - 1];
      assert [d] + ds == ([d] + init) + [last];
      EvalAppend([d] + init, last, b);
      EvalCons(d, init, b);
      var P := Pow(b, |init|);
      MulAddRight(d * P, Eval(init, b), b);
      MulAssoc(d, P, b);
      MulComm(P, b);
    }
  }

  /** `k` digits of radix `b` denote less than `b^k`. */
  lemma {:induction false} EvalBound(ds: seq<nat>, b: nat)
    requires b >= 1
    requires IsDigits(ds, b)
    ensures Eval(ds, b) < Pow(b, |ds|)
  {
    if |ds| > 0 {
      var init := ds[..|ds| - 1];
      EvalBound(init, b);
      var E := Eval(init, b);
      var P := Pow(b, |init|);
      // E * b + d <= (P - 1) * b + (b - 1) < P * b
      MulLe(E, P - 1, b);
      MulAddRight(P - 1, 1, b);
      MulComm(P, b);
    }
  }

  /** Digit sequences of one length and one value are the same digits. */
  lemma {:induction false} EvalInjective(xs: seq<nat>, ys: seq<nat>, b: nat)
    requires b >= 1 && |xs| == |ys|
    requires IsDigits(xs, b) && IsDigits(ys, b)
    requires Eval(xs, b) == Eval(ys, b)
    ensures xs == ys
  {
    if |xs| > 0 {
      var n := |xs| - 1;
      DivModOfDigit(Eval(xs[..n], b), xs[n], b);
      DivModOfDigit(Eval(ys[..n], b), ys[n], b);
      EvalInjective(xs[..n], ys[..n], b);
      assert xs == xs[..n] + [xs[n]];
      assert ys == ys[..n] + [ys[n]];
    }
  }

  /** A ratio `x / q` that has produced the digits `ds` with remainder `c`
      (that is, `x * b^k == Eval(ds) * q + c`) keeps that relation when one
      more digit `d` is split off the scaled remainder `c * b`. */
  lemma {:induction false} AppendValue(x: nat, q: nat, b: nat, ds: seq<nat>, c: nat, d: nat, c1: nat)
    requires x * Pow(b, |ds|) == Eval(ds, b) * q + c
    requires c * b == d * q + c1
    ensures x * Pow(b, |ds| + 1) == Eval(ds + [d], b) * q + c1
  {
    ShiftDigit(x, Pow(b, |ds|), b, Eval(ds, b), q, c, d, c1);
    PowSucc(b, |ds|);
    EvalAppend(ds, d, b);
    Substitute(x, Pow(b, |ds| + 1), b * Pow(b, |ds|), Eval(ds + [d], b), Eval(ds, b) * b + d, q, c1);
  }

  /** Replacing equals by equals in `x * p == e * q + r`. */
  lemma {:induction false} Substitute(x: int, p: int, p': int, e: int, e': int, q: int, r: int)
    requires p == p' && e == e'
    requires x * p' == e' * q + r
    ensures x * p == e * q + r
  {}

  lemma {:induction false} PowSucc(b: nat, k: nat)
    ensures Pow(b, k + 1) == b * Pow(b, k)
  {}

  lemma {:induction false} ShiftDigit(x: int, P: int, B: int, E: int, q: int, c: int, d: int, c1: int)
    requires x * P == E * q + c
    requires c * B == d * q + c1
    ensures x * (B * P) == (E * B + d) * q + c1
  {
    MulComm(B, P);
    MulAssoc(x, P, B);
    MulAddRight(E * q, c, B);
    MulAssoc(E, q, B);
    MulComm(q, B);
    MulAssoc(E, B, q);
    MulAddRight(E * B, d, q);
  }

  // ---------------------------------------------------------------
  // Integer arithmetic, one law per lemma.
  // ---------------------------------------------------------------

  lemma {:induction false} MulComm(a: int, b: int)
    ensures a * b == b * a
  {}

  lemma {:induction false} MulAssoc(a: int, b: int, c: int)
    ensures (a * b) * c == a * (b * c)
  {}

  lemma {:induction false} MulAddRight(a: int, b: int, c: int)
    ensures (a + b) * c == a * c + b * c
  {}

  lemma {:induction false} MulLe(a: int, b: int, c: nat)
    requires a <= b
    ensures a * c <= b * c
  {}

  /** Euclidean division by a radix. */
  lemma {:induction false} DivMod(n: nat, b: nat)
    requires b >= 2
    ensures n == (n / b) * b + n % b
    ensures n % b < b
    ensures n > 0 ==> n / b < n
  {}

  /** Division by the radix undoes appending a digit. */
  lemma {:induction false} DivModOfDigit(q: nat, r: nat, b: nat)
    requires r < b
    ensures (q * b + r) / b == q && (q * b + r) % b == r
  {
    var n := q * b + r;
    var k := n / b - q;
    assert k * b == r - n % b;
    if k >= 1 { MulLe(1, k, b); }
    if k <= -1 { MulLe(k, -1, b); }
  }
}
