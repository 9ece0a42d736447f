/**
 `find_minimum_error` of Machine_Assignment_4/plot_error.py: the step size
 whose error is smallest, found as `errors.index(min(errors))`. Errors and
 step sizes are `real`.
 */
module MinimumError {

  /** `min(xs)`: an element of `xs` that no element is below. */
  function MinOf(xs: seq<real>): (m: real)
    requires |xs| > 0
    ensures m in xs
    ensures forall i :: 0 <= i < |xs| ==> m <= xs[i]
  {
    if |xs| == 1 then xs[0]
    else
      var rest := MinOf(xs[1..]);
      if xs[0] <= rest then xs[0] else rest
  }

  /** `xs.index(v)`: the first position holding `v`. */
  function IndexOf(xs: seq<real>, v: real): (i: nat)
    requires v in xs
    ensures i < |xs| && xs[i] == v
    ensures forall j :: 0 <= j < i ==> xs[j] != v
  {
    if xs[0] == v then 0 else 1 + IndexOf(xs[1..], v)
  }

  /** The position `find_minimum_error` looks up: the first one holding the
      smallest error. */
  function MinIndex(errors: seq<real>): (i: nat)
    requires |errors| > 0
    ensures i < |errors|
    ensures forall j :: 0 <= j < |errors| ==> errors[i] <= errors[j]
    ensures forall j :: 0 <= j < i ==> errors[i] < errors[j]
  {
    IndexOf(errors, MinOf(errors))
  }

  /** `find_minimum_error(h_values, errors)`: the (h, error) pair at the first
      position of the smallest error. The source fails on an empty `errors`
      (`min` of an empty list) and when `h_values` is too short to hold that
      position. */
  function FindMinimumError(hValues: seq<real>, errors: seq<real>): (r: (real, real))
    requires |errors| > 0 && MinIndex(errors) < |hValues|
    ensures r.1 in errors
    ensures forall j :: 0 <= j < |errors| ==> r.1 <= errors[j]
    ensures exists i :: (0 <= i < |errors| && i < |hValues| && r == (hValues[i], errors[i])
                         && forall j :: 0 <= j < i ==> errors[j] > r.1)
  {
    var i := MinIndex(errors);
    (hValues[i], errors[i])
  }

  /** The minimum and its first position are the same whichever way they are
      found: one left-to-right scan that replaces its candidate only on a
      strictly smaller error finds the position `errors.index(min(errors))`. */
  method ScanMinIndex(errors: seq<real>) returns (k: nat)
    requires |errors| > 0
    ensures k == MinIndex(errors)
  {
    k := 0;
    var i := 1;
    while i < |errors|
      invariant 1 <= i <= |errors| && k < i
      invariant forall j :: 0 <= j < i ==> errors[k] <= errors[j]
      invariant forall j :: 0 <= j < k ==> errors[k] < errors[j]
    {
      if errors[i] < errors[k] {
        k := i;
      }
      i := i + 1;
    }
  }
}
