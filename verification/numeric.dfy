/** Arithmetic shared by the agent and the scheduler: two-decimal rounding
    (the `float('%.2f' % x)` idiom of the sources), left-to-right sums,
    arithmetic means and Python's truncating `int()` conversion. */
module Numeric {

  function Min(a: real, b: real): real
  {
    if a <= b then a else b
  }

  /** `x` is a whole number of hundredths, i.e. a value `Round2` can produce. */
  predicate IsCents(x: real)
  {
    (x * 100.0).Floor as real == x * 100.0
  }

  /** `float('%.2f' % x)`: rounds to the nearest hundredth, halves upwards.
      (Python rounds the binary double half-to-even; that difference is not
      modelled.) */
  function Round2(x: real): (r: real)
    ensures IsCents(r)
    ensures x - 0.005 < r <= x + 0.005
  {
    ((x * 100.0 + 0.5).Floor as real) / 100.0
  }

  lemma Round2Monotone(x: real, y: real)
    requires x <= y
    ensures Round2(x) <= Round2(y)
  {
    var a := x * 100.0 + 0.5;
    var b := y * 100.0 + 0.5;
    assert a <= b;
    assert a.Floor as real <= a < b.Floor as real + 1.0;
    assert a.Floor <= b.Floor;
  }

  /** Rounding a value that already has two decimals changes nothing. */
  lemma Round2OfCents(x: real)
    requires IsCents(x)
    ensures Round2(x) == x
  {
    var c := (x * 100.0).Floor;
    assert (x * 100.0 + 0.5).Floor == c;
  }

  /** `sum(s)`: adds from the left. */
  function Sum(s: seq<real>): real
  {
    if |s| == 0 then 0.0 else Sum(s[..|s| - 1]) + s[|s| - 1]
  }

  /** `sum(s) / len(s)`. */
  function Mean(s: seq<real>): real
    requires |s| > 0
  {
    Sum(s) / (|s| as real)
  }

  lemma {:induction false} SumBounds(s: seq<real>, lo: real, hi: real)
    requires forall i :: 0 <= i < |s| ==> lo <= s[i] <= hi
    ensures (|s| as real) * lo <= Sum(s) <= (|s| as real) * hi
  {
    if |s| > 0 {
      SumBounds(s[..|s| - 1], lo, hi);
    }
  }

  /** The mean of samples that all lie in `[lo, hi]` lies in `[lo, hi]`. */
  lemma {:induction false} MeanBounds(s: seq<real>, lo: real, hi: real)
    requires |s| > 0
    requires forall i :: 0 <= i < |s| ==> lo <= s[i] <= hi
    ensures lo <= Mean(s) <= hi
  {
    SumBounds(s, lo, hi);
    var n := |s| as real;
    assert Mean(s) * n == Sum(s);
  }

  lemma MeanOfTwo(s: seq<real>)
    requires |s| == 2
    ensures Mean(s) == (s[0] + s[1]) / 2.0
  {
    assert s[..1][..0] == [];
    assert Sum(s[..1]) == s[0];
    assert Sum(s) == s[0] + s[1];
  }

  /** Python's `int(x)` on a float: truncates toward zero. */
  function Trunc(x: real): int
  {
    if x >= 0.0 then x.Floor else -((-x).Floor)
  }

  lemma TruncOfInt(n: int)
    ensures Trunc(n as real) == n
  {
  }
}
