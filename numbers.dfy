/** Integer and real helpers shared by the pipeline stages. */
module Numbers {

  function Min(a: int, b: int): int { if a <= b then a else b }

  function Max(a: int, b: int): int { if a <= b then b else a }

  function Abs(a: int): int { if a < 0 then -a else a }

  /** Python's int() of a real: truncation toward zero. */
  function Trunc(r: real): (n: int)
    ensures r >= 0.0 ==> n as real <= r < n as real + 1.0
    ensures r < 0.0 ==> n as real - 1.0 < r <= n as real
  {
    if r >= 0.0 then r.Floor else -((-r).Floor)
  }

  /** numpy's int32 cast of n / 2 (n an integer): truncation toward zero. */
  function TruncHalf(n: int): (q: int)
    ensures n >= 0 ==> 2 * q <= n < 2 * q + 2
    ensures n < 0 ==> 2 * q - 2 < n <= 2 * q
  {
    if n >= 0 then n / 2 else -((-n) / 2)
  }

  /** The Python comparison a / d < c for a positive divisor, stated without division. */
  lemma DivLess(a: real, d: real, c: real)
    requires d > 0.0
    ensures a / d < c <==> a < c * d
  {
    assert a / d * d == a;
    if a / d < c {
      assert a / d * d < c * d;
    }
    if a < c * d {
      assert a / d < c * d / d;
    }
  }

  /** Sum of a sequence of reals (Python's builtin sum). */
  function Sum(s: seq<real>): real
  {
    if s == [] then 0.0 else Sum(s[..|s| - 1]) + s[|s| - 1]
  }

  /** Every element strictly inside (lo, hi) puts the sum strictly inside (n lo, n hi). */
  lemma {:induction false} SumBounds(s: seq<real>, lo: real, hi: real)
    requires |s| > 0
    requires forall i :: 0 <= i < |s| ==> lo < s[i] < hi
    ensures |s| as real * lo < Sum(s) < |s| as real * hi
  {
    if |s| > 1 {
      SumBounds(s[..|s| - 1], lo, hi);
    }
  }

  /** The mean of a non-empty sequence lies strictly between strict element bounds. */
  lemma MeanBounds(s: seq<real>, lo: real, hi: real)
    requires |s| > 0
    requires forall i :: 0 <= i < |s| ==> lo < s[i] < hi
    ensures lo < Sum(s) / |s| as real < hi
  {
    var n := |s| as real;
    SumBounds(s, lo, hi);
    DivLess(Sum(s), n, hi);
    DivLess(-Sum(s), n, -lo);
    assert -Sum(s) / n == -(Sum(s) / n);
  }
}
