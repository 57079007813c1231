/** The pieces of Python integer arithmetic and indexing the program relies on. */
module PyArith {
  import opened Common

  /** Python's `a // d` for a positive divisor: the floor of the quotient.
      (Dafny's `/` agrees with it exactly when the divisor is positive.) */
  function FloorDiv(a: int, d: int): (q: int)
    requires d > 0
    ensures q * d <= a < (q + 1) * d
  {
    a / d
  }

  /** Python's `int(a / d)`: true division followed by truncation toward zero. */
  function TruncDiv(a: int, d: int): (q: int)
    requires d > 0
    ensures a >= 0 ==> 0 <= q && q * d <= a < (q + 1) * d
    ensures a < 0 ==> q <= 0 && (q - 1) * d < a <= q * d
  {
    if a >= 0 then a / d
    else
      var q := FloorDiv(-a, d);
      NegMul(q, d);
      -q
  }

  /** Negating a factor negates the product. */
  lemma NegMul(q: int, d: int)
    ensures (-q) * d == -(q * d) && (-q - 1) * d == -((q + 1) * d)
  {
  }

  /** Python's `s[i]`: a non-negative index counts from the front, a negative one
      from the back, and anything outside `-|s| .. |s|-1` raises IndexError (None). */
  function PyIndex<T>(s: seq<T>, i: int): (r: Option<T>)
    ensures r.Some? <==> -|s| <= i < |s|
    ensures 0 <= i < |s| ==> r == Some(s[i])
    ensures -|s| <= i < 0 ==> r == Some(s[|s| + i])
  {
    if 0 <= i < |s| then Some(s[i])
    else if -|s| <= i < 0 then Some(s[|s| + i])
    else None
  }

  function Sum(s: seq<int>): int
  {
    if s == [] then 0 else Sum(s[..|s| - 1]) + s[|s| - 1]
  }

  /** A sum of values that are all at least `lo` is at least `|s| * lo`. */
  lemma {:induction false} SumAtLeast(s: seq<int>, lo: int)
    requires forall i :: 0 <= i < |s| ==> lo <= s[i]
    ensures |s| * lo <= Sum(s)
  {
    if s != [] {
      SumAtLeast(s[..|s| - 1], lo);
    }
  }

  /** A sum of values that are all at most `hi` is at most `|s| * hi`. */
  lemma {:induction false} SumAtMost(s: seq<int>, hi: int)
    requires forall i :: 0 <= i < |s| ==> s[i] <= hi
    ensures Sum(s) <= |s| * hi
  {
    if s != [] {
      SumAtMost(s[..|s| - 1], hi);
    }
  }

  /** The truncated mean `int(sum(s) / len(s))`; the mean of one value is that value. */
  function Mean(s: seq<int>): (m: int)
    requires |s| > 0
    ensures |s| == 1 ==> m == s[0]
  {
    assert |s| == 1 ==> Sum(s) == s[0] by {
      if |s| == 1 { assert s[..0] == []; }
    }
    TruncDiv(Sum(s), |s|)
  }

  /** Multiplying by a non-negative number keeps the order. */
  lemma MulMono(a: int, b: int, n: int)
    requires a <= b && n >= 0
    ensures a * n <= b * n
  {
    assert b * n - a * n == (b - a) * n;
  }

  /** A truncated quotient of a value of at least `n * lo` is at least `lo`. */
  lemma TruncDivAtLeast(t: int, n: int, lo: int)
    requires n > 0 && n * lo <= t
    ensures lo <= TruncDiv(t, n)
  {
    var q := TruncDiv(t, n);
    if q < lo {
      MulMono(q + 1, lo, n);
    }
  }

  /** A truncated quotient of a value of at most `n * hi` is at most `hi`. */
  lemma TruncDivAtMost(t: int, n: int, hi: int)
    requires n > 0 && t <= n * hi
    ensures TruncDiv(t, n) <= hi
  {
    var q := TruncDiv(t, n);
    if q > hi {
      MulMono(hi, q - 1, n);
    }
  }

  /** Truncation toward zero keeps the mean at or above any lower bound of the
      values: an average of points below a pixel row stays below it. */
  lemma MeanAtLeast(s: seq<int>, lo: int)
    requires |s| > 0
    requires forall i :: 0 <= i < |s| ==> lo <= s[i]
    ensures lo <= Mean(s)
  {
    SumAtLeast(s, lo);
    TruncDivAtLeast(Sum(s), |s|, lo);
  }

  /** ... and at or below any upper bound of the values. */
  lemma MeanAtMost(s: seq<int>, hi: int)
    requires |s| > 0
    requires forall i :: 0 <= i < |s| ==> s[i] <= hi
    ensures Mean(s) <= hi
  {
    SumAtMost(s, hi);
    TruncDivAtMost(Sum(s), |s|, hi);
  }
}
