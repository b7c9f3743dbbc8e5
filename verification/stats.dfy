/** The statistics layer (utils.py `Statistics.calculate_statistics`): a
    sequence of per-attempt values reduced to a mean and a sample standard
    deviation. Metric values are `real`s; `math.sqrt` is passed in as `sqrt`
    and characterised only by `IsSqrt`. */
module Stats {

  /** One `{"mean": ..., "stddev": ...}` record. */
  datatype Stat = Stat(mean: real, stddev: real)

  /** The three metric summaries analyze.py reads per file size. */
  datatype Metrics = Metrics(transferTime: Stat, throughput: Stat, overheadRatio: Stat)

  /** The product of two reals. Squares and other products of unknowns are
      written with `Mul`, so that the sign facts below are proved once about
      a product of two independent factors and then reused. */
  function Mul(a: real, b: real): real {
    a * b
  }

  lemma MulPositive(a: real, b: real)
    requires 0.0 < a && 0.0 < b
    ensures 0.0 < Mul(a, b)
  {
  }

  lemma MulOfNegatives(a: real, b: real)
    requires a < 0.0 && b < 0.0
    ensures 0.0 < Mul(a, b)
  {
  }

  lemma MulByZero(a: real, b: real)
    requires a == 0.0
    ensures Mul(a, b) == 0.0
  {
  }

  /** A square is positive exactly for a non-zero base. */
  lemma SquarePositive(d: real)
    requires d != 0.0
    ensures 0.0 < Mul(d, d)
  {
    if d > 0.0 {
      MulPositive(d, d);
    } else {
      MulOfNegatives(d, d);
    }
  }

  lemma SquareNonNegative(d: real)
    ensures 0.0 <= Mul(d, d)
  {
    if d != 0.0 {
      SquarePositive(d);
    } else {
      MulByZero(d, d);
    }
  }

  /** Squaring is strictly increasing on the non-negative reals. */
  lemma SquareIncreasing(a: real, b: real)
    requires 0.0 <= a < b
    ensures Mul(a, a) < Mul(b, b)
  {
    assert Mul(b, b) - Mul(a, a) == Mul(b - a, b + a);
    MulPositive(b - a, b + a);
  }

  /** `sqrt` returns a non-negative square root of every non-negative real,
      as `math.sqrt` does. */
  ghost predicate IsSqrt(sqrt: real -> real) {
    forall x :: 0.0 <= x ==> 0.0 <= sqrt(x) && Mul(sqrt(x), sqrt(x)) == x
  }

  /** The root of zero is zero. */
  lemma {:induction false} RootOfZero(sqrt: real -> real)
    requires IsSqrt(sqrt)
    ensures sqrt(0.0) == 0.0
  {
    var s := sqrt(0.0);
    assert Mul(s, s) == 0.0;
    if s != 0.0 {
      SquarePositive(s);
    }
  }

  /** The root of a positive number is positive. */
  lemma {:induction false} RootOfPositive(sqrt: real -> real, v: real)
    requires IsSqrt(sqrt)
    requires 0.0 < v
    ensures 0.0 < sqrt(v)
  {
    var s := sqrt(v);
    assert Mul(s, s) == v;
    if s == 0.0 {
      MulByZero(s, s);
    }
  }

  /** The root of `s²` is `s` itself for every `s >= 0`: the root is unique. */
  lemma {:induction false} RootOfSquare(sqrt: real -> real, s: real)
    requires IsSqrt(sqrt)
    requires 0.0 <= s
    ensures sqrt(Mul(s, s)) == s
  {
    SquareNonNegative(s);
    var r := sqrt(Mul(s, s));
    assert 0.0 <= r && Mul(r, r) == Mul(s, s);
    if r < s {
      SquareIncreasing(r, s);
    } else if s < r {
      SquareIncreasing(s, r);
    }
  }

  function Sum(xs: seq<real>): real {
    if |xs| == 0 then 0.0 else xs[0] + Sum(xs[1..])
  }

  function SumSq(xs: seq<real>): real {
    if |xs| == 0 then 0.0 else Mul(xs[0], xs[0]) + SumSq(xs[1..])
  }

  /** A sum of squares is never negative. */
  lemma {:induction false} SumSqNonNegative(xs: seq<real>)
    ensures 0.0 <= SumSq(xs)
  {
    if |xs| > 0 {
      SquareNonNegative(xs[0]);
      SumSqNonNegative(xs[1..]);
    }
  }

  /** Sum of squared deviations from `m`: `Σ (x − m)²`. */
  function SumSqDev(xs: seq<real>, m: real): (r: real)
    ensures 0.0 <= r
  {
    if |xs| == 0 then 0.0
    else
      SquareNonNegative(xs[0] - m);
      Mul(xs[0] - m, xs[0] - m) + SumSqDev(xs[1..], m)
  }

  /** The arithmetic mean `Σ x / n` of a non-empty list. */
  function Average(xs: seq<real>): (m: real)
    requires |xs| > 0
    ensures m * |xs| as real == Sum(xs)
  {
    Sum(xs) / |xs| as real
  }

  /** An average lies between the smallest and the largest value. */
  lemma AverageWithinBounds(xs: seq<real>, lo: real, hi: real)
    requires |xs| > 0
    requires forall i :: 0 <= i < |xs| ==> lo <= xs[i] <= hi
    ensures lo <= Average(xs) <= hi
  {
    SumBounds(xs, lo, hi);
    var n, m := |xs| as real, Average(xs);
    assert m * n == Sum(xs);
  }

  /** The root mean square `sqrt(Σ x² / n)` of a non-empty list. */
  function RootMeanSquare(xs: seq<real>, sqrt: real -> real): (r: real)
    requires |xs| > 0
    ensures IsSqrt(sqrt) ==> 0.0 <= r && Mul(r, r) == SumSq(xs) / |xs| as real
  {
    SumSqNonNegative(xs);
    sqrt(SumSq(xs) / |xs| as real)
  }

  /** `calculate_statistics(values)`: mean `sum/n`; sample standard deviation
      with an `n - 1` denominator, `0` for a single value; `{0, 0}` for none. */
  function Calculate(xs: seq<real>, sqrt: real -> real): (r: Stat)
    ensures |xs| == 0 ==> r == Stat(0.0, 0.0)
    ensures |xs| > 0 ==> r.mean * |xs| as real == Sum(xs)
    ensures |xs| == 1 ==> r == Stat(xs[0], 0.0)
    ensures IsSqrt(sqrt) ==> 0.0 <= r.stddev
    ensures IsSqrt(sqrt) && |xs| > 1 ==>
      Mul(r.stddev, r.stddev) * (|xs| as real - 1.0) == SumSqDev(xs, r.mean)
  {
    if |xs| == 0 then Stat(0.0, 0.0)
    else
      var n := |xs| as real;
      var m := Sum(xs) / n;
      if |xs| > 1 then
        var variance := SumSqDev(xs, m) / (n - 1.0);
        Stat(m, sqrt(variance))
      else
        assert Sum(xs) == xs[0];
        Stat(m, 0.0)
  }

  /** `n * lo <= Sum(xs) <= n * hi` when every value lies in `[lo, hi]`. */
  lemma {:induction false} SumBounds(xs: seq<real>, lo: real, hi: real)
    requires forall i :: 0 <= i < |xs| ==> lo <= xs[i] <= hi
    ensures |xs| as real * lo <= Sum(xs) <= |xs| as real * hi
  {
    if |xs| > 0 {
      SumBounds(xs[1..], lo, hi);
    }
  }

  /** A mean lies between the smallest and the largest value. */
  lemma {:induction false} MeanWithinBounds(xs: seq<real>, lo: real, hi: real, sqrt: real -> real)
    requires |xs| > 0
    requires forall i :: 0 <= i < |xs| ==> lo <= xs[i] <= hi
    ensures lo <= Calculate(xs, sqrt).mean <= hi
  {
    AverageWithinBounds(xs, lo, hi);
    assert Calculate(xs, sqrt).mean == Average(xs);
  }

  /** Every value equal to `c` makes the sum `n * c`. */
  lemma {:induction false} SumOfConstant(xs: seq<real>, c: real)
    requires forall i :: 0 <= i < |xs| ==> xs[i] == c
    ensures Sum(xs) == |xs| as real * c
  {
    if |xs| > 0 {
      SumOfConstant(xs[1..], c);
    }
  }

  /** The squared deviations vanish exactly when every value equals `m`. */
  lemma {:induction false} SumSqDevZero(xs: seq<real>, m: real)
    ensures SumSqDev(xs, m) == 0.0 <==> forall i :: 0 <= i < |xs| ==> xs[i] == m
  {
    if |xs| > 0 {
      SumSqDevZero(xs[1..], m);
      var d := xs[0] - m;
      if d != 0.0 {
        SquarePositive(d);
      } else {
        MulByZero(d, d);
      }
      assert forall i :: 1 <= i < |xs| ==> xs[i] == xs[1..][i - 1];
    }
  }

  /** With two or more values the standard deviation is 0 exactly when all
      values are equal. */
  lemma {:induction false} ZeroStddevIffConstant(xs: seq<real>, sqrt: real -> real)
    requires IsSqrt(sqrt)
    requires |xs| > 1
    ensures Calculate(xs, sqrt).stddev == 0.0 <==> forall i :: 0 <= i < |xs| ==> xs[i] == xs[0]
  {
    var r := Calculate(xs, sqrt);
    var n := |xs| as real;
    SumSqDevZero(xs, r.mean);
    if r.stddev == 0.0 {
      MulByZero(r.stddev, r.stddev);
      assert SumSqDev(xs, r.mean) == 0.0;
    } else {
      SquarePositive(r.stddev);
      MulPositive(Mul(r.stddev, r.stddev), n - 1.0);
      assert SumSqDev(xs, r.mean) != 0.0;
      if forall i :: 0 <= i < |xs| ==> xs[i] == xs[0] {
        SumOfConstant(xs, xs[0]);
        assert r.mean * n == n * xs[0];
        assert r.mean == xs[0];
      }
    }
  }

  /** The sum of squared deviations from any `m` expanded:
      `Σx² − 2·m·Σx + n·m²`. */
  lemma {:induction false} SumSqDevExpanded(xs: seq<real>, m: real)
    ensures SumSqDev(xs, m) == SumSq(xs) - 2.0 * Mul(m, Sum(xs)) + Mul(|xs| as real, Mul(m, m))
  {
    if |xs| > 0 {
      var x, t := xs[0], xs[1..];
      SumSqDevExpanded(t, m);
      assert SumSqDev(xs, m) == Mul(x - m, x - m) + SumSqDev(t, m);
      assert SumSq(xs) == Mul(x, x) + SumSq(t);
      assert Sum(xs) == x + Sum(t);
      ExpandStep(x, m, Sum(t), SumSq(t), |t| as real);
    } else {
      assert Mul(m, 0.0) == 0.0 && Mul(0.0, Mul(m, m)) == 0.0;
    }
  }

  /** One step of the expansion, as a polynomial identity. */
  lemma ExpandStep(x: real, m: real, s: real, q: real, n: real)
    ensures Mul(x - m, x - m) + (q - 2.0 * Mul(m, s) + Mul(n, Mul(m, m)))
         == (Mul(x, x) + q) - 2.0 * Mul(m, x + s) + Mul(n + 1.0, Mul(m, m))
  {
    var a := Mul(m, m);
    assert Mul(x - m, x - m) == Mul(x, x) - 2.0 * Mul(m, x) + a;
    assert Mul(m, x + s) == Mul(m, x) + Mul(m, s);
    assert Mul(n + 1.0, a) == Mul(n, a) + a;
  }

  /** The textbook shortcut: `stddev² · (n − 1) == Σx² − n · mean²`, an
      independent formula for the same sample variance. */
  lemma {:induction false} VarianceShortcut(xs: seq<real>, sqrt: real -> real)
    requires IsSqrt(sqrt)
    requires |xs| > 1
    ensures var r := Calculate(xs, sqrt);
      Mul(r.stddev, r.stddev) * (|xs| as real - 1.0) == SumSq(xs) - |xs| as real * Mul(r.mean, r.mean)
  {
    var r := Calculate(xs, sqrt);
    var n, m, v := |xs| as real, r.mean, Mul(r.stddev, r.stddev);
    var total, q, ssd := Sum(xs), SumSq(xs), SumSqDev(xs, r.mean);
    assert ssd == q - 2.0 * Mul(m, total) + Mul(n, Mul(m, m)) by {
      SumSqDevExpanded(xs, m);
    }
    assert v * (n - 1.0) == ssd && m * n == total;
    ShortcutAlgebra(v, n, m, total, q, ssd);
  }

  /** The algebra behind the shortcut: with `total = m·n` the cross term
      `2·m·total` is `2·n·m²`. */
  lemma ShortcutAlgebra(v: real, n: real, m: real, total: real, q: real, ssd: real)
    requires v * (n - 1.0) == ssd
    requires ssd == q - 2.0 * Mul(m, total) + Mul(n, Mul(m, m))
    requires m * n == total
    ensures v * (n - 1.0) == q - n * Mul(m, m)
  {
    assert Mul(m, total) == Mul(n, Mul(m, m));
  }
}
