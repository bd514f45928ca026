/** Minimum, maximum, mean and population variance of a list of reals. */
module Stats {

  function Min(xs: seq<real>): (m: real)
    requires xs != []
    ensures exists i :: 0 <= i < |xs| && xs[i] == m
    ensures forall i :: 0 <= i < |xs| ==> m <= xs[i]
  {
    if |xs| == 1 then xs[0]
    else
      var m := Min(xs[1..]);
      assert forall i :: 1 <= i < |xs| ==> xs[i] == xs[1..][i - 1];
      if xs[0] < m then xs[0] else m
  }

  function Max(xs: seq<real>): (m: real)
    requires xs != []
    ensures exists i :: 0 <= i < |xs| && xs[i] == m
    ensures forall i :: 0 <= i < |xs| ==> xs[i] <= m
  {
    if |xs| == 1 then xs[0]
    else
      var m := Max(xs[1..]);
      assert forall i :: 1 <= i < |xs| ==> xs[i] == xs[1..][i - 1];
      if xs[0] > m then xs[0] else m
  }

  function Sum(xs: seq<real>): real {
    if xs == [] then 0.0 else xs[0] + Sum(xs[1..])
  }

  function Apply(f: real -> real, xs: seq<real>): (r: seq<real>)
    ensures |r| == |xs|
  {
    if xs == [] then [] else [f(xs[0])] + Apply(f, xs[1..])
  }

  function SquaredDeviation(m: real): real -> real {
    x => (x - m) * (x - m)
  }

  /** The squared deviations from m. */
  function Squares(xs: seq<real>, m: real): seq<real> {
    Apply(SquaredDeviation(m), xs)
  }

  function Mean(xs: seq<real>): real
    requires xs != []
  {
    Sum(xs) / |xs| as real
  }

  function Variance(xs: seq<real>): real
    requires xs != []
  {
    Sum(Squares(xs, Mean(xs))) / |xs| as real
  }

  /** What is assumed of the library square root. */
  ghost predicate IsSquareRoot(sqrt: real -> real) {
    forall v :: v >= 0.0 ==> sqrt(v) >= 0.0 && sqrt(v) * sqrt(v) == v
  }

  function Percent(part: nat, total: nat): real {
    if total == 0 then 0.0 else part as real / total as real * 100.0
  }

  /** q is the quotient of n by d. */
  ghost predicate IsQuotient(q: real, n: real, d: real) {
    q * d == n
  }

  /** p percent of total are part; nothing out of nothing is 0 percent. */
  ghost predicate IsPercent(p: real, part: nat, total: nat) {
    if total == 0 then p == 0.0 else IsQuotient(p, part as real * 100.0, total as real)
  }

  ghost predicate Ascending(s: seq<real>) {
    forall i, j :: 0 <= i <= j < |s| ==> s[i] <= s[j]
  }

  // ----- real arithmetic, one fact at a time -----

  lemma DivideBack(n: real, d: real, q: real)
    requires d != 0.0 && q * d == n
    ensures n / d == q
  {
  }

  lemma TimesBack(n: real, d: real)
    requires d != 0.0
    ensures (n / d) * d == n
  {
  }

  lemma QuotientIs(n: real, d: real)
    requires d != 0.0
    ensures IsQuotient(n / d, n, d)
  {
  }

  lemma PercentExactly(part: nat, total: nat)
    ensures IsPercent(Percent(part, total), part, total)
  {
    if total != 0 {
      var q, n := part as real / total as real, total as real;
      TimesBack(part as real, n);
      PercentOfQuotient(q, n, part as real);
    }
  }

  lemma PercentOfQuotient(q: real, n: real, x: real)
    requires q * n == x
    ensures IsQuotient(q * 100.0, x * 100.0, n)
  {
    Regroup(q, 100.0, n);
    Regroup(q, n, 100.0);
  }

  lemma Distribute(k: real, x: real, y: real)
    ensures k * (x + y) == k * x + k * y
    ensures k * (x - y) == k * x - k * y
  {
  }

  lemma Regroup(x: real, y: real, z: real)
    ensures (x * y) * z == x * (y * z)
  {
  }

  lemma SquareNonNegative(x: real)
    ensures x * x >= 0.0
  {
  }

  lemma ScaleOrder(a: real, x: real, y: real)
    requires a > 0.0
    ensures x <= y <==> a * x <= a * y
  {
    Distribute(a, y, x);
    if x <= y { assert a * (y - x) >= 0.0; } else { assert a * (y - x) < 0.0; }
  }

  // ----- the effect of a change of scale on each statistic -----

  /** f maps x to a*x + b. */
  ghost predicate IsAffine(f: real -> real, a: real, b: real) {
    forall x :: f(x) == a * x + b
  }

  ghost predicate KeepsOrder(f: real -> real) {
    forall x, y :: x <= y ==> f(x) <= f(y)
  }

  lemma AffineKeepsOrder(f: real -> real, a: real, b: real)
    requires IsAffine(f, a, b) && a >= 0.0
    ensures KeepsOrder(f)
  {
    forall x, y | x <= y ensures f(x) <= f(y) {
      ScaleNonNegative(a, x, y);
    }
  }

  lemma ScaleNonNegative(a: real, x: real, y: real)
    requires a >= 0.0 && x <= y
    ensures a * x <= a * y
  {
  }

  lemma {:induction false} ApplyAt(f: real -> real, xs: seq<real>, i: nat)
    requires i < |xs|
    ensures Apply(f, xs)[i] == f(xs[i])
  {
    if i > 0 {
      ApplyAt(f, xs[1..], i - 1);
    }
  }

  lemma MinOfApply(f: real -> real, xs: seq<real>)
    requires xs != [] && KeepsOrder(f)
    ensures Min(Apply(f, xs)) == f(Min(xs))
  {
    var ys := Apply(f, xs);
    var i :| 0 <= i < |xs| && xs[i] == Min(xs);
    var j :| 0 <= j < |ys| && ys[j] == Min(ys);
    ApplyAt(f, xs, i);
    ApplyAt(f, xs, j);
  }

  lemma MaxOfApply(f: real -> real, xs: seq<real>)
    requires xs != [] && KeepsOrder(f)
    ensures Max(Apply(f, xs)) == f(Max(xs))
  {
    var ys := Apply(f, xs);
    var i :| 0 <= i < |xs| && xs[i] == Max(xs);
    var j :| 0 <= j < |ys| && ys[j] == Max(ys);
    ApplyAt(f, xs, i);
    ApplyAt(f, xs, j);
  }

  /** p lists k times q plus a constant. */
  ghost predicate IsLinear(q: seq<real>, p: seq<real>, k: real, c: real) {
    |p| == |q| && (q == [] || (p[0] == k * q[0] + c && IsLinear(q[1..], p[1..], k, c)))
  }

  /** q lists the squared deviations of xs from m. */
  ghost predicate AreSquares(q: seq<real>, xs: seq<real>, m: real) {
    |q| == |xs| && (xs == [] || (q[0] == (xs[0] - m) * (xs[0] - m) && AreSquares(q[1..], xs[1..], m)))
  }

  lemma {:induction false} SquaresAreSquares(xs: seq<real>, m: real)
    ensures AreSquares(Squares(xs, m), xs, m)
  {
    if xs != [] {
      SquaresAreSquares(xs[1..], m);
      assert Squares(xs, m)[1..] == Squares(xs[1..], m);
    }
  }

  lemma {:induction false} SumLast(xs: seq<real>, x: real)
    ensures Sum(xs + [x]) == Sum(xs) + x
  {
    if xs != [] {
      assert (xs + [x])[1..] == xs[1..] + [x];
      SumLast(xs[1..], x);
    }
  }

  // The sums below are named by parameters, so that no product has a recursive call as a factor.

  lemma {:induction false} SumOfLinear(q: seq<real>, p: seq<real>, k: real, c: real, n: real, s: real)
    requires IsLinear(q, p, k, c) && n == |q| as real && s == Sum(q)
    ensures Sum(p) == k * s + n * c
  {
    if q != [] {
      SumOfLinear(q[1..], p[1..], k, c, n - 1.0, s - q[0]);
      AddTerm(k, c, q[0], s - q[0], n - 1.0);
    }
  }

  lemma AddTerm(k: real, c: real, x: real, s: real, n: real)
    ensures (k * x + c) + (k * s + n * c) == k * (x + s) + (n + 1.0) * c
  {
  }

  lemma {:induction false} ApplyIsLinear(f: real -> real, xs: seq<real>, a: real, b: real)
    requires IsAffine(f, a, b)
    ensures IsLinear(xs, Apply(f, xs), a, b)
  {
    if xs != [] {
      ApplyIsLinear(f, xs[1..], a, b);
      assert Apply(f, xs)[1..] == Apply(f, xs[1..]);
    }
  }

  lemma MeanOfApply(f: real -> real, xs: seq<real>, a: real, b: real)
    requires xs != [] && IsAffine(f, a, b)
    ensures Mean(Apply(f, xs)) == f(Mean(xs))
  {
    var s, n := Sum(xs), |xs| as real;
    ApplyIsLinear(f, xs, a, b);
    SumOfLinear(xs, Apply(f, xs), a, b, n, s);
    QuotientShift(s, n, a, b);
  }

  lemma QuotientShift(s: real, n: real, a: real, b: real)
    requires n > 0.0
    ensures (a * s + n * b) / n == a * (s / n) + b
  {
    var q := s / n;
    TimesBack(s, n);
    Regroup(a, q, n);
    Distribute(n, a * q, b);
    DivideBack(a * s + n * b, n, a * q + b);
  }

  lemma SquareOfShift(x: real, a: real, b: real, m: real, y: real, n: real, square: real)
    requires y == a * x + b && n == a * m + b && square == (x - m) * (x - m)
    ensures (y - n) * (y - n) == (a * a) * square
  {
    Distribute(a, x, m);
    SquareOfProduct(a, x - m);
  }

  lemma SquareOfProduct(a: real, d: real)
    ensures (a * d) * (a * d) == (a * a) * (d * d)
  {
    calc {
      (a * d) * (a * d);
      { Regroup(a, d, a * d); }
      a * (d * (a * d));
      { Regroup(d, a, d); }
      a * ((d * a) * d);
      { Regroup(a, d, d); }
      a * (a * (d * d));
      { Regroup(a, a, d * d); }
      (a * a) * (d * d);
    }
  }

  lemma VarianceOfApply(f: real -> real, xs: seq<real>, a: real, b: real, v: real, k: real)
    requires xs != [] && IsAffine(f, a, b) && v == Variance(xs) && k == a * a
    ensures Variance(Apply(f, xs)) == k * v
  {
    MeanOfApply(f, xs, a, b);
    SquaresSumOfApply(f, xs, a, b, Mean(xs), Sum(Squares(xs, Mean(xs))), k);
    QuotientScale(k, Sum(Squares(xs, Mean(xs))), |xs| as real);
  }

  lemma SquaresSumOfApply(f: real -> real, xs: seq<real>, a: real, b: real, m: real, q: real, k: real)
    requires IsAffine(f, a, b) && q == Sum(Squares(xs, m)) && k == a * a
    ensures Sum(Squares(Apply(f, xs), f(m))) == k * q
  {
    ApplyIsLinear(f, xs, a, b);
    SquaresAreSquares(xs, m);
    SquaresAreSquares(Apply(f, xs), f(m));
    SquaresSumOfShift(xs, Apply(f, xs), a, b, m, f(m), Squares(xs, m), Squares(Apply(f, xs), f(m)), q, k);
  }

  /** Under a*x + b every squared deviation grows by k = a*a. */
  lemma {:induction false} SquaresScale(xs: seq<real>, ys: seq<real>, a: real, b: real, m: real, n: real,
                                        q: seq<real>, p: seq<real>, k: real)
    requires IsLinear(xs, ys, a, b) && n == a * m + b && k == a * a
    requires AreSquares(q, xs, m) && AreSquares(p, ys, n)
    ensures IsLinear(q, p, k, 0.0)
  {
    if xs != [] {
      SquaresScale(xs[1..], ys[1..], a, b, m, n, q[1..], p[1..], k);
      SquareOfShift(xs[0], a, b, m, ys[0], n, q[0]);
    }
  }

  /** The sum of squared deviations grows by k = a*a under a*x + b. */
  lemma SquaresSumOfShift(xs: seq<real>, ys: seq<real>, a: real, b: real, m: real, n: real,
                          q: seq<real>, p: seq<real>, s: real, k: real)
    requires IsLinear(xs, ys, a, b) && n == a * m + b && k == a * a
    requires AreSquares(q, xs, m) && AreSquares(p, ys, n) && s == Sum(q)
    ensures Sum(p) == k * s
  {
    SquaresScale(xs, ys, a, b, m, n, q, p, k);
    SumOfLinear(q, p, k, 0.0, |q| as real, s);
  }

  lemma QuotientScale(k: real, s: real, n: real)
    requires n != 0.0
    ensures (k * s) / n == k * (s / n)
  {
    TimesBack(s, n);
    Regroup(k, s / n, n);
    DivideBack(k * s, n, k * (s / n));
  }

  lemma {:induction false} SquaresSumNonNegative(q: seq<real>, xs: seq<real>, m: real)
    requires AreSquares(q, xs, m)
    ensures Sum(q) >= 0.0
  {
    if xs != [] {
      SquaresSumNonNegative(q[1..], xs[1..], m);
      SquareNonNegative(xs[0] - m);
    }
  }

  lemma VarianceNonNegative(xs: seq<real>)
    requires xs != []
    ensures Variance(xs) >= 0.0
  {
    SquaresAreSquares(xs, Mean(xs));
    SquaresSumNonNegative(Squares(xs, Mean(xs)), xs, Mean(xs));
    QuotientNonNegative(Sum(Squares(xs, Mean(xs))), |xs| as real);
  }

  lemma SquareSign(x: real, m: real, square: real)
    requires square == (x - m) * (x - m)
    ensures square >= 0.0 && (x != m ==> square > 0.0)
  {
    var d := x - m;
    assert square == d * d;
    if d > 0.0 { PositiveProduct(d, d, square); }
    if d < 0.0 { PositiveProduct(-d, -d, square); }
  }

  lemma {:induction false} SquaresSumPositive(q: seq<real>, xs: seq<real>, m: real, i: nat)
    requires AreSquares(q, xs, m) && i < |xs| && xs[i] != m
    ensures Sum(q) > 0.0
  {
    SquareSign(xs[0], m, q[0]);
    if i == 0 {
      SquaresSumNonNegative(q[1..], xs[1..], m);
    } else {
      SquaresSumPositive(q[1..], xs[1..], m, i - 1);
    }
  }

  /** Two different values have a positive variance. */
  lemma VariancePositive(xs: seq<real>, i: nat, j: nat)
    requires i < |xs| && j < |xs| && xs[i] != xs[j]
    ensures Variance(xs) > 0.0
  {
    var m := Mean(xs);
    SquaresAreSquares(xs, m);
    SquaresSumPositive(Squares(xs, m), xs, m, if xs[i] != m then i else j);
    QuotientPositive(Sum(Squares(xs, m)), |xs| as real);
  }

  lemma QuotientPositive(s: real, n: real)
    requires s > 0.0 && n > 0.0
    ensures s / n > 0.0
  {
    TimesBack(s, n);
    QuotientNonNegative(s, n);
  }

  lemma QuotientNonNegative(s: real, n: real)
    requires s >= 0.0 && n > 0.0
    ensures s / n >= 0.0
  {
    TimesBack(s, n);
    var q := s / n;
    if q < 0.0 { NegativeProduct(n, q); }
  }

  // ----- standardized values -----

  /** z standardizes a value by m and s. */
  ghost predicate Standardizes(z: real -> real, m: real, s: real) {
    forall x :: z(x) * s == x - m
  }

  /** Standardizing by the mean m and a non-zero square root s of the variance v gives sum 0 and
      sum of squares n. */
  lemma StandardMoments(z: real -> real, xs: seq<real>, m: real, v: real, s: real, n: real)
    requires s != 0.0 && v == s * s && n == |xs| as real
    requires m * n == Sum(xs) && v * n == Sum(Squares(xs, m))
    requires Standardizes(z, m, s)
    ensures Sum(Apply(z, xs)) == 0.0 && Sum(Squares(Apply(z, xs), 0.0)) == n
  {
    var zs := Apply(z, xs);
    var p, q := Squares(zs, 0.0), Squares(xs, m);
    var t, u := Sum(zs), Sum(p);
    StandardIsLinear(z, xs, m, s);
    StandardSum(zs, xs, m, s, n, t);
    SquaresAreSquares(zs, 0.0);
    SquaresAreSquares(xs, m);
    SquareNotZero(s, v);
    StandardSquaresSum(zs, xs, m, s, v, n, p, q, u);
  }

  lemma {:induction false} StandardIsLinear(z: real -> real, xs: seq<real>, m: real, s: real)
    requires Standardizes(z, m, s)
    ensures IsLinear(Apply(z, xs), xs, s, m)
  {
    if xs != [] {
      StandardIsLinear(z, xs[1..], m, s);
      assert Apply(z, xs)[1..] == Apply(z, xs[1..]);
    }
  }

  lemma StandardSum(zs: seq<real>, xs: seq<real>, m: real, s: real, n: real, t: real)
    requires s != 0.0 && IsLinear(zs, xs, s, m) && n == |xs| as real && m * n == Sum(xs) && t == Sum(zs)
    ensures t == 0.0
  {
    SumOfLinear(zs, xs, s, m, n, t);
    ZeroProduct(t, s);
  }

  lemma StandardSquaresSum(zs: seq<real>, xs: seq<real>, m: real, s: real, v: real, n: real,
                           p: seq<real>, q: seq<real>, t: real)
    requires v != 0.0 && v == s * s && IsLinear(zs, xs, s, m)
    requires AreSquares(p, zs, 0.0) && AreSquares(q, xs, m)
    requires v * n == Sum(q) && t == Sum(p)
    ensures t == n
  {
    SquaresSumOfShift(zs, xs, s, m, 0.0, m, p, q, t, v);
    CancelFactor(t, n, v);
  }

  lemma CancelFactor(x: real, y: real, k: real)
    requires k != 0.0 && k * x == k * y
    ensures x == y
  {
    Distribute(k, x, y);
    ZeroProduct(x - y, k);
  }

  lemma MeanTimesCount(xs: seq<real>, m: real, n: real)
    requires xs != [] && m == Mean(xs) && n == |xs| as real
    ensures m * n == Sum(xs)
  {
    TimesBack(Sum(xs), n);
  }

  lemma VarianceTimesCount(xs: seq<real>, m: real, v: real, n: real)
    requires xs != [] && m == Mean(xs) && v == Variance(xs) && n == |xs| as real
    ensures v * n == Sum(Squares(xs, m))
  {
    TimesBack(Sum(Squares(xs, m)), n);
  }

  lemma ZeroProduct(x: real, k: real)
    requires k != 0.0 && x * k == 0.0
    ensures x == 0.0
  {
  }

  lemma PositiveProduct(a: real, b: real, p: real)
    requires a > 0.0 && b > 0.0 && p == a * b
    ensures p > 0.0
  {
  }

  lemma SquareNotZero(s: real, v: real)
    requires s != 0.0 && v == s * s
    ensures v != 0.0
  {
    if s > 0.0 {
      PositiveProduct(s, s, v);
    } else {
      PositiveProduct(-s, -s, v);
    }
  }

  lemma SumOfSquaresCons(x: real, xs: seq<real>)
    ensures Sum(Squares([x] + xs, 0.0)) == x * x + Sum(Squares(xs, 0.0))
  {
    assert ([x] + xs)[1..] == xs;
    assert Squares([x] + xs, 0.0)[0] == (x - 0.0) * (x - 0.0);
    assert Squares([x] + xs, 0.0)[1..] == Squares(xs, 0.0);
  }

  /** The square of a sum is at most the count times the sum of squares. */
  lemma {:induction false} CauchySchwarz(xs: seq<real>, n: real, t: real, q: real)
    requires n == |xs| as real && t == Sum(xs) && q == Sum(Squares(xs, 0.0))
    ensures t * t <= n * q
  {
    if xs != [] {
      var x := xs[0];
      assert xs == [x] + xs[1..];
      SumOfSquaresCons(x, xs[1..]);
      CauchySchwarz(xs[1..], n - 1.0, t - x, q - x * x);
      assert xs[1..] == [] ==> Squares(xs[1..], 0.0) == [];
      CauchyStep(x, t, q, n);
    }
  }

  lemma CauchyStep(x: real, t: real, q: real, n: real)
    requires (t - x) * (t - x) <= (n - 1.0) * (q - x * x)
    requires n >= 2.0 || (n == 1.0 && t == x && q == x * x)
    ensures t * t <= n * q
  {
    if n >= 2.0 {
      CrossTerm(x, t - x, q - x * x, n - 1.0);
      SquareOfSum(x, t - x, q - x * x, n - 1.0);
    }
  }

  lemma CrossTerm(x: real, t: real, q: real, n: real)
    requires n >= 1.0 && t * t <= n * q
    ensures 2.0 * (x * t) <= n * (x * x) + q
  {
    var d, e := n * x - t, n * (x * x) + q - 2.0 * (x * t);
    SquareNonNegative(d);
    SquareOfDifference(n * x, t);
    SquareOfProduct(n, x);
    Regroup(n, n, x * x);
    Regroup(n, x, t);
    Distribute(n, n * (x * x) + q, 2.0 * (x * t));
    Distribute(n, n * (x * x), q);
    assert n * (2.0 * (x * t)) == 2.0 * (n * (x * t));
    assert n * e >= 0.0;
    if e < 0.0 { NegativeProduct(n, e); }
  }

  lemma SquareOfDifference(a: real, b: real)
    ensures (a - b) * (a - b) == a * a - 2.0 * (a * b) + b * b
  {
  }

  lemma NegativeProduct(n: real, e: real)
    requires n > 0.0 && e < 0.0
    ensures n * e < 0.0
  {
  }

  lemma SquareOfSum(x: real, t: real, q: real, n: real)
    requires t * t <= n * q && 2.0 * (x * t) <= n * (x * x) + q
    ensures (x + t) * (x + t) <= (n + 1.0) * (x * x + q)
  {
    assert (x + t) * (x + t) == x * x + 2.0 * (x * t) + t * t;
    Distribute(n + 1.0, x * x, q);
    Distribute(x * x, n, 1.0);
    Distribute(q, n, 1.0);
  }

  lemma {:induction false} SumWithout(zs: seq<real>, k: nat)
    requires k < |zs|
    ensures Sum(zs) == zs[k] + Sum(zs[..k] + zs[k + 1..])
  {
    var rest := zs[..k] + zs[k + 1..];
    if k == 0 {
      assert rest == zs[1..];
    } else {
      var shorter := zs[1..][..k - 1] + zs[1..][k..];
      SumWithout(zs[1..], k - 1);
      assert rest == [zs[0]] + shorter && rest[1..] == shorter;
    }
  }

  lemma {:induction false} SumOfSquaresWithout(zs: seq<real>, k: nat, z: real)
    requires k < |zs| && z == zs[k]
    ensures Sum(Squares(zs, 0.0)) == z * z + Sum(Squares(zs[..k] + zs[k + 1..], 0.0))
  {
    var rest := zs[..k] + zs[k + 1..];
    assert zs == [zs[0]] + zs[1..];
    SumOfSquaresCons(zs[0], zs[1..]);
    if k == 0 {
      assert rest == zs[1..];
    } else {
      var shorter := zs[1..][..k - 1] + zs[1..][k..];
      SumOfSquaresWithout(zs[1..], k - 1, z);
      assert rest == [zs[0]] + shorter;
      SumOfSquaresCons(zs[0], shorter);
    }
  }

  /** When n values sum to 0 and their squares to n, no square exceeds n - 1. */
  lemma StandardBound(zs: seq<real>, k: nat, n: real, z: real)
    requires k < |zs| && n == |zs| as real && Sum(zs) == 0.0 && Sum(Squares(zs, 0.0)) == n && z == zs[k]
    ensures z * z <= n - 1.0
  {
    var rest := zs[..k] + zs[k + 1..];
    SumWithout(zs, k);
    SumOfSquaresWithout(zs, k, z);
    RestBound(z, rest, Sum(rest), Sum(Squares(rest, 0.0)), n);
  }

  lemma RestBound(z: real, rest: seq<real>, t: real, q: real, n: real)
    requires n == |rest| as real + 1.0 && t == Sum(rest) && q == Sum(Squares(rest, 0.0))
    requires z + t == 0.0 && z * z + q == n
    ensures z * z <= n - 1.0
  {
    CauchySchwarz(rest, n - 1.0, t, q);
    BoundFromRest(z, t, q, n);
  }

  lemma BoundFromRest(z: real, t: real, q: real, n: real)
    requires n >= 1.0 && z + t == 0.0 && z * z + q == n && t * t <= (n - 1.0) * q
    ensures z * z <= n - 1.0
  {
    var y := z * z;
    assert t == -z;
    assert t * t == y;
    Distribute(n - 1.0, n, y);
    Distribute(y, n, 1.0);
    assert n * y <= n * (n - 1.0);
    ScaleOrder(n, y, n - 1.0);
  }
}
