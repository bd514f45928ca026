/** Interpolated percentiles, as the latency summaries use them. */
module Percentiles {
  import opened Prelude
  import opened Sorting
  import opened Stats

  predicate Less(x: real, y: real) { x < y }

  function Sorted(values: seq<real>): seq<real> {
    StableSort(values, Less)
  }

  /** The fractional position of the percentile among n ordered values. */
  function Position(n: nat, pct: int): real
    requires n > 0
  {
    (n - 1) as real * (pct as real / 100.0)
  }

  function Mix(x: real, y: real, v: real, w: real): real {
    x * v + y * w
  }

  /** The value at a fractional position, between its two neighbours. */
  function Interpolate(ordered: seq<real>, index: real): real
    requires 0.0 <= index <= (|ordered| - 1) as real
  {
    var lower := index.Floor;
    var upper := if lower + 1 < |ordered| - 1 then lower + 1 else |ordered| - 1;
    if lower == upper then ordered[lower]
    else
      var weight := index - lower as real;
      Mix(ordered[lower], ordered[upper], 1.0 - weight, weight)
  }

  function Percentile(values: seq<real>, pct: int): real {
    if values == [] then 0.0
    else if pct <= 0 then Min(values)
    else if pct >= 100 then Max(values)
    else
      SortedFacts(values);
      PositionInRange(|values|, pct);
      Interpolate(Sorted(values), Position(|values|, pct))
  }

  lemma PositionInRange(n: nat, pct: int)
    requires n > 0 && 0 <= pct <= 100
    ensures 0.0 <= Position(n, pct) <= (n - 1) as real
  {
    var top, f := (n - 1) as real, pct as real / 100.0;
    assert 0.0 <= f <= 1.0;
    ScaleNonNegative(top, 0.0, f);
    ScaleNonNegative(top, f, 1.0);
  }

  lemma PositionGrows(n: nat, p: int, q: int)
    requires n > 0 && p <= q
    ensures Position(n, p) <= Position(n, q)
  {
    ScaleNonNegative((n - 1) as real, p as real / 100.0, q as real / 100.0);
  }

  // ----- ordered lists -----

  ghost predicate Below(s: seq<real>, t: seq<real>) {
    |s| == |t| && forall i :: 0 <= i < |s| ==> s[i] <= t[i]
  }

  lemma {:induction false} InsertAscends(x: real, s: seq<real>)
    requires Ascending(s)
    ensures Ascending(Insert(x, s, Less))
    ensures |Insert(x, s, Less)| == |s| + 1
    ensures forall y :: y in Insert(x, s, Less) ==> y == x || y in s
  {
    if s != [] && Less(s[0], x) {
      InsertAscends(x, s[1..]);
      var rest := Insert(x, s[1..], Less);
      forall i | 0 <= i < |rest| ensures s[0] <= rest[i] {
        assert rest[i] in rest;
      }
    }
  }

  lemma {:induction false} SortedFacts(values: seq<real>)
    ensures Ascending(Sorted(values)) && |Sorted(values)| == |values|
    ensures forall x :: x in Sorted(values) <==> x in values
  {
    if values != [] {
      SortedFacts(values[1..]);
      InsertAscends(values[0], Sorted(values[1..]));
    }
    StableSortElements(values, Less);
  }

  /** Inserting into ordered lists, one below the other, keeps them so. */
  lemma {:induction false} InsertKeepsBelow(x: real, s: seq<real>, y: real, t: seq<real>)
    requires x <= y && Below(s, t) && Ascending(s) && Ascending(t)
    ensures Below(Insert(x, s, Less), Insert(y, t, Less))
    decreases |s|
  {
    if s != [] {
      if s[0] < x && t[0] < y {
        InsertKeepsBelow(x, s[1..], y, t[1..]);
      } else if s[0] < x {
        InsertKeepsBelow(x, s[1..], t[0], t[1..]);
        InsertFirst(t[0], t[1..]);
      } else if t[0] < y {
        InsertKeepsBelow(s[0], s[1..], y, t[1..]);
        InsertFirst(s[0], s[1..]);
      }
    }
  }

  lemma InsertFirst(x: real, s: seq<real>)
    requires s == [] || x <= s[0]
    ensures Insert(x, s, Less) == [x] + s
  {
  }

  lemma {:induction false} SortedKeepsBelow(xs: seq<real>, ys: seq<real>)
    requires Below(xs, ys)
    ensures Below(Sorted(xs), Sorted(ys))
  {
    if xs != [] {
      SortedKeepsBelow(xs[1..], ys[1..]);
      SortedFacts(xs[1..]);
      SortedFacts(ys[1..]);
      InsertKeepsBelow(xs[0], Sorted(xs[1..]), ys[0], Sorted(ys[1..]));
    }
  }

  // ----- interpolation -----

  lemma ScaleRight(x: real, u: real, c: real)
    requires x <= u && c >= 0.0
    ensures x * c <= u * c
  {
    ScaleNonNegative(c, x, u);
  }

  lemma MixMonotone(x: real, y: real, x': real, y': real, v: real, w: real)
    requires x <= x' && y <= y' && v >= 0.0 && w >= 0.0
    ensures Mix(x, y, v, w) <= Mix(x', y', v, w)
  {
    ScaleRight(x, x', v);
    ScaleRight(y, y', w);
  }

  lemma MixBounds(x: real, y: real, v: real, w: real)
    requires x <= y && v >= 0.0 && w >= 0.0 && v + w == 1.0
    ensures x <= Mix(x, y, v, w) <= y
  {
    MixMonotone(x, x, x, y, v, w);
    MixMonotone(x, y, y, y, v, w);
    Distribute(x, v, w);
    Distribute(y, v, w);
  }

  lemma MixGrows(x: real, y: real, v: real, w: real, v': real, w': real)
    requires x <= y && v + w == 1.0 && v' + w' == 1.0 && w <= w'
    ensures Mix(x, y, v, w) <= Mix(x, y, v', w')
  {
    var d := w' - w;
    ScaleRight(x, y, d);
    Distribute(x, v', d);
    Distribute(y, w, d);
  }

  lemma MixAffine(a: real, b: real, x: real, y: real, v: real, w: real, r: real, x': real, y': real)
    requires v + w == 1.0 && r == Mix(x, y, v, w) && x' == a * x + b && y' == a * y + b
    ensures Mix(x', y', v, w) == a * r + b
  {
    calc {
      Mix(x', y', v, w);
      (a * x + b) * v + (a * y + b) * w;
      a * x * v + a * y * w + b * (v + w);
      a * (x * v + y * w) + b;
    }
  }

  /** The value lies between the elements around the position. */
  lemma InterpolateBetween(s: seq<real>, index: real, lower: int)
    requires Ascending(s) && 0.0 <= index <= (|s| - 1) as real && lower == index.Floor
    ensures 0 <= lower < |s| && s[lower] <= Interpolate(s, index)
    ensures Interpolate(s, index) <= s[if lower + 1 < |s| then lower + 1 else lower]
  {
    if lower + 1 < |s| {
      MixBounds(s[lower], s[lower + 1], 1.0 - (index - lower as real), index - lower as real);
    }
  }

  lemma InterpolateGrows(s: seq<real>, i: real, j: real)
    requires Ascending(s) && 0.0 <= i <= j <= (|s| - 1) as real
    ensures Interpolate(s, i) <= Interpolate(s, j)
  {
    var p, q := i.Floor, j.Floor;
    if p == q {
      if p + 1 < |s| {
        MixGrows(s[p], s[p + 1], 1.0 - (i - p as real), i - p as real, 1.0 - (j - p as real), j - p as real);
      }
    } else {
      assert p < q;
      InterpolateBetween(s, i, p);
      InterpolateBetween(s, j, q);
    }
  }

  lemma InterpolateMonotone(s: seq<real>, t: seq<real>, index: real)
    requires Below(s, t) && 0.0 <= index <= (|s| - 1) as real
    ensures Interpolate(s, index) <= Interpolate(t, index)
  {
    var lower := index.Floor;
    if lower + 1 < |s| {
      var w := index - lower as real;
      MixMonotone(s[lower], s[lower + 1], t[lower], t[lower + 1], 1.0 - w, w);
    }
  }

  // ----- the value in whole hundredths -----

  /** A hundred times r is (100 - rem) parts of the value at lo and rem parts of the next, where k = 100 * lo + rem. */
  ghost predicate Weighs(r: real, s: seq<real>, k: nat) {
    var lo, rem := k / 100, k % 100;
    && lo < |s| && (rem > 0 ==> lo + 1 < |s|)
    && 100.0 * r == (100 - rem) as real * s[lo] + (if rem > 0 then rem as real * s[lo + 1] else 0.0)
  }

  ghost predicate IsSorted(values: seq<real>, s: seq<real>) {
    Ascending(s) && multiset(s) == multiset(values)
  }

  /** The percentile by its ordered values: n - 1 gaps, of which pct percent lie below it. */
  ghost predicate IsPercentile(r: real, values: seq<real>, pct: int) {
    var p := if pct < 0 then 0 else if pct > 100 then 100 else pct;
    if values == [] then r == 0.0 else exists s :: IsSorted(values, s) && Weighs(r, s, (|values| - 1) * p)
  }

  lemma {:induction false} RealProduct(a: nat, b: int)
    ensures a as real * b as real == (a * b) as real
  {
    if a > 0 { RealProduct(a - 1, b); }
  }

  lemma PositionInHundredths(n: nat, pct: nat)
    requires n > 0
    ensures Position(n, pct) * 100.0 == ((n - 1) * pct) as real
  {
    RealProduct(n - 1, pct);
    TimesBack(pct as real, 100.0);
    Regroup((n - 1) as real, pct as real / 100.0, 100.0);
  }

  lemma FloorOfHundredths(x: real, k: nat)
    requires x * 100.0 == k as real
    ensures x.Floor == k / 100 && (x - x.Floor as real) * 100.0 == (k % 100) as real
  {
    var lo, rem := k / 100, k % 100;
    assert k == 100 * lo + rem;
    assert k as real == 100.0 * lo as real + rem as real;
  }

  lemma MixInHundredths(x: real, y: real, w: real, rem: real)
    requires w * 100.0 == rem
    ensures 100.0 * Mix(x, y, 1.0 - w, w) == (100.0 - rem) * x + rem * y
  {
  }

  lemma InterpolateInHundredths(s: seq<real>, index: real, k: nat)
    requires 0.0 <= index <= (|s| - 1) as real && index * 100.0 == k as real
    ensures Weighs(Interpolate(s, index), s, k)
  {
    FloorOfHundredths(index, k);
    var lo := k / 100;
    if lo + 1 < |s| {
      MixInHundredths(s[lo], s[lo + 1], index - lo as real, (k % 100) as real);
    }
  }

  lemma PercentileExactly(values: seq<real>, pct: int)
    ensures IsPercentile(Percentile(values, pct), values, pct)
  {
    if values != [] {
      var p := if pct < 0 then 0 else if pct > 100 then 100 else pct;
      PercentileIsClamped(values, pct);
      StableSortMultiset(values, Less);
      PositionInHundredths(|values|, p);
      InterpolateInHundredths(Sorted(values), Position(|values|, p), (|values| - 1) * p);
      assert IsSorted(values, Sorted(values));
    }
  }

  // ----- the properties of percentile -----

  lemma MinMaxOfSorted(values: seq<real>)
    requires values != []
    ensures |Sorted(values)| == |values|
    ensures Sorted(values)[0] == Min(values)
    ensures Sorted(values)[|values| - 1] == Max(values)
  {
    var s := Sorted(values);
    SortedFacts(values);
    assert s[0] in values && s[|s| - 1] in values;
    assert Min(values) in s && Max(values) in s;
  }

  /** All four branches are one rule: interpolate at the position, clamped to the ends. */
  lemma PercentileIsClamped(values: seq<real>, pct: int)
    requires values != []
    ensures var p := if pct < 0 then 0 else if pct > 100 then 100 else pct;
            && Ascending(Sorted(values)) && |Sorted(values)| == |values|
            && 0.0 <= Position(|values|, p) <= (|values| - 1) as real
            && Percentile(values, pct) == Interpolate(Sorted(values), Position(|values|, p))
  {
    SortedFacts(values);
    MinMaxOfSorted(values);
    var p := if pct < 0 then 0 else if pct > 100 then 100 else pct;
    PositionInRange(|values|, p);
    if p == 100 {
      assert Position(|values|, p) == (|values| - 1) as real;
    }
  }

  /** Slower everywhere is never faster at any percentile. */
  lemma PercentileDominance(xs: seq<real>, ys: seq<real>, pct: int)
    requires Below(xs, ys)
    ensures Percentile(xs, pct) <= Percentile(ys, pct)
  {
    if xs != [] {
      PercentileIsClamped(xs, pct);
      PercentileIsClamped(ys, pct);
      SortedKeepsBelow(xs, ys);
      var p := if pct < 0 then 0 else if pct > 100 then 100 else pct;
      InterpolateMonotone(Sorted(xs), Sorted(ys), Position(|xs|, p));
    }
  }

  lemma PercentileMonotone(values: seq<real>, p: int, q: int)
    requires p <= q
    ensures Percentile(values, p) <= Percentile(values, q)
  {
    if values != [] {
      PercentileIsClamped(values, p);
      PercentileIsClamped(values, q);
      var p' := if p < 0 then 0 else if p > 100 then 100 else p;
      var q' := if q < 0 then 0 else if q > 100 then 100 else q;
      PositionGrows(|values|, p', q');
      InterpolateGrows(Sorted(values), Position(|values|, p'), Position(|values|, q'));
    }
  }

  /** The order in which the samples arrived does not matter. */
  lemma PercentileOfPermutation(xs: seq<real>, ys: seq<real>, pct: int)
    requires multiset(xs) == multiset(ys)
    ensures Percentile(xs, pct) == Percentile(ys, pct)
  {
    assert |multiset(xs)| == |xs| && |multiset(ys)| == |ys|;
    if xs != [] {
      PercentileIsClamped(xs, pct);
      PercentileIsClamped(ys, pct);
      StableSortMultiset(xs, Less);
      StableSortMultiset(ys, Less);
      OrderedUnique(Sorted(xs), Sorted(ys), (x, y) => x <= y);
    }
  }

  lemma PercentileInRange(values: seq<real>, pct: int)
    requires values != []
    ensures Min(values) <= Percentile(values, pct) <= Max(values)
  {
    PercentileMonotone(values, if pct < 0 then pct else 0, pct);
    PercentileMonotone(values, pct, if pct > 100 then pct else 100);
  }

  lemma ApplyAscends(f: real -> real, s: seq<real>)
    requires KeepsOrder(f) && Ascending(s)
    ensures Ascending(Apply(f, s))
  {
    forall i, j | 0 <= i <= j < |s| ensures Apply(f, s)[i] <= Apply(f, s)[j] {
      ApplyAt(f, s, i);
      ApplyAt(f, s, j);
    }
  }

  lemma {:induction false} InsertApply(f: real -> real, x: real, s: seq<real>)
    requires KeepsOrder(f) && Ascending(s)
    ensures Apply(f, Insert(x, s, Less)) == Insert(f(x), Apply(f, s), Less)
  {
    if s != [] && Less(s[0], x) {
      InsertApply(f, x, s[1..]);
      if !Less(f(s[0]), f(x)) {
        ApplyAscends(f, s);
        InsertFirst(f(x), Apply(f, s[1..]));
      }
    }
  }

  lemma {:induction false} SortedApply(f: real -> real, values: seq<real>)
    requires KeepsOrder(f)
    ensures Sorted(Apply(f, values)) == Apply(f, Sorted(values))
  {
    if values != [] {
      SortedApply(f, values[1..]);
      SortedFacts(values[1..]);
      InsertApply(f, values[0], Sorted(values[1..]));
    }
  }

  lemma AffineAt(f: real -> real, a: real, b: real, s: seq<real>, i: nat)
    requires IsAffine(f, a, b) && i < |s|
    ensures Apply(f, s)[i] == a * s[i] + b
  {
    ApplyAt(f, s, i);
  }

  lemma InterpolateMapped(a: real, b: real, s: seq<real>, t: seq<real>, index: real, lower: int, r: real, r': real)
    requires 0.0 <= index <= (|s| - 1) as real && lower == index.Floor && |t| == |s|
    requires r == Interpolate(s, index) && r' == a * r + b
    requires t[lower] == a * s[lower] + b && (lower + 1 < |s| ==> t[lower + 1] == a * s[lower + 1] + b)
    ensures Interpolate(t, index) == r'
  {
    if lower + 1 < |s| {
      var w := index - lower as real;
      MixAffine(a, b, s[lower], s[lower + 1], 1.0 - w, w, r, t[lower], t[lower + 1]);
    }
  }

  lemma InterpolateAffine(f: real -> real, a: real, b: real, s: seq<real>, index: real, r: real, r': real)
    requires IsAffine(f, a, b) && 0.0 <= index <= (|s| - 1) as real && r == Interpolate(s, index) && r' == a * r + b
    ensures Interpolate(Apply(f, s), index) == r'
  {
    var lower := index.Floor;
    AffineAt(f, a, b, s, lower);
    if lower + 1 < |s| {
      AffineAt(f, a, b, s, lower + 1);
    }
    InterpolateMapped(a, b, s, Apply(f, s), index, lower, r, r');
  }

  lemma PercentileScales(f: real -> real, a: real, b: real, values: seq<real>, pct: int, r: real)
    requires IsAffine(f, a, b) && a >= 0.0 && values != [] && r == Percentile(values, pct)
    ensures Percentile(Apply(f, values), pct) == a * r + b
  {
    AffineKeepsOrder(f, a, b);
    SortedApply(f, values);
    PercentileIsClamped(values, pct);
    PercentileIsClamped(Apply(f, values), pct);
    var p := if pct < 0 then 0 else if pct > 100 then 100 else pct;
    InterpolateAffine(f, a, b, Sorted(values), Position(|values|, p), r, a * r + b);
  }

  /** A change of unit carries through, except that an empty list reports 0.0 in every unit. */
  lemma PercentileAffine(f: real -> real, a: real, b: real, values: seq<real>, pct: int, r: real)
    requires IsAffine(f, a, b) && a >= 0.0 && r == Percentile(values, pct)
    ensures Percentile(Apply(f, values), pct) == a * r + b <==> values != [] || b == 0.0
  {
    if values != [] {
      PercentileScales(f, a, b, values, pct, r);
    }
  }
}
