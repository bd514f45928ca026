/** Reservoir sampling, and the exact count behind "every sample is equally likely". */
module Reservoir {
  import opened Prelude

  // ----- the sampler -----

  /** Row k+t is offered a slot drawn from 0..k+t inclusive. */
  ghost predicate DrawsFit(k: nat, draws: seq<nat>) {
    forall t :: 0 <= t < |draws| ==> draws[t] <= k + t
  }

  function Identity(k: nat): (r: seq<nat>)
    ensures |r| == k && forall i :: 0 <= i < k ==> r[i] == i
  {
    seq(k, i => i)
  }

  /** The row position in each slot after the rows k, k+1, ... have been offered with these draws. */
  function Slots(k: nat, draws: seq<nat>): (r: seq<nat>)
    ensures |r| == k
  {
    if draws == [] then Identity(k)
    else
      var before, row, j := Slots(k, draws[..|draws| - 1]), k + |draws| - 1, draws[|draws| - 1];
      if j < k then before[j := row] else before
  }

  /** What slot j holds in the end: the last row drawn into it, or row j if none was. */
  ghost predicate DrawnInto(k: nat, draws: seq<nat>, j: nat, row: nat) {
    || (row == j && forall t :: 0 <= t < |draws| ==> draws[t] != j)
    || (k <= row < k + |draws| && draws[row - k] == j && forall t :: row - k < t < |draws| ==> draws[t] != j)
  }

  lemma {:induction false} SlotsExactly(k: nat, draws: seq<nat>, j: nat, row: nat)
    requires j < k
    ensures Slots(k, draws)[j] == row <==> DrawnInto(k, draws, j, row)
  {
    if draws != [] {
      var init, last := draws[..|draws| - 1], |draws| - 1;
      SlotsExactly(k, init, j, row);
      assert forall t :: 0 <= t < last ==> init[t] == draws[t];
    }
  }

  /** Each of the k slots has kept its row. */
  ghost predicate Sampled<T>(rows: seq<T>, k: nat, draws: seq<nat>, sample: seq<T>) {
    |sample| == k && forall j :: 0 <= j < k ==> SlotKept(rows, k, draws, sample, j)
  }

  ghost predicate SlotKept<T>(rows: seq<T>, k: nat, draws: seq<nat>, sample: seq<T>, j: nat)
    requires j < |sample|
  {
    exists row: nat :: RowKept(rows, k, draws, sample, j, row)
  }

  ghost predicate RowKept<T>(rows: seq<T>, k: nat, draws: seq<nat>, sample: seq<T>, j: nat, row: nat)
    requires j < |sample|
  {
    row < |rows| && DrawnInto(k, draws, j, row) && sample[j] == rows[row]
  }

  lemma SampledExactly<T>(rows: seq<T>, k: nat, draws: seq<nat>, sample: seq<T>)
    requires HoldsSlots(rows, sample, Slots(k, draws))
    ensures Sampled(rows, k, draws, sample)
  {
    forall j | 0 <= j < k ensures SlotKept(rows, k, draws, sample, j) {
      var row := Slots(k, draws)[j];
      SlotsExactly(k, draws, j, row);
      assert RowKept(rows, k, draws, sample, j, row);
    }
  }

  /** The sampler; draws holds the results of randint(0, i), in order. */
  method SampleReservoir<T>(rows: seq<T>, maxQueries: Option<int>, draws: seq<nat>) returns (reservoir: seq<T>)
    requires maxQueries.Some? && maxQueries.value > 0 ==>
               |draws| == (if |rows| > maxQueries.value then |rows| - maxQueries.value else 0)
                 && DrawsFit(maxQueries.value, draws)
    ensures maxQueries.None? || maxQueries.value <= 0 || |rows| <= maxQueries.value ==> reservoir == rows
    ensures maxQueries.Some? && 0 < maxQueries.value < |rows| ==>
              && HoldsSlots(rows, reservoir, Slots(maxQueries.value, draws))
              && Sampled(rows, maxQueries.value, draws, reservoir)
  {
    if maxQueries.None? || maxQueries.value <= 0 {
      return rows;
    }
    var k := maxQueries.value;
    reservoir := [];
    for i := 0 to |rows|
      invariant i <= k ==> reservoir == rows[..i]
      invariant i >= k ==> HoldsSlots(rows[..i], reservoir, Slots(k, draws[..i - k]))
    {
      var row := rows[i];
      TakeOneMore(rows, i);
      if i < k {
        reservoir := reservoir + [row];
        if i + 1 == k {
          assert draws[..0] == [];
          assert HoldsSlots(rows[..k], reservoir, Identity(k));
        }
        continue;
      }
      var j := draws[i - k];
      TakeOneMore(draws, i - k);
      StillHolds(rows[..i], reservoir, Slots(k, draws[..i - k]), row, j);
      if j < k {
        reservoir := reservoir[j := row];
      }
    }
    TakeAll(rows);
    TakeAll(draws);
    if k < |rows| { SampledExactly(rows, k, draws, reservoir); }
  }

  ghost predicate HoldsSlots<T>(rows: seq<T>, reservoir: seq<T>, slots: seq<nat>) {
    |reservoir| == |slots| && forall j :: 0 <= j < |slots| ==> slots[j] < |rows| && reservoir[j] == rows[slots[j]]
  }

  lemma StillHolds<T>(rows: seq<T>, reservoir: seq<T>, slots: seq<nat>, row: T, j: nat)
    requires HoldsSlots(rows, reservoir, slots)
    ensures HoldsSlots(rows + [row], reservoir, slots)
    ensures j < |slots| ==> HoldsSlots(rows + [row], reservoir[j := row], slots[j := |rows|])
  {
  }

  /** The reservoir always holds k distinct row positions, all of them offered so far. */
  lemma {:induction false} SlotsDistinct(k: nat, draws: seq<nat>)
    ensures Distinct(Slots(k, draws))
    ensures forall x :: x in Slots(k, draws) ==> x < k + |draws|
  {
    if draws != [] {
      var init := draws[..|draws| - 1];
      SlotsDistinct(k, init);
      var before := Slots(k, init);
      forall i | 0 <= i < k ensures before[i] < k + |draws| - 1 {
        assert before[i] in before;
      }
    }
  }

  // ----- counting finite sets -----

  /** {0, ..., n-1} */
  ghost function UpTo(n: nat): (r: set<nat>)
    ensures forall x: nat :: x in r <==> x < n
  {
    assert forall x: nat :: x < n ==> x in Identity(n) by {
      forall x: nat | x < n ensures x in Identity(n) {
        assert Identity(n)[x] == x;
      }
    }
    set x | x in Identity(n)
  }

  lemma {:induction false} UpToCardinality(n: nat)
    ensures |UpTo(n)| == n
  {
    if n == 0 {
      assert UpTo(0) == {};
    } else {
      UpToCardinality(n - 1);
      assert UpTo(n) == UpTo(n - 1) + {n - 1};
    }
  }

  ghost predicate IsUnion<X(!new), T(!new)>(xs: set<X>, f: X -> set<T>, union: set<T>) {
    && (forall x, t :: x in xs && t in f(x) ==> t in union)
    && (forall t :: t in union ==> exists x :: x in xs && t in f(x))
  }

  /** A union of pairwise disjoint sets of q elements each. */
  lemma {:induction false} UnionCardinality<X(!new), T(!new)>(xs: set<X>, f: X -> set<T>, union: set<T>, q: nat)
    requires IsUnion(xs, f, union)
    requires forall x :: x in xs ==> |f(x)| == q
    requires forall x, y :: x in xs && y in xs && x != y ==> f(x) !! f(y)
    ensures |union| == |xs| * q
  {
    if xs == {} {
      assert union == {};
    } else {
      var x :| x in xs;
      var rest := xs - {x};
      UnionCardinality(rest, f, union - f(x), q);
      assert union == f(x) + (union - f(x));
      OneMoreTimes(|xs|, |rest|, q);
    }
  }

  lemma OneMoreTimes(n: nat, m: nat, q: nat)
    requires n == m + 1
    ensures n * q == m * q + q
  {
  }

  /** One vector extended by each element of c. */
  ghost function Extensions(v: seq<nat>, c: set<nat>): set<seq<nat>> {
    set x | x in c :: v + [x]
  }

  lemma ExtensionPrefix(v: seq<nat>, c: set<nat>, w: seq<nat>)
    requires w in Extensions(v, c)
    ensures |w| > 0 && w[..|w| - 1] == v
  {
    var x :| x in c && w == v + [x];
    assert (v + [x])[..|v|] == v;
  }

  lemma {:induction false} ExtensionsCardinality(v: seq<nat>, c: set<nat>)
    ensures |Extensions(v, c)| == |c|
  {
    if c == {} {
      assert Extensions(v, c) == {};
    } else {
      var x :| x in c;
      ExtensionsCardinality(v, c - {x});
      assert Extensions(v, c) == Extensions(v, c - {x}) + {v + [x]};
      assert v + [x] !in Extensions(v, c - {x}) by {
        forall y | y in c - {x} ensures v + [y] != v + [x] {
          assert (v + [y])[|v|] == y && (v + [x])[|v|] == x;
        }
      }
    }
  }

  /** ws holds the vectors of vs, each extended by the elements that c gives it. */
  ghost predicate IsExtension(vs: set<seq<nat>>, c: seq<nat> -> set<nat>, ws: set<seq<nat>>) {
    forall w :: w in ws <==> |w| > 0 && w[..|w| - 1] in vs && w[|w| - 1] in c(w[..|w| - 1])
  }

  /** Extending each vector of a set in q ways gives |vs| * q vectors. */
  lemma ExtendedCardinality(vs: set<seq<nat>>, c: seq<nat> -> set<nat>, ws: set<seq<nat>>, q: nat)
    requires IsExtension(vs, c, ws)
    requires forall v :: v in vs ==> |c(v)| == q
    ensures |ws| == |vs| * q
  {
    var f := v => Extensions(v, c(v));
    forall v | v in vs ensures |f(v)| == q { ExtensionsCardinality(v, c(v)); }
    forall u, v | u in vs && v in vs && u != v ensures f(u) !! f(v) {
      forall w | w in f(u) ensures w !in f(v) {
        ExtensionPrefix(u, c(u), w);
        if w in f(v) { ExtensionPrefix(v, c(v), w); }
      }
    }
    assert IsUnion(vs, f, ws) by {
      forall v, w | v in vs && w in f(v) ensures w in ws {
        assert w[..|w| - 1] == v;
      }
      forall w | w in ws ensures exists v :: v in vs && w in f(v) {
        var v, x := w[..|w| - 1], w[|w| - 1];
        assert w == v + [x];
        assert w in f(v);
      }
    }
    UnionCardinality(vs, f, ws, q);
  }

  // ----- all runs of the sampler -----

  /** Every draw vector for m offered rows. */
  ghost function AllDraws(k: nat, m: nat): set<seq<nat>> {
    if m == 0 then {[]}
    else set v, c | v in AllDraws(k, m - 1) && c in UpTo(k + m) :: v + [c]
  }

  lemma AllDrawsStep(k: nat, m: nat, w: seq<nat>)
    requires m > 0
    ensures w in AllDraws(k, m) <==> |w| > 0 && w[..|w| - 1] in AllDraws(k, m - 1) && w[|w| - 1] < k + m
  {
    if w in AllDraws(k, m) {
      var v, c :| v in AllDraws(k, m - 1) && c in UpTo(k + m) && w == v + [c];
      assert w[..|w| - 1] == v;
    }
    if |w| > 0 && w[..|w| - 1] in AllDraws(k, m - 1) && w[|w| - 1] < k + m {
      assert w == w[..|w| - 1] + [w[|w| - 1]];
    }
  }

  /** AllDraws enumerates exactly what randint can return. */
  lemma {:induction false} AllDrawsFit(k: nat, m: nat, w: seq<nat>)
    ensures w in AllDraws(k, m) <==> |w| == m && DrawsFit(k, w)
  {
    if m > 0 {
      AllDrawsStep(k, m, w);
      if |w| > 0 {
        AllDrawsFit(k, m - 1, w[..|w| - 1]);
      }
    }
  }

  function Factorial(n: nat): nat {
    if n == 0 then 1 else n * Factorial(n - 1)
  }

  /** There are (k+m)!/k! runs. */
  lemma {:induction false} AllDrawsCardinality(k: nat, m: nat, f: nat, g: nat)
    requires f == Factorial(k) && g == Factorial(k + m)
    ensures |AllDraws(k, m)| * f == g
  {
    if m > 0 {
      var all, before := AllDraws(k, m), AllDraws(k, m - 1);
      var n, h := k + m, Factorial(k + m - 1);
      AllDrawsCardinality(k, m - 1, f, h);
      AllDrawsGrow(k, m, n);
      FactorialStep(n, h, g);
      ReassociateProduct(|before|, n, f, h);
    }
  }

  lemma ReassociateProduct(a: nat, b: nat, f: nat, h: nat)
    requires a * f == h
    ensures (a * b) * f == b * h
  {
  }

  lemma AllDrawsGrow(k: nat, m: nat, n: nat)
    requires m > 0 && n == k + m
    ensures |AllDraws(k, m)| == |AllDraws(k, m - 1)| * n
  {
    forall w ensures w in AllDraws(k, m) <==> |w| > 0 && w[..|w| - 1] in AllDraws(k, m - 1) && w[|w| - 1] in UpTo(n) {
      AllDrawsStep(k, m, w);
    }
    UpToCardinality(n);
    ExtendedCardinality(AllDraws(k, m - 1), _ => UpTo(n), AllDraws(k, m), n);
  }

  // ----- every sample equally likely -----

  /** The runs that end with the rows of s in the reservoir. */
  ghost function RunsTo(k: nat, m: nat, s: set<nat>): set<seq<nat>> {
    set v | v in AllDraws(k, m) && Elements(Slots(k, v)) == s
  }

  /** Exactly m! of the runs end with any given k of the k+m rows, whichever k these are. */
  lemma {:induction false} EverySampleEquallyLikely(k: nat, m: nat, s: set<nat>, f: nat)
    requires s <= UpTo(k + m) && |s| == k && f == Factorial(m)
    ensures |RunsTo(k, m, s)| == f
    decreases m, 0
  {
    if m == 0 {
      UpToCardinality(k);
      SubsetCardinality(s, UpTo(k));
      assert RunsTo(k, 0, s) == {[]};
    } else if k + m - 1 !in s {
      var g := Factorial(m - 1);
      FactorialStep(m, g, f);
      EverySampleEquallyLikely(k, m - 1, s, g);
      RunsWithoutLastRow(k, m, s, g, f);
    } else {
      var g := Factorial(m - 1);
      FactorialStep(m, g, f);
      SwappedSamples(k, m - 1, s, k + m - 1, g);
      RunsWithLastRow(k, m, s, k + m - 1, g, f);
    }
  }

  lemma {:induction false} SwappedSamples(k: nat, m: nat, s: set<nat>, last: nat, g: nat)
    requires last == k + m && s <= UpTo(last + 1) && |s| == k && last in s && g == Factorial(m)
    ensures forall x :: x in Gaps(last, s) ==> |RunsTo(k, m, Swap(s, last, x))| == g
    decreases m, 1
  {
    forall x | x in Gaps(last, s) ensures |RunsTo(k, m, Swap(s, last, x))| == g {
      SwapFits(k, last, s, x);
      EverySampleEquallyLikely(k, m, Swap(s, last, x), g);
    }
  }

  lemma FactorialStep(m: nat, g: nat, f: nat)
    requires m > 0 && g == Factorial(m - 1) && f == Factorial(m)
    ensures f == m * g && f == g * m
  {
  }

  /** The sample held before last replaced x. */
  ghost function Swap(s: set<nat>, last: nat, x: nat): set<nat> {
    s - {last} + {x}
  }

  /** The earlier rows outside s. */
  ghost function Gaps(last: nat, s: set<nat>): set<nat> {
    UpTo(last) - s
  }

  /** The run holds s, except that one earlier row x stands in for the last one. */
  ghost predicate AwaitsLast(k: nat, v: seq<nat>, s: set<nat>, last: nat) {
    exists x :: x in Gaps(last, s) && Elements(Slots(k, v)) == Swap(s, last, x)
  }

  lemma SwapFits(k: nat, last: nat, s: set<nat>, x: nat)
    requires s <= UpTo(last + 1) && |s| == k && last in s && x in Gaps(last, s)
    ensures |Swap(s, last, x)| == k && Swap(s, last, x) <= UpTo(last)
  {
    var kept := s - {last};
    assert s == kept + {last};
    assert |kept| == k - 1;
    assert Swap(s, last, x) == kept + {x};
  }

  lemma GapsCardinality(k: nat, last: nat, s: set<nat>)
    requires s <= UpTo(last + 1) && |s| == k && last in s
    ensures |Gaps(last, s)| == last - k + 1
  {
    var kept := s - {last};
    assert s == kept + {last};
    UpToCardinality(last);
    assert UpTo(last) == kept + Gaps(last, s);
  }

  /** The draws that miss every slot. */
  ghost function Missing(k: nat, m: nat): set<nat> {
    UpTo(k + m) - UpTo(k)
  }

  lemma MissingCardinality(k: nat, m: nat)
    ensures |Missing(k, m)| == m
  {
    UpToCardinality(k);
    UpToCardinality(k + m);
    assert UpTo(k + m) == UpTo(k) + Missing(k, m);
  }

  /** A run avoids the last row exactly when its last draw misses every slot. */
  lemma RunsWithoutLastRow(k: nat, m: nat, s: set<nat>, g: nat, f: nat)
    requires m > 0 && k + m - 1 !in s && |RunsTo(k, m - 1, s)| == g && f == g * m
    ensures |RunsTo(k, m, s)| == f
  {
    var missing := Missing(k, m);
    forall w
      ensures w in RunsTo(k, m, s) <==> |w| > 0 && w[..|w| - 1] in RunsTo(k, m - 1, s) && w[|w| - 1] in missing
    {
      RunAvoidsLastRow(k, m, s, w);
    }
    MissingCardinality(k, m);
    ExtendedCardinality(RunsTo(k, m - 1, s), _ => missing, RunsTo(k, m, s), m);
  }

  lemma RunAvoidsLastRow(k: nat, m: nat, s: set<nat>, w: seq<nat>)
    requires m > 0 && k + m - 1 !in s
    ensures w in RunsTo(k, m, s) <==>
            |w| > 0 && w[..|w| - 1] in RunsTo(k, m - 1, s) && w[|w| - 1] in Missing(k, m)
  {
    AllDrawsStep(k, m, w);
    AllDrawsFit(k, m, w);
    if |w| == m && w[m - 1] < k {
      assert Slots(k, w)[w[m - 1]] == k + m - 1;
    }
  }

  /** The slots that can receive the last row so that exactly s is left. */
  ghost function OutOf(k: nat, v: seq<nat>, s: set<nat>): set<nat> {
    set j | j in UpTo(k) && Slots(k, v)[j] !in s
  }

  lemma RunsWithLastRow(k: nat, m: nat, s: set<nat>, last: nat, g: nat, f: nat)
    requires m > 0 && last == k + m - 1 && s <= UpTo(last + 1) && |s| == k && last in s && f == m * g
    requires var before := m - 1; forall x :: x in Gaps(last, s) ==> |RunsTo(k, before, Swap(s, last, x))| == g
    ensures |RunsTo(k, m, s)| == f
  {
    var before := set v | v in AllDraws(k, m - 1) && AwaitsLast(k, v, s, last);
    RunsAwaitingLast(k, m - 1, s, last, g, before);
    forall v | v in before ensures |OutOf(k, v, s)| == 1 {
      var x :| x in Gaps(last, s) && Elements(Slots(k, v)) == Swap(s, last, x);
      OneSlotOutOf(k, v, s, last, x);
    }
    forall w
      ensures w in RunsTo(k, m, s) <==> |w| > 0 && w[..|w| - 1] in before && w[|w| - 1] in OutOf(k, w[..|w| - 1], s)
    {
      RunTakesLastRow(k, m, s, w);
    }
    ExtendedCardinality(before, v => OutOf(k, v, s), RunsTo(k, m, s), 1);
  }

  lemma RunsAwaitingLast(k: nat, m: nat, s: set<nat>, last: nat, g: nat, before: set<seq<nat>>)
    requires last == k + m && s <= UpTo(last + 1) && |s| == k && last in s
    requires forall x :: x in Gaps(last, s) ==> |RunsTo(k, m, Swap(s, last, x))| == g
    requires forall v :: v in before <==> v in AllDraws(k, m) && AwaitsLast(k, v, s, last)
    ensures |before| == (m + 1) * g
  {
    var f := x => RunsTo(k, m, Swap(s, last, x));
    forall x, y | x in Gaps(last, s) && y in Gaps(last, s) && x != y ensures f(x) !! f(y) {
      assert x in Swap(s, last, x) && x !in Swap(s, last, y);
    }
    forall v | v in before ensures exists x :: x in Gaps(last, s) && v in f(x) {
      var x :| x in Gaps(last, s) && Elements(Slots(k, v)) == Swap(s, last, x);
      assert v in f(x);
    }
    UnionCardinality(Gaps(last, s), f, before, g);
    GapsCardinality(k, last, s);
  }

  lemma OneSlotOutOf(k: nat, v: seq<nat>, s: set<nat>, last: nat, x: nat)
    requires x !in s && Elements(Slots(k, v)) == Swap(s, last, x)
    ensures |OutOf(k, v, s)| == 1
  {
    SlotsDistinct(k, v);
    var slots := Slots(k, v);
    assert x in slots;
    var j :| 0 <= j < k && slots[j] == x;
    assert OutOf(k, v, s) == {j} by {
      forall i | i in OutOf(k, v, s) ensures i == j {
        assert slots[i] in Elements(slots);
      }
    }
  }

  lemma ElementsReplaced(b: seq<nat>, c: nat, y: nat)
    requires Distinct(b) && c < |b|
    ensures Elements(b[c := y]) == Elements(b) - {b[c]} + {y}
  {
    var r := b[c := y];
    forall x | x in Elements(b) - {b[c]} + {y} ensures x in r {
      if x == y {
        assert r[c] == y;
      } else {
        var i :| 0 <= i < |b| && b[i] == x;
        assert r[i] == x;
      }
    }
    forall x | x in r ensures x in Elements(b) - {b[c]} + {y} {
      var i :| 0 <= i < |r| && r[i] == x;
      if i != c { assert b[i] in b; }
    }
  }

  lemma RunTakesLastRow(k: nat, m: nat, s: set<nat>, w: seq<nat>)
    requires m > 0 && s <= UpTo(k + m) && k + m - 1 in s
    ensures w in RunsTo(k, m, s) <==>
            && |w| > 0 && w[..|w| - 1] in AllDraws(k, m - 1) && AwaitsLast(k, w[..|w| - 1], s, k + m - 1)
            && w[|w| - 1] in OutOf(k, w[..|w| - 1], s)
  {
    AllDrawsStep(k, m, w);
    if |w| > 0 && w[..|w| - 1] in AllDraws(k, m - 1) {
      AllDrawsFit(k, m - 1, w[..|w| - 1]);
      SlotsDistinct(k, w[..|w| - 1]);
      LastRowReplaces(k, Slots(k, w[..|w| - 1]), w[|w| - 1], s, k + m - 1);
    }
  }

  /** Writing the last row into slot c leaves s exactly when the reservoir was s up to the row in that slot. */
  lemma LastRowReplaces(k: nat, slots: seq<nat>, c: nat, s: set<nat>, last: nat)
    requires |slots| == k && Distinct(slots) && (forall x :: x in slots ==> x < last) && last in s
             && s <= UpTo(last + 1)
    ensures (if c < k then Elements(slots[c := last]) == s else Elements(slots) == s) <==>
            c < k && slots[c] !in s && exists x :: x in Gaps(last, s) && Elements(slots) == Swap(s, last, x)
  {
    if c < k {
      ElementsReplaced(slots, c, last);
      assert slots[c] in slots;
      if Elements(slots[c := last]) == s {
        assert slots[c] in Gaps(last, s);
        assert Elements(slots) == Swap(s, last, slots[c]);
      }
      if x :| slots[c] !in s && x in Gaps(last, s) && Elements(slots) == Swap(s, last, x) {
        assert slots[c] in Elements(slots);
        assert slots[c] == x;
      }
    } else {
      assert last !in Elements(slots);
    }
  }

  // ----- every row equally likely -----

  /** The runs whose sample holds row r. */
  ghost function RunsWith(k: nat, m: nat, r: nat): set<seq<nat>> {
    set v | v in AllDraws(k, m) && r in Slots(k, v)
  }

  /** Each row is kept in exactly k of every k+m runs. */
  lemma {:induction false} EveryRowEquallyLikely(k: nat, m: nat, r: nat)
    requires r < k + m
    ensures (k + m) * |RunsWith(k, m, r)| == k * |AllDraws(k, m)|
  {
    if m == 0 {
      assert Slots(k, [])[r] == r;
      assert RunsWith(k, 0, r) == AllDraws(k, 0);
    } else {
      var n, last := k + m, k + m - 1;
      AllDrawsGrow(k, m, n);
      if r == last {
        LastRowRuns(k, m);
        ProductSwap(|AllDraws(k, m - 1)|, k, n);
      } else {
        EveryRowEquallyLikely(k, m - 1, r);
        EarlierRowRuns(k, m, r, last);
        ProductCarry(|RunsWith(k, m - 1, r)|, |AllDraws(k, m - 1)|, k, n, last);
      }
    }
  }

  lemma ProductSwap(a: nat, k: nat, n: nat)
    ensures n * (a * k) == k * (a * n)
  {
  }

  lemma ProductCarry(c: nat, a: nat, k: nat, n: nat, last: nat)
    requires last * c == k * a
    ensures n * (c * last) == k * (a * n)
  {
    assert n * (c * last) == n * (last * c);
    assert k * (a * n) == n * (k * a);
  }

  lemma LastRowRuns(k: nat, m: nat)
    requires m > 0
    ensures |RunsWith(k, m, k + m - 1)| == |AllDraws(k, m - 1)| * k
  {
    forall w
      ensures w in RunsWith(k, m, k + m - 1) <==> |w| > 0 && w[..|w| - 1] in AllDraws(k, m - 1) && w[|w| - 1] in UpTo(k)
    {
      AllDrawsStep(k, m, w);
      if |w| > 0 && w[..|w| - 1] in AllDraws(k, m - 1) {
        AllDrawsFit(k, m - 1, w[..|w| - 1]);
        SlotsDistinct(k, w[..|w| - 1]);
        if w[|w| - 1] < k {
          assert Slots(k, w)[w[|w| - 1]] == k + m - 1;
        }
      }
    }
    UpToCardinality(k);
    ExtendedCardinality(AllDraws(k, m - 1), _ => UpTo(k), RunsWith(k, m, k + m - 1), k);
  }

  /** The draws that leave row r where it is. */
  ghost function Sparing(k: nat, n: nat, v: seq<nat>, r: nat): set<nat> {
    set j | j in UpTo(n) && (j < k ==> Slots(k, v)[j] != r)
  }

  lemma SparingCardinality(k: nat, n: nat, v: seq<nat>, r: nat)
    requires k <= n && r in Slots(k, v)
    ensures |Sparing(k, n, v, r)| == n - 1
  {
    SlotsDistinct(k, v);
    var j :| 0 <= j < k && Slots(k, v)[j] == r;
    assert Sparing(k, n, v, r) == UpTo(n) - {j};
    UpToCardinality(n);
  }

  lemma EarlierRowRuns(k: nat, m: nat, r: nat, last: nat)
    requires m > 0 && last == k + m - 1 && r < last
    ensures |RunsWith(k, m, r)| == |RunsWith(k, m - 1, r)| * last
  {
    forall w
      ensures w in RunsWith(k, m, r) <==>
              |w| > 0 && w[..|w| - 1] in RunsWith(k, m - 1, r) && w[|w| - 1] in Sparing(k, k + m, w[..|w| - 1], r)
    {
      RunSparesRow(k, m, r, w);
    }
    var n, before := k + m, RunsWith(k, m - 1, r);
    forall v | v in before ensures |Sparing(k, n, v, r)| == last {
      SparingCardinality(k, n, v, r);
    }
    ExtendedCardinality(before, v => Sparing(k, n, v, r), RunsWith(k, m, r), last);
  }

  lemma RunSparesRow(k: nat, m: nat, r: nat, w: seq<nat>)
    requires m > 0 && r < k + m - 1
    ensures w in RunsWith(k, m, r) <==>
            |w| > 0 && w[..|w| - 1] in RunsWith(k, m - 1, r) && w[|w| - 1] in Sparing(k, k + m, w[..|w| - 1], r)
  {
    AllDrawsStep(k, m, w);
    if |w| > 0 && w[..|w| - 1] in AllDraws(k, m - 1) {
      var v, c := w[..|w| - 1], w[|w| - 1];
      AllDrawsFit(k, m - 1, v);
      SlotsDistinct(k, v);
      var slots := Slots(k, v);
      if c < k {
        ElementsReplaced(slots, c, k + m - 1);
        assert r in slots <==> r in Elements(slots);
        assert r in slots[c := k + m - 1] <==> r in Elements(slots[c := k + m - 1]);
      }
    }
  }
}
