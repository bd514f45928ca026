/** Ranking comparison metrics: overlap, Jaccard and Kendall's tau at k. */
module Metrics {
  import opened Prelude
  import opened Stats

  function OverlapAtK<Id(==)>(baseline: seq<Id>, shadow: seq<Id>): nat {
    |Elements(baseline) * Elements(shadow)|
  }

  function JaccardAtK<Id(==)>(baseline: seq<Id>, shadow: seq<Id>): real {
    var union := Elements(baseline) + Elements(shadow);
    if union == {} then 1.0 else OverlapAtK(baseline, shadow) as real / |union| as real
  }

  /** The rank an id gets from `{id: i for i, id in enumerate(ids)}`: its last position. */
  function Rank<Id(==)>(ids: seq<Id>, x: Id): (r: int)
    ensures x in ids ==> 0 <= r < |ids| && ids[r] == x
    ensures x !in ids ==> r == -1
  {
    if ids == [] then -1
    else if ids[|ids| - 1] == x then |ids| - 1
    else Rank(ids[..|ids| - 1], x)
  }

  function RankMap<Id(==)>(ids: seq<Id>): map<Id, int> {
    map x | x in ids :: Rank(ids, x)
  }

  lemma RankOfElement<Id>(ids: seq<Id>, i: nat)
    requires Distinct(ids) && i < |ids|
    ensures Rank(ids, ids[i]) == i
  {
    var r := Rank(ids, ids[i]);
    assert ids[r] == ids[i];
  }

  /** x is listed, and ranked above y, which is listed too. */
  predicate Above<Id(==)>(ids: seq<Id>, x: Id, y: Id) {
    0 <= Rank(ids, x) < Rank(ids, y)
  }

  lemma CommonOfUnion<Id>(a: set<Id>, b: set<Id>)
    ensures |a * b| <= |a + b|
    ensures |a * b| == |a + b| <==> a == b
  {
    SubsetCardinality(a * b, a + b);
    if a * b == a + b {
      assert forall x :: x in a ==> x in a + b && x in a * b;
      assert forall x :: x in b ==> x in a + b && x in a * b;
    }
    if a == b {
      assert a * b == a + b;
    }
  }

  lemma ShareFacts(part: nat, total: nat)
    requires part <= total && total > 0
    ensures 0.0 <= part as real / total as real <= 1.0
    ensures part as real / total as real == 1.0 <==> part == total
  {
    QuotientCompare(part as real, 0.0, total as real);
    QuotientCompare(part as real, 1.0, total as real);
  }

  /** Jaccard is a share, and complete exactly when both lists have the same members. */
  lemma JaccardIsShare<Id>(a: seq<Id>, b: seq<Id>)
    ensures 0.0 <= JaccardAtK(a, b) <= 1.0
    ensures JaccardAtK(a, b) == 1.0 <==> Elements(a) == Elements(b)
  {
    var union := Elements(a) + Elements(b);
    CommonOfUnion(Elements(a), Elements(b));
    if union == {} {
      assert forall x :: x in Elements(a) || x in Elements(b) ==> x in union;
    } else {
      ShareFacts(OverlapAtK(a, b), |union|);
    }
  }

  /** `[x for x in ids if x not in other]` */
  function Discard<Id(==)>(ids: seq<Id>, other: set<Id>): seq<Id> {
    if ids == [] then []
    else Discard(ids[..|ids| - 1], other) + if ids[|ids| - 1] in other then [] else [ids[|ids| - 1]]
  }

  /** `[x for x in ids if x in keep]` */
  function Keep<Id(==)>(ids: seq<Id>, keep: set<Id>): seq<Id> {
    if ids == [] then []
    else Keep(ids[..|ids| - 1], keep) + if ids[|ids| - 1] in keep then [ids[|ids| - 1]] else []
  }

  lemma {:induction false} KeepMembers<Id(!new)>(ids: seq<Id>, keep: set<Id>)
    ensures forall x :: x in Keep(ids, keep) <==> x in ids && x in keep
    ensures Distinct(ids) ==> Distinct(Keep(ids, keep))
  {
    if ids != [] {
      var init := ids[..|ids| - 1];
      KeepMembers(init, keep);
      assert ids == init + [ids[|ids| - 1]];
    }
  }

  lemma {:induction false} DiscardMembers<Id(!new)>(ids: seq<Id>, other: set<Id>)
    ensures forall x :: x in Discard(ids, other) <==> x in ids && x !in other
  {
    if ids != [] {
      var init := ids[..|ids| - 1];
      DiscardMembers(init, other);
      assert ids == init + [ids[|ids| - 1]];
    }
  }

  // ----- Kendall's tau -----

  /** Whether two lists put x and y in the same order (`same`) or in opposite orders. */
  predicate OrderIs<Id(==)>(a: seq<Id>, b: seq<Id>, x: Id, y: Id, same: bool) {
    var rankA, rankB := Rank(a, y) - Rank(a, x), Rank(b, y) - Rank(b, x);
    if same then (rankA > 0 && rankB > 0) || (rankA < 0 && rankB < 0)
    else (rankA > 0 && rankB < 0) || (rankA < 0 && rankB > 0)
  }

  /** How many ids of s stand to x in the given way. */
  function RowCount<Id(==)>(a: seq<Id>, b: seq<Id>, x: Id, s: seq<Id>, same: bool): nat {
    if s == [] then 0
    else RowCount(a, b, x, s[..|s| - 1], same) + if OrderIs(a, b, x, s[|s| - 1], same) then 1 else 0
  }

  /** How many pairs i < j of `common` stand to each other in the given way. */
  function PairCount<Id(==)>(a: seq<Id>, b: seq<Id>, common: seq<Id>, same: bool): nat {
    if common == [] then 0
    else RowCount(a, b, common[0], common[1..], same) + PairCount(a, b, common[1..], same)
  }

  function TauFromCounts(concordant: nat, discordant: nat): real {
    if concordant + discordant == 0 then 0.0
    else (concordant - discordant) as real / (concordant + discordant) as real
  }

  function Tau<Id(==)>(baseline: seq<Id>, shadow: seq<Id>): Option<real> {
    var common := Keep(baseline, Elements(shadow));
    if |common| < 2 then None
    else Some(TauFromCounts(PairCount(baseline, shadow, common, true), PairCount(baseline, shadow, common, false)))
  }

  /** The inner loop: common[i] against every later id. */
  method CompareWithLater<Id(==)>(common: seq<Id>, rankB: map<Id, int>, rankS: map<Id, int>, i: nat,
                                  ghost baseline: seq<Id>, ghost shadow: seq<Id>)
    returns (concordant: nat, discordant: nat)
    requires i < |common|
    requires forall k :: 0 <= k < |common| ==> common[k] in baseline && common[k] in shadow
    requires rankB == RankMap(baseline) && rankS == RankMap(shadow)
    ensures concordant == RowCount(baseline, shadow, common[i], common[i + 1..], true)
    ensures discordant == RowCount(baseline, shadow, common[i], common[i + 1..], false)
  {
    concordant, discordant := 0, 0;
    for j := i + 1 to |common|
      invariant concordant == RowCount(baseline, shadow, common[i], common[i + 1..j], true)
      invariant discordant == RowCount(baseline, shadow, common[i], common[i + 1..j], false)
    {
      var a := common[i];
      var b := common[j];
      var diffB := rankB[a] - rankB[b];
      var diffS := rankS[a] - rankS[b];
      var prod := diffB * diffS;
      PairVisited(baseline, shadow, common, i, j, diffB, diffS);
      if prod > 0 {
        concordant := concordant + 1;
      } else if prod < 0 {
        discordant := discordant + 1;
      }
    }
    assert common[i + 1..|common|] == common[i + 1..];
  }

  /** The outer loop. */
  method CountPairs<Id(==)>(common: seq<Id>, rankB: map<Id, int>, rankS: map<Id, int>, ghost baseline: seq<Id>,
      ghost shadow: seq<Id>)
    returns (concordant: nat, discordant: nat)
    requires forall k :: 0 <= k < |common| ==> common[k] in baseline && common[k] in shadow
    requires rankB == RankMap(baseline) && rankS == RankMap(shadow)
    ensures concordant == PairCount(baseline, shadow, common, true)
    ensures discordant == PairCount(baseline, shadow, common, false)
  {
    concordant, discordant := 0, 0;
    for i := 0 to |common|
      invariant concordant + PairCount(baseline, shadow, common[i..], true) == PairCount(baseline, shadow, common, true)
      invariant discordant + PairCount(baseline, shadow, common[i..], false) ==
                PairCount(baseline, shadow, common, false)
    {
      var more, less := CompareWithLater(common, rankB, rankS, i, baseline, shadow);
      RowDone(baseline, shadow, common, i, true);
      RowDone(baseline, shadow, common, i, false);
      concordant, discordant := concordant + more, discordant + less;
    }
    assert common[|common|..] == [];
  }

  method KendallTauAtK<Id(==,!new)>(baseline: seq<Id>, shadow: seq<Id>) returns (tau: Option<real>)
    ensures tau == Tau(baseline, shadow)
    ensures TauExplained(baseline, shadow, tau)
  {
    TauExactly(baseline, shadow);
    var shadowSet := Elements(shadow);
    var common := Keep(baseline, shadowSet);
    if |common| < 2 {
      return None;
    }
    KeepMembers(baseline, shadowSet);
    forall i | 0 <= i < |common| ensures common[i] in baseline && common[i] in shadow {
      assert common[i] in common;
    }
    var concordant, discordant := CountPairs(common, RankMap(baseline), RankMap(shadow), baseline, shadow);
    tau := Some(TauFromCounts(concordant, discordant));
  }

  lemma PairVisited<Id>(a: seq<Id>, b: seq<Id>, common: seq<Id>, i: nat, j: nat, diffA: int, diffB: int)
    requires i < j < |common|
    requires diffA == Rank(a, common[i]) - Rank(a, common[j]) && diffB == Rank(b, common[i]) - Rank(b, common[j])
    ensures RowCount(a, b, common[i], common[i + 1..j + 1], true)
         == RowCount(a, b, common[i], common[i + 1..j], true) + if diffA * diffB > 0 then 1 else 0
    ensures RowCount(a, b, common[i], common[i + 1..j + 1], false)
         == RowCount(a, b, common[i], common[i + 1..j], false) + if diffA * diffB < 0 then 1 else 0
  {
    ProductSign(diffA, diffB);
    RowExtends(a, b, common, i, j, true);
    RowExtends(a, b, common, i, j, false);
  }

  /** The sign of the product of rank differences says how the two orders compare. */
  lemma ProductSign(x: int, y: int)
    ensures x * y > 0 <==> (x < 0 && y < 0) || (x > 0 && y > 0)
    ensures x * y < 0 <==> (x < 0 && y > 0) || (x > 0 && y < 0)
  {
  }

  lemma RowExtends<Id>(a: seq<Id>, b: seq<Id>, common: seq<Id>, i: nat, j: nat, same: bool)
    requires i < j < |common|
    ensures RowCount(a, b, common[i], common[i + 1..j + 1], same)
         == RowCount(a, b, common[i], common[i + 1..j], same)
            + if OrderIs(a, b, common[i], common[j], same) then 1 else 0
  {
    assert common[i + 1..j + 1][..j - i - 1] == common[i + 1..j];
  }

  lemma RowDone<Id>(a: seq<Id>, b: seq<Id>, common: seq<Id>, i: nat, same: bool)
    requires i < |common|
    ensures PairCount(a, b, common[i..], same)
         == RowCount(a, b, common[i], common[i + 1..], same) + PairCount(a, b, common[i + 1..], same)
  {
    assert common[i..][1..] == common[i + 1..];
  }

  // ----- what the two counters count -----

  function Triangle(n: nat): nat {
    if n == 0 then 0 else Triangle(n - 1) + n - 1
  }

  lemma {:induction false} TriangleClosedForm(n: nat)
    ensures Triangle(n) == n * (n - 1) / 2
  {
    if n > 0 {
      TriangleClosedForm(n - 1);
      assert n * (n - 1) == (n - 1) * (n - 2) + 2 * (n - 1);
    }
  }

  /** Over distinct ids listed on both sides, each pair is counted by exactly one counter. */
  lemma {:induction false} CountsPartitionPairs<Id(!new)>(a: seq<Id>, b: seq<Id>, common: seq<Id>)
    requires Distinct(common)
    requires forall x :: x in common ==> x in a && x in b
    ensures PairCount(a, b, common, true) + PairCount(a, b, common, false) == Triangle(|common|)
  {
    if common != [] {
      var x, rest := common[0], common[1..];
      forall y | y in rest ensures y != x && y in common {}
      RowPartition(a, b, x, rest);
      CountsPartitionPairs(a, b, rest);
    }
  }

  lemma {:induction false} RowPartition<Id(!new)>(a: seq<Id>, b: seq<Id>, x: Id, s: seq<Id>)
    requires x in a && x in b
    requires forall y :: y in s ==> y != x && y in a && y in b
    ensures RowCount(a, b, x, s, true) + RowCount(a, b, x, s, false) == |s|
  {
    if s != [] {
      var y := s[|s| - 1];
      assert Rank(a, x) != Rank(a, y) && Rank(b, x) != Rank(b, y);
      forall z | z in s[..|s| - 1] ensures z in s {}
      RowPartition(a, b, x, s[..|s| - 1]);
    }
  }

  /** A list whose agreements with `a` all carry over to `c` has a smaller or equal count. */
  lemma {:induction false} CountMonotone<Id(!new)>(a: seq<Id>, b: seq<Id>, c: seq<Id>, common: seq<Id>, same: bool)
    requires forall x, y :: x in common && y in common && OrderIs(a, b, x, y, same) ==> OrderIs(a, c, x, y, same)
    ensures PairCount(a, b, common, same) <= PairCount(a, c, common, same)
  {
    if common != [] {
      var x, rest := common[0], common[1..];
      forall y | y in rest ensures y in common {}
      RowMonotone(a, b, c, x, rest, same);
      CountMonotone(a, b, c, rest, same);
    }
  }

  lemma {:induction false} RowMonotone<Id(!new)>(a: seq<Id>, b: seq<Id>, c: seq<Id>, x: Id, s: seq<Id>, same: bool)
    requires forall y :: y in s && OrderIs(a, b, x, y, same) ==> OrderIs(a, c, x, y, same)
    ensures RowCount(a, b, x, s, same) <= RowCount(a, c, x, s, same)
  {
    if s != [] {
      forall z | z in s[..|s| - 1] ensures z in s {}
      RowMonotone(a, b, c, x, s[..|s| - 1], same);
    }
  }

  // The order `common` is listed in does not matter, because OrderIs is symmetric.

  lemma {:induction false} RowSplit<Id>(a: seq<Id>, b: seq<Id>, x: Id, s: seq<Id>, t: seq<Id>, same: bool)
    ensures RowCount(a, b, x, s + t, same) == RowCount(a, b, x, s, same) + RowCount(a, b, x, t, same)
  {
    if t == [] {
      assert s + t == s;
    } else {
      assert (s + t)[..|s + t| - 1] == s + t[..|t| - 1];
      RowSplit(a, b, x, s, t[..|t| - 1], same);
    }
  }

  lemma RowCons<Id>(a: seq<Id>, b: seq<Id>, x: Id, y: Id, s: seq<Id>, same: bool)
    ensures RowCount(a, b, x, [y] + s, same)
         == (if OrderIs(a, b, x, y, same) then 1 else 0) + RowCount(a, b, x, s, same)
  {
    RowSplit(a, b, x, [y], s, same);
    assert [y][..0] == [];
  }

  lemma PairCountCons<Id>(a: seq<Id>, b: seq<Id>, x: Id, s: seq<Id>, same: bool)
    ensures PairCount(a, b, [x] + s, same) == RowCount(a, b, x, s, same) + PairCount(a, b, s, same)
  {
    assert ([x] + s)[1..] == s;
  }

  lemma {:induction false} PairCountPullFront<Id>(a: seq<Id>, b: seq<Id>, s: seq<Id>, x: Id, t: seq<Id>, same: bool)
    ensures PairCount(a, b, s + ([x] + t), same) == PairCount(a, b, [x] + (s + t), same)
  {
    if s == [] {
      assert s + ([x] + t) == [x] + (s + t);
    } else {
      var y, rest := s[0], s[1..];
      assert s + ([x] + t) == [y] + (rest + ([x] + t));
      assert s + t == [y] + (rest + t);
      PairCountPullFront(a, b, rest, x, t, same);
      PairCountCons(a, b, y, rest + ([x] + t), same);
      PairCountCons(a, b, x, rest + t, same);
      PairCountCons(a, b, x, s + t, same);
      PairCountCons(a, b, y, rest + t, same);
      RowSplit(a, b, y, rest, [x] + t, same);
      RowSplit(a, b, y, rest, t, same);
      RowCons(a, b, y, x, t, same);
      RowCons(a, b, x, y, rest + t, same);
    }
  }

  /** Taking one occurrence of x out of t. */
  lemma TakeOut<Id>(x: Id, rest: seq<Id>, t: seq<Id>) returns (u: seq<Id>, v: seq<Id>)
    requires multiset([x] + rest) == multiset(t)
    ensures t == u + ([x] + v)
    ensures multiset(rest) == multiset(u + v)
  {
    assert x in multiset([x] + rest);
    assert x in t;
    var i :| 0 <= i < |t| && t[i] == x;
    u, v := t[..i], t[i + 1..];
    assert t == u + ([x] + v);
    assert multiset(t) == multiset(u) + (multiset{x} + multiset(v));
    assert multiset(rest) == multiset([x] + rest) - multiset{x};
  }

  lemma {:induction false} PairCountPermutes<Id(!new)>(a: seq<Id>, b: seq<Id>, s: seq<Id>, t: seq<Id>, same: bool)
    requires multiset(s) == multiset(t)
    ensures PairCount(a, b, s, same) == PairCount(a, b, t, same)
    decreases |s|
  {
    if s == [] {
      assert |t| == |multiset(t)| == 0;
    } else {
      var x, rest := s[0], s[1..];
      assert s == [x] + rest;
      var u, v := TakeOut(x, rest, t);
      PairCountPermutes(a, b, rest, u + v, same);
      PairCountPullFront(a, b, u, x, v, same);
      PairCountCons(a, b, x, u + v, same);
      RowPermutes(a, b, x, rest, u + v, same);
    }
  }

  lemma {:induction false} RowPermutes<Id(!new)>(a: seq<Id>, b: seq<Id>, x: Id, s: seq<Id>, t: seq<Id>, same: bool)
    requires multiset(s) == multiset(t)
    ensures RowCount(a, b, x, s, same) == RowCount(a, b, x, t, same)
    decreases |s|
  {
    if s == [] {
      assert |t| == |multiset(t)| == 0;
    } else {
      var y, rest := s[0], s[1..];
      assert s == [y] + rest;
      var u, v := TakeOut(y, rest, t);
      RowPermutes(a, b, x, rest, u + v, same);
      RowCons(a, b, x, y, rest, same);
      RowCons(a, b, x, y, v, same);
      RowSplit(a, b, x, u, [y] + v, same);
      RowSplit(a, b, x, u, v, same);
    }
  }

  // ----- correctness of tau on duplicate-free lists -----

  /** Duplicate-free lists sharing at least two ids. */
  ghost predicate Comparable<Id>(a: seq<Id>, b: seq<Id>) {
    Distinct(a) && Distinct(b) && OverlapAtK(a, b) >= 2
  }

  ghost function Common<Id>(a: seq<Id>, b: seq<Id>): seq<Id> {
    Keep(a, Elements(b))
  }

  lemma CommonIsOverlap<Id(!new)>(a: seq<Id>, b: seq<Id>)
    requires Distinct(a)
    ensures Distinct(Common(a, b))
    ensures forall x :: x in Common(a, b) <==> x in a && x in b
    ensures |Common(a, b)| == OverlapAtK(a, b)
  {
    KeepMembers(a, Elements(b));
    DistinctCardinality(Common(a, b));
    assert Elements(Common(a, b)) == Elements(a) * Elements(b);
  }

  /** What the quotient says about the counts. */
  lemma TauFromCountsFacts(c: nat, d: nat)
    requires c + d >= 1
    ensures -1.0 <= TauFromCounts(c, d) <= 1.0
    ensures TauFromCounts(c, d) == 1.0 <==> d == 0
    ensures TauFromCounts(c, d) == -1.0 <==> c == 0
    ensures TauFromCounts(d, c) == -TauFromCounts(c, d)
  {
    QuotientCompare((c - d) as real, 1.0, (c + d) as real);
    QuotientCompare((c - d) as real, -1.0, (c + d) as real);
    QuotientNegate((c - d) as real, (c + d) as real);
  }

  lemma QuotientCompare(x: real, q: real, n: real)
    requires n > 0.0
    ensures x / n <= q <==> x <= q * n
    ensures x / n >= q <==> x >= q * n
  {
    assert (x / n) * n == x;
    if x / n <= q { assert (x / n) * n <= q * n; } else { assert (x / n) * n > q * n; }
    if x / n >= q { assert (x / n) * n >= q * n; } else { assert (x / n) * n < q * n; }
  }

  lemma QuotientNegate(x: real, n: real)
    requires n > 0.0
    ensures (-x) / n == -(x / n)
  {
    assert ((-x) / n) * n == -((x / n) * n);
  }

  lemma TauFromCountsMonotone(c: nat, d: nat, c': nat, d': nat)
    requires c + d == c' + d' >= 1 && c <= c'
    ensures TauFromCounts(c, d) <= TauFromCounts(c', d')
  {
    var n, q := (c + d) as real, TauFromCounts(c', d');
    assert q * n == (c' - d') as real;
    QuotientCompare((c - d) as real, q, n);
  }

  /** concordant + discordant = n(n-1)/2 over the n common ids, and tau is their quotient. */
  lemma TauIsQuotient<Id(!new)>(a: seq<Id>, b: seq<Id>)
    requires Comparable(a, b)
    ensures Tau(a, b) == Some(TauFromCounts(PairCount(a, b, Common(a, b), true), PairCount(a, b, Common(a, b), false)))
    ensures PairCount(a, b, Common(a, b), true) + PairCount(a, b, Common(a, b), false) ==
            Triangle(OverlapAtK(a, b)) >= 1
  {
    CommonIsOverlap(a, b);
    CountsPartitionPairs(a, b, Common(a, b));
    var n := OverlapAtK(a, b);
    assert |Common(a, b)| == n >= 2;
    assert Triangle(n) == Triangle(n - 1) + n - 1 >= 1;
    var c, d := PairCount(a, b, Common(a, b), true), PairCount(a, b, Common(a, b), false);
    assert c + d == Triangle(n);
    assert Tau(a, b) == Some(TauFromCounts(c, d));
  }

  lemma TauInRange<Id(!new)>(a: seq<Id>, b: seq<Id>)
    requires Distinct(a) && Distinct(b)
    ensures Tau(a, b).Some? <==> OverlapAtK(a, b) >= 2
    ensures Tau(a, b).Some? ==> -1.0 <= Tau(a, b).value <= 1.0
  {
    CommonIsOverlap(a, b);
    if OverlapAtK(a, b) >= 2 {
      TauIsQuotient(a, b);
      TauFromCountsFacts(PairCount(a, b, Common(a, b), true), PairCount(a, b, Common(a, b), false));
    }
  }

  lemma OrderIsSymmetric<Id>(a: seq<Id>, b: seq<Id>, s: seq<Id>, same: bool)
    ensures PairCount(a, b, s, same) == PairCount(b, a, s, same)
  {
    if s != [] {
      RowSymmetric(a, b, s[0], s[1..], same);
      OrderIsSymmetric(a, b, s[1..], same);
    }
  }

  lemma RowSymmetric<Id>(a: seq<Id>, b: seq<Id>, x: Id, s: seq<Id>, same: bool)
    ensures RowCount(a, b, x, s, same) == RowCount(b, a, x, s, same)
  {
  }

  /** Swapping the arguments does not change tau, although `common` is then listed in the
      other list's order. */
  lemma TauSymmetric<Id(!new)>(a: seq<Id>, b: seq<Id>)
    requires Distinct(a) && Distinct(b)
    ensures Tau(a, b) == Tau(b, a)
  {
    CommonIsOverlap(a, b);
    CommonIsOverlap(b, a);
    var s, t := Common(a, b), Common(b, a);
    DistinctSameMultiset(s, t);
    assert |s| == |multiset(s)| == |multiset(t)| == |t|;
    forall same ensures PairCount(a, b, s, same) == PairCount(b, a, t, same) {
      PairCountPermutes(a, b, s, t, same);
      OrderIsSymmetric(a, b, t, same);
    }
  }

  lemma {:induction false} NoneCounted<Id(!new)>(a: seq<Id>, b: seq<Id>, common: seq<Id>, same: bool)
    requires Distinct(common)
    ensures PairCount(a, b, common, same) == 0
       <==> forall i, j :: 0 <= i < j < |common| ==> !OrderIs(a, b, common[i], common[j], same)
  {
    if common != [] {
      var x, rest := common[0], common[1..];
      NoneInRow(a, b, x, rest, same);
      NoneCounted(a, b, rest, same);
      if forall i, j :: 0 <= i < j < |common| ==> !OrderIs(a, b, common[i], common[j], same) {
        forall j | 0 <= j < |rest| ensures !OrderIs(a, b, x, rest[j], same) {
          assert rest[j] == common[j + 1];
        }
        forall i, j | 0 <= i < j < |rest| ensures !OrderIs(a, b, rest[i], rest[j], same) {
          assert rest[i] == common[i + 1] && rest[j] == common[j + 1];
        }
      }
      if PairCount(a, b, common, same) == 0 {
        forall i, j | 0 <= i < j < |common| ensures !OrderIs(a, b, common[i], common[j], same) {
          assert common[j] == rest[j - 1];
          assert i > 0 ==> common[i] == rest[i - 1];
        }
      }
    }
  }

  lemma {:induction false} NoneInRow<Id>(a: seq<Id>, b: seq<Id>, x: Id, s: seq<Id>, same: bool)
    ensures RowCount(a, b, x, s, same) == 0 <==> forall j :: 0 <= j < |s| ==> !OrderIs(a, b, x, s[j], same)
  {
    if s != [] {
      var init := s[..|s| - 1];
      NoneInRow(a, b, x, init, same);
      assert forall j :: 0 <= j < |init| ==> init[j] == s[j];
    }
  }

  /** No pair is counted exactly when no two common ids stand in that way. */
  lemma NoneCountedById<Id(!new)>(a: seq<Id>, b: seq<Id>, same: bool)
    requires Distinct(a) && Distinct(b)
    ensures PairCount(a, b, Common(a, b), same) == 0
       <==> forall x, y :: x in b && y in b && Above(a, x, y) ==> !OrderIs(a, b, x, y, same)
  {
    var common := Common(a, b);
    CommonIsOverlap(a, b);
    NoneCounted(a, b, common, same);
    if PairCount(a, b, common, same) == 0 {
      forall x, y | x in b && y in b && Above(a, x, y) ensures !OrderIs(a, b, x, y, same) {
        assert x in common && y in common;
        var i :| 0 <= i < |common| && common[i] == x;
        var j :| 0 <= j < |common| && common[j] == y;
        assert OrderIs(a, b, common[i], common[j], same) == OrderIs(a, b, common[j], common[i], same);
      }
    } else {
      var i, j :| 0 <= i < j < |common| && OrderIs(a, b, common[i], common[j], same);
      var x, y := common[i], common[j];
      assert x in common && y in common;
      assert Above(a, x, y) || Above(a, y, x);
      assert OrderIs(a, b, y, x, same);
    }
  }

  /** tau = 1 exactly when the common ids keep their relative order. */
  lemma TauOneIffOrderKept<Id(!new)>(a: seq<Id>, b: seq<Id>)
    requires Comparable(a, b)
    ensures Tau(a, b) == Some(1.0) <==> forall x, y :: x in b && y in b && Above(a, x, y) ==> Above(b, x, y)
  {
    TauIsQuotient(a, b);
    TauFromCountsFacts(PairCount(a, b, Common(a, b), true), PairCount(a, b, Common(a, b), false));
    NoneCountedById(a, b, false);
    assert forall x, y :: x in b && y in b && Above(a, x, y) ==> (Above(b, x, y) <==> !OrderIs(a, b, x, y, false));
  }

  /** tau = -1 exactly when every common pair is turned round. */
  lemma TauMinusOneIffReversed<Id(!new)>(a: seq<Id>, b: seq<Id>)
    requires Comparable(a, b)
    ensures Tau(a, b) == Some(-1.0) <==> forall x, y :: x in b && y in b && Above(a, x, y) ==> Above(b, y, x)
  {
    TauIsQuotient(a, b);
    TauFromCountsFacts(PairCount(a, b, Common(a, b), true), PairCount(a, b, Common(a, b), false));
    NoneCountedById(a, b, true);
    assert forall x, y :: x in b && y in b && Above(a, x, y) ==> (Above(b, y, x) <==> !OrderIs(a, b, x, y, true));
  }

  function Reversed<Id>(s: seq<Id>): (r: seq<Id>)
    ensures |r| == |s|
    ensures forall i :: 0 <= i < |s| ==> r[i] == s[|s| - 1 - i]
  {
    seq(|s|, i requires 0 <= i < |s| => s[|s| - 1 - i])
  }

  lemma ReversedRanks<Id(!new)>(b: seq<Id>)
    requires Distinct(b)
    ensures Distinct(Reversed(b))
    ensures forall x :: x in Reversed(b) <==> x in b
    ensures forall x :: x in b ==> Rank(Reversed(b), x) == |b| - 1 - Rank(b, x)
  {
    var r := Reversed(b);
    forall x | x in b ensures x in r && Rank(r, x) == |b| - 1 - Rank(b, x) {
      assert r[|b| - 1 - Rank(b, x)] == x;
      RankOfElement(r, |b| - 1 - Rank(b, x));
    }
    forall x | x in r ensures x in b {
      assert r[Rank(r, x)] in b;
    }
  }

  /** Reversing one list negates tau. */
  lemma TauNegatedByReversal<Id(!new)>(a: seq<Id>, b: seq<Id>)
    requires Comparable(a, b)
    ensures Tau(a, b).Some? && Tau(a, Reversed(b)) == Some(-Tau(a, b).value)
  {
    ReversalTurnsCounts(a, b);
    TauIsQuotient(a, b);
    TauIsQuotient(a, Reversed(b));
    TauFromCountsFacts(PairCount(a, b, Common(a, b), true), PairCount(a, b, Common(a, b), false));
  }

  lemma ReversalTurnsCounts<Id(!new)>(a: seq<Id>, b: seq<Id>)
    requires Comparable(a, b)
    ensures Comparable(a, Reversed(b)) && OverlapAtK(a, Reversed(b)) == OverlapAtK(a, b)
    ensures PairCount(a, Reversed(b), Common(a, Reversed(b)), true) == PairCount(a, b, Common(a, b), false)
  {
    var r := Reversed(b);
    ReversedRanks(b);
    assert Elements(r) == Elements(b);
    CommonIsOverlap(a, b);
    var common := Common(a, b);
    forall x, y | x in common && y in common
      ensures OrderIs(a, r, x, y, true) == OrderIs(a, b, x, y, false) {}
    TurnedRound(a, b, r, common);
  }

  lemma {:induction false} TurnedRound<Id(!new)>(a: seq<Id>, b: seq<Id>, r: seq<Id>, common: seq<Id>)
    requires forall x, y :: x in common && y in common ==> OrderIs(a, r, x, y, true) == OrderIs(a, b, x, y, false)
    ensures PairCount(a, r, common, true) == PairCount(a, b, common, false)
  {
    if common != [] {
      var x, rest := common[0], common[1..];
      forall y | y in rest ensures y in common {}
      RowTurnedRound(a, b, r, x, rest);
      TurnedRound(a, b, r, rest);
    }
  }

  lemma {:induction false} RowTurnedRound<Id(!new)>(a: seq<Id>, b: seq<Id>, r: seq<Id>, x: Id, s: seq<Id>)
    requires forall y :: y in s ==> OrderIs(a, r, x, y, true) == OrderIs(a, b, x, y, false)
    ensures RowCount(a, r, x, s, true) == RowCount(a, b, x, s, false)
  {
    if s != [] {
      forall y | y in s[..|s| - 1] ensures y in s {}
      RowTurnedRound(a, b, r, x, s[..|s| - 1]);
    }
  }

  /** Losing agreements over the same ids never raises tau. */
  lemma TauFollowsAgreements<Id(!new)>(a: seq<Id>, b: seq<Id>, c: seq<Id>)
    requires Comparable(a, b) && Distinct(c) && Elements(b) == Elements(c)
    requires forall x, y :: x in a && y in a && OrderIs(a, c, x, y, true) ==> OrderIs(a, b, x, y, true)
    ensures Tau(a, b).Some? && Tau(a, c).Some? && Tau(a, c).value <= Tau(a, b).value
  {
    CommonIsOverlap(a, b);
    CountMonotone(a, c, b, Common(a, b), true);
    TauIsQuotient(a, b);
    TauIsQuotient(a, c);
    TauFromCountsMonotone(PairCount(a, c, Common(a, c), true), PairCount(a, c, Common(a, c), false),
                          PairCount(a, b, Common(a, b), true), PairCount(a, b, Common(a, b), false));
  }

  // ----- the metrics in terms of positions -----

  /** x stands last at position i. */
  ghost predicate LastAt<Id>(ids: seq<Id>, x: Id, i: nat) {
    i < |ids| && ids[i] == x && forall j :: i < j < |ids| ==> ids[j] != x
  }

  lemma {:induction false} RankIsLast<Id>(ids: seq<Id>, x: Id)
    ensures x in ids ==> Rank(ids, x) >= 0 && LastAt(ids, x, Rank(ids, x))
    ensures forall i: nat :: LastAt(ids, x, i) ==> x in ids && Rank(ids, x) == i
  {
    if ids != [] {
      var init := ids[..|ids| - 1];
      RankIsLast(init, x);
      assert ids == init + [ids[|ids| - 1]];
      if ids[|ids| - 1] != x && x in ids {
        assert x in init && LastAt(init, x, Rank(init, x));
        forall j | Rank(init, x) < j < |ids| ensures ids[j] != x {
          assert j < |init| ==> ids[j] == init[j];
        }
      }
      forall i: nat | LastAt(ids, x, i) ensures x in ids && Rank(ids, x) == i {
        if ids[|ids| - 1] != x {
          assert x in ids && LastAt(ids, x, Rank(ids, x));
          assert !(i < Rank(ids, x)) && !(Rank(ids, x) < i);
        }
      }
    }
  }

  /** Both lists put x and y in the same order (`same`), or in opposite orders. */
  ghost predicate Compares<Id>(a: seq<Id>, b: seq<Id>, x: Id, y: Id, same: bool) {
    exists p, q, u, v ::
      && Placed(a, x, y, p, q) && Placed(b, x, y, u, v) && p != q && u != v
      && (same <==> (p < q <==> u < v))
  }

  ghost predicate Placed<Id>(ids: seq<Id>, x: Id, y: Id, p: nat, q: nat) {
    LastAt(ids, x, p) && LastAt(ids, y, q)
  }

  lemma ComparesExactly<Id>(a: seq<Id>, b: seq<Id>, x: Id, y: Id, same: bool)
    requires x in a && y in a && x in b && y in b
    ensures OrderIs(a, b, x, y, same) <==> Compares(a, b, x, y, same)
  {
    RankIsLast(a, x);
    RankIsLast(a, y);
    RankIsLast(b, x);
    RankIsLast(b, y);
    assert Placed(a, x, y, Rank(a, x), Rank(a, y)) && Placed(b, x, y, Rank(b, x), Rank(b, y));
  }

  /** The pairs of positions in the common list whose ids compare that way. */
  ghost function PairsThat<Id>(a: seq<Id>, b: seq<Id>, common: seq<Id>, same: bool): set<(nat, nat)> {
    set i: nat, j: nat | i < j < |common| && Compares(a, b, common[i], common[j], same) :: (i, j)
  }

  /** The positions of such a pair. */
  ghost predicate IsPair<Id>(a: seq<Id>, b: seq<Id>, common: seq<Id>, same: bool, p: (nat, nat)) {
    p.0 < p.1 < |common| && Compares(a, b, common[p.0], common[p.1], same)
  }

  /** The pairs (i, q) with q below j, listed once each. */
  ghost predicate RowListed<Id>(a: seq<Id>, b: seq<Id>, common: seq<Id>, i: nat, j: nat, same: bool,
      row: seq<(nat, nat)>)
  {
    Distinct(row) && forall p: (nat, nat) :: p in row <==> IsPair(a, b, common, same, p) && p.0 == i && p.1 < j
  }

  function PairOf(i: nat, j: nat): (nat, nat) { (i, j) }

  lemma EmptyRow<Id>(a: seq<Id>, b: seq<Id>, common: seq<Id>, i: nat, same: bool)
    ensures RowListed(a, b, common, i, i + 1, same, [])
  {
  }

  lemma OneMoreInRow<Id>(a: seq<Id>, b: seq<Id>, common: seq<Id>, i: nat, j: nat, same: bool,
      row: seq<(nat, nat)>, more: seq<(nat, nat)>)
    requires i < j < |common| && RowListed(a, b, common, i, j, same, row)
    requires more == if Compares(a, b, common[i], common[j], same) then row + [PairOf(i, j)] else row
    ensures RowListed(a, b, common, i, j + 1, same, more)
  {
    assert IsPair(a, b, common, same, PairOf(i, j)) <==> Compares(a, b, common[i], common[j], same);
    assert PairOf(i, j) !in row;
    forall p: (nat, nat) | IsPair(a, b, common, same, p) && p.0 == i && p.1 < j + 1
      ensures p in row || p == PairOf(i, j)
    {
      assert p.1 < j || p == PairOf(i, j);
    }
  }

  /** The ids of position i and of the positions up to j. */
  lemma {:induction false} ListRow<Id>(a: seq<Id>, b: seq<Id>, common: seq<Id>, i: nat, j: nat, same: bool)
      returns (row: seq<(nat, nat)>)
    requires i < j <= |common| && forall k :: 0 <= k < |common| ==> common[k] in a && common[k] in b
    ensures RowListed(a, b, common, i, j, same, row)
    ensures |row| == RowCount(a, b, common[i], common[i + 1..j], same)
    decreases j
  {
    if j == i + 1 {
      EmptyRow(a, b, common, i, same);
      row := [];
    } else {
      var k: nat := j - 1;
      var before := ListRow(a, b, common, i, k, same);
      RowExtends(a, b, common, i, k, same);
      ComparesExactly(a, b, common[i], common[k], same);
      row := if Compares(a, b, common[i], common[k], same) then before + [PairOf(i, k)] else before;
      OneMoreInRow(a, b, common, i, k, same, before, row);
    }
  }

  lemma RowThenLater<Id>(a: seq<Id>, b: seq<Id>, common: seq<Id>, i: nat, same: bool,
      row: seq<(nat, nat)>, later: seq<(nat, nat)>)
    requires RowListed(a, b, common, i, |common|, same, row) && Distinct(later)
    requires forall p: (nat, nat) :: p in later <==> IsPair(a, b, common, same, p) && i < p.0
    ensures Distinct(row + later)
    ensures forall p: (nat, nat) :: p in row + later <==> IsPair(a, b, common, same, p) && i <= p.0
  {
    forall k, m | 0 <= k < |row| && 0 <= m < |later| ensures row[k] != later[m] {
      assert row[k] in row && later[m] in later;
    }
  }

  lemma {:induction false} ListPairs<Id>(a: seq<Id>, b: seq<Id>, common: seq<Id>, i: nat, same: bool)
      returns (pairs: seq<(nat, nat)>)
    requires i <= |common| && forall k :: 0 <= k < |common| ==> common[k] in a && common[k] in b
    ensures Distinct(pairs) && |pairs| == PairCount(a, b, common[i..], same)
    ensures forall p: (nat, nat) :: p in pairs <==> IsPair(a, b, common, same, p) && i <= p.0
    decreases |common| - i
  {
    if i == |common| {
      pairs := [];
    } else {
      var later := ListPairs(a, b, common, i + 1, same);
      var row := ListRow(a, b, common, i, |common|, same);
      RowDone(a, b, common, i, same);
      assert common[i + 1..|common|] == common[i + 1..];
      RowThenLater(a, b, common, i, same, row, later);
      pairs := row + later;
    }
  }

  lemma PairCountExactly<Id>(a: seq<Id>, b: seq<Id>, common: seq<Id>, same: bool)
    requires forall k :: 0 <= k < |common| ==> common[k] in a && common[k] in b
    ensures PairCount(a, b, common, same) == |PairsThat(a, b, common, same)|
  {
    var pairs := ListPairs(a, b, common, 0, same);
    assert common[0..] == common;
    DistinctCardinality(pairs);
    forall p: (nat, nat) ensures p in pairs <==> p in PairsThat(a, b, common, same) {
      assert p == (p.0, p.1);
    }
    assert Elements(pairs) == PairsThat(a, b, common, same);
  }

  function InList<Id(==)>(ids: seq<Id>): Id -> bool {
    (x: Id) => x in ids
  }

  function NotInList<Id(==)>(ids: seq<Id>): Id -> bool {
    (x: Id) => x !in ids
  }

  lemma LastKeptOrNot<Id>(ids: seq<Id>, other: set<Id>)
    requires ids != []
    ensures var init, last := ids[..|ids| - 1], ids[|ids| - 1];
            && Keep(ids, other) == (if last in other then Keep(init, other) + [last] else Keep(init, other))
            && Discard(ids, other) == (if last in other then Discard(init, other) else Discard(init, other) + [last])
  {
  }

  lemma {:induction false} KeptIsKept<Id>(ids: seq<Id>, other: seq<Id>)
    ensures IsKept(ids, Keep(ids, Elements(other)), InList(other))
  {
    if ids == [] {
      KeptNone(InList(other));
    } else {
      var init, last := ids[..|ids| - 1], ids[|ids| - 1];
      LastKeptOrNot(ids, Elements(other));
      assert ids == init + [last];
      KeptIsKept(init, other);
      KeptGrows(init, Keep(init, Elements(other)), InList(other), last, ids, Keep(ids, Elements(other)));
    }
  }

  lemma {:induction false} RestIsKept<Id>(ids: seq<Id>, other: seq<Id>)
    ensures IsKept(ids, Discard(ids, Elements(other)), NotInList(other))
  {
    if ids == [] {
      KeptNone(NotInList(other));
    } else {
      var init, last := ids[..|ids| - 1], ids[|ids| - 1];
      LastKeptOrNot(ids, Elements(other));
      assert ids == init + [last];
      RestIsKept(init, other);
      KeptGrows(init, Discard(init, Elements(other)), NotInList(other), last, ids, Discard(ids, Elements(other)));
    }
  }

  lemma KeepExactly<Id>(ids: seq<Id>, other: seq<Id>)
    ensures IsKept(ids, Keep(ids, Elements(other)), InList(other))
    ensures IsKept(ids, Discard(ids, Elements(other)), NotInList(other))
  {
    KeptIsKept(ids, other);
    RestIsKept(ids, other);
  }

  /** tau times the number of compared pairs is the number of pairs in the same order less those in opposite orders;
      it is missing below two common entries, and 0 if no pair can be compared. */
  ghost predicate TauOver<Id>(a: seq<Id>, b: seq<Id>, common: seq<Id>, tau: Option<real>) {
    && (tau.None? <==> |common| < 2)
    && (tau.Some? ==> IsShare(tau.value, |PairsThat(a, b, common, true)|, |PairsThat(a, b, common, false)|))
  }

  ghost predicate IsShare(value: real, c: nat, d: nat) {
    if c + d == 0 then value == 0.0 else IsQuotient(value, (c - d) as real, (c + d) as real)
  }

  ghost predicate TauExplained<Id(!new)>(a: seq<Id>, b: seq<Id>, tau: Option<real>) {
    exists common :: IsKept(a, common, InList(b)) && TauOver(a, b, common, tau)
  }

  lemma CountsAreShare(c: nat, d: nat)
    ensures IsShare(TauFromCounts(c, d), c, d)
  {
    if c + d != 0 {
      QuotientIs((c - d) as real, (c + d) as real);
    }
  }

  lemma TauExactly<Id(!new)>(a: seq<Id>, b: seq<Id>)
    ensures TauExplained(a, b, Tau(a, b))
  {
    var common := Keep(a, Elements(b));
    KeepExactly(a, b);
    KeepMembers(a, Elements(b));
    forall k | 0 <= k < |common| ensures common[k] in a && common[k] in b {
      assert common[k] in common;
    }
    PairCountExactly(a, b, common, true);
    PairCountExactly(a, b, common, false);
    CountsAreShare(PairCount(a, b, common, true), PairCount(a, b, common, false));
    assert TauOver(a, b, common, Tau(a, b));
  }

  /** The Jaccard ratio is the share of the common ids among all. */
  lemma JaccardExactly<Id>(a: seq<Id>, b: seq<Id>)
    ensures var all := Elements(a) + Elements(b);
            if all == {} then JaccardAtK(a, b) == 1.0
            else IsQuotient(JaccardAtK(a, b), |Elements(a) * Elements(b)| as real, |all| as real)
  {
    var all := Elements(a) + Elements(b);
    if all != {} {
      QuotientIs(|Elements(a) * Elements(b)| as real, |all| as real);
    }
  }
}
