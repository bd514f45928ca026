/** Python's ordering tools: code-point order on strings, and `sorted`, which is stable.

    `less` is the strict order of the sort key.  `reverse=True` keeps equal keys in their
    original order, so it is the same stable sort with the key order turned round. */
module Sorting {
  import opened Prelude

  // ----- stable sort -----

  ghost predicate StrictWeakOrder<T(!new)>(less: (T, T) -> bool) {
    && (forall a, b :: less(a, b) ==> !less(b, a))
    && (forall a, b, c :: less(a, c) ==> less(a, b) || less(b, c))
  }

  /** Puts x before the first element that is not strictly smaller. */
  function Insert<T>(x: T, s: seq<T>, less: (T, T) -> bool): seq<T> {
    if s == [] || !less(s[0], x) then [x] + s
    else [s[0]] + Insert(x, s[1..], less)
  }

  function StableSort<T>(s: seq<T>, less: (T, T) -> bool): seq<T> {
    if s == [] then [] else Insert(s[0], StableSort(s[1..], less), less)
  }

  lemma {:induction false} InsertMultiset<T>(x: T, s: seq<T>, less: (T, T) -> bool)
    ensures multiset(Insert(x, s, less)) == multiset(s) + multiset{x}
  {
    if s != [] && less(s[0], x) {
      InsertMultiset(x, s[1..], less);
      assert s == [s[0]] + s[1..];
    }
  }

  /** Sorting permutes. */
  lemma {:induction false} StableSortMultiset<T>(s: seq<T>, less: (T, T) -> bool)
    ensures multiset(StableSort(s, less)) == multiset(s)
    ensures |StableSort(s, less)| == |s|
  {
    if s != [] {
      StableSortMultiset(s[1..], less);
      InsertMultiset(s[0], StableSort(s[1..], less), less);
      assert s == [s[0]] + s[1..];
    }
    assert |multiset(StableSort(s, less))| == |multiset(s)|;
  }

  ghost predicate InOrder<T>(s: seq<T>, before: (T, T) -> bool) {
    forall i, j :: 0 <= i < j < |s| ==> before(s[i], s[j])
  }

  /** x comes first by key, or the keys tie and x came first already. */
  ghost predicate RanksBefore<T>(less: (T, T) -> bool, before: (T, T) -> bool, x: T, y: T) {
    less(x, y) || (!less(y, x) && before(x, y))
  }

  ghost predicate Ranked<T>(s: seq<T>, less: (T, T) -> bool, before: (T, T) -> bool) {
    forall i, j :: 0 <= i < j < |s| ==> RanksBefore(less, before, s[i], s[j])
  }

  lemma {:induction false} InsertKeepsRank<T(!new)>(
      x: T, s: seq<T>, less: (T, T) -> bool, before: (T, T) -> bool)
    requires StrictWeakOrder(less)
    requires Ranked(s, less, before)
    requires forall y :: y in s ==> before(x, y)
    ensures Ranked(Insert(x, s, less), less, before)
  {
    if s == [] {
    } else if !less(s[0], x) {
      forall y | y in s ensures RanksBefore(less, before, x, y) {
        FirstIsSmallest(s, less, before, y);
        assert less(y, s[0]) || less(s[0], x) || !less(y, x);
      }
      RankedCons(x, s, less, before);
    } else {
      var rest := Insert(x, s[1..], less);
      InsertMultiset(x, s[1..], less);
      assert Ranked(s[1..], less, before) && forall y :: y in s[1..] ==> y in s;
      InsertKeepsRank(x, s[1..], less, before);
      forall y | y in rest ensures RanksBefore(less, before, s[0], y) {
        assert y in multiset(rest);
        if y != x {
          assert y in s[1..];
          FirstRanksBefore(s, less, before, y);
        }
      }
      RankedCons(s[0], rest, less, before);
    }
  }

  lemma FirstRanksBefore<T(!new)>(s: seq<T>, less: (T, T) -> bool, before: (T, T) -> bool, y: T)
    requires Ranked(s, less, before)
    requires s != [] && y in s[1..]
    ensures RanksBefore(less, before, s[0], y)
  {
    var k :| 0 <= k < |s[1..]| && s[1..][k] == y;
    assert s[k + 1] == y;
  }

  lemma FirstIsSmallest<T(!new)>(s: seq<T>, less: (T, T) -> bool, before: (T, T) -> bool, y: T)
    requires StrictWeakOrder(less)
    requires Ranked(s, less, before)
    requires y in s
    ensures !less(y, s[0])
  {
    var k :| 0 <= k < |s| && s[k] == y;
    assert k > 0 ==> RanksBefore(less, before, s[0], s[k]);
  }

  lemma RankedCons<T(!new)>(x: T, s: seq<T>, less: (T, T) -> bool, before: (T, T) -> bool)
    requires Ranked(s, less, before)
    requires forall y :: y in s ==> RanksBefore(less, before, x, y)
    ensures Ranked([x] + s, less, before)
  {
  }

  /** Stability: whatever relation the input was arranged by decides the ties. */
  lemma {:induction false} StableSortRanks<T(!new)>(
      s: seq<T>, less: (T, T) -> bool, before: (T, T) -> bool)
    requires StrictWeakOrder(less)
    requires InOrder(s, before)
    ensures Ranked(StableSort(s, less), less, before)
  {
    if s != [] {
      var rest := StableSort(s[1..], less);
      assert InOrder(s[1..], before) by {
        forall i, j | 0 <= i < j < |s[1..]| ensures before(s[1..][i], s[1..][j]) {
          assert s[1..][i] == s[i + 1] && s[1..][j] == s[j + 1];
        }
      }
      StableSortRanks(s[1..], less, before);
      StableSortMultiset(s[1..], less);
      forall y | y in rest ensures before(s[0], y) {
        assert y in multiset(rest);
        assert y in s[1..];
        var k :| 0 <= k < |s[1..]| && s[1..][k] == y;
        assert s[k + 1] == y;
      }
      InsertKeepsRank(s[0], rest, less, before);
    }
  }

  predicate AnyOrder<T>(a: T, b: T) { true }

  /** In a sorted sequence no element is strictly smaller than an earlier one. */
  lemma StableSortAscends<T(!new)>(s: seq<T>, less: (T, T) -> bool, i: nat, j: nat)
    requires StrictWeakOrder(less) && i < j < |StableSort(s, less)|
    ensures !less(StableSort(s, less)[j], StableSort(s, less)[i])
  {
    StableSortRanks(s, less, AnyOrder);
    assert RanksBefore(less, AnyOrder, StableSort(s, less)[i], StableSort(s, less)[j]);
  }

  /** Sorting keeps a sequence duplicate-free and keeps its members. */
  lemma StableSortElements<T>(s: seq<T>, less: (T, T) -> bool)
    ensures forall x :: x in StableSort(s, less) <==> x in s
    ensures Distinct(s) ==> Distinct(StableSort(s, less))
    ensures |StableSort(s, less)| == |s|
  {
    var r := StableSort(s, less);
    StableSortMultiset(s, less);
    forall x ensures x in r <==> x in s {
      assert x in multiset(r) <==> x in multiset(s);
    }
    if Distinct(s) {
      MultisetOfDistinct(s);
      DistinctFromMultiset(r);
    }
  }

  // ----- a sort in terms of positions -----

  /** r arranges the positions of s: ascending by key, equal keys in their order in s. */
  ghost predicate IsSort<T>(r: seq<T>, s: seq<T>, less: (T, T) -> bool) {
    exists at :: SortedAt(r, s, less, at)
  }

  ghost predicate SortedAt<T>(r: seq<T>, s: seq<T>, less: (T, T) -> bool, at: seq<nat>) {
    && |r| == |s| == |at| && Distinct(at)
    && (forall i :: 0 <= i < |at| ==> at[i] < |s| && r[i] == s[at[i]])
    && forall i, j :: 0 <= i < j < |at| ==> less(r[i], r[j]) || (!less(r[j], r[i]) && at[i] < at[j])
  }

  /** r arranges the positions of s so that any two elements are in order; the order is also told which of the two
      came first in s. */
  ghost predicate Arranges<T>(r: seq<T>, s: seq<T>, order: (T, T, bool) -> bool) {
    exists at :: ArrangesAt(r, s, order, at)
  }

  ghost predicate ArrangesAt<T>(r: seq<T>, s: seq<T>, order: (T, T, bool) -> bool, at: seq<nat>) {
    && |r| == |s| == |at| && Distinct(at)
    && (forall i :: 0 <= i < |at| ==> at[i] < |s| && r[i] == s[at[i]])
    && forall i, j :: 0 <= i < j < |at| ==> order(r[i], r[j], at[i] < at[j])
  }

  function Tagged<T>(s: seq<T>): (t: seq<(T, nat)>)
    ensures |t| == |s| && forall i :: 0 <= i < |s| ==> t[i] == (s[i], i)
  {
    seq(|s|, i requires 0 <= i < |s| => (s[i], i))
  }

  function First<T>(p: (T, nat)): T { p.0 }

  function Tag<T>(p: (T, nat)): nat { p.1 }

  function OnFirst<T>(less: (T, T) -> bool): ((T, nat), (T, nat)) -> bool {
    (p: (T, nat), q: (T, nat)) => less(p.0, q.0)
  }

  predicate TagLess<T>(p: (T, nat), q: (T, nat)) { p.1 < q.1 }

  lemma {:induction false} InsertTagged<T>(p: (T, nat), t: seq<(T, nat)>, less: (T, T) -> bool)
    ensures MapSeq(Insert(p, t, OnFirst(less)), First) == Insert(p.0, MapSeq(t, First), less)
  {
    if t != [] {
      InsertTagged(p, t[1..], less);
      assert MapSeq(t, First)[1..] == MapSeq(t[1..], First);
    }
  }

  lemma {:induction false} SortTagged<T>(t: seq<(T, nat)>, less: (T, T) -> bool)
    ensures MapSeq(StableSort(t, OnFirst(less)), First) == StableSort(MapSeq(t, First), less)
  {
    if t != [] {
      SortTagged(t[1..], less);
      InsertTagged(t[0], StableSort(t[1..], OnFirst(less)), less);
      assert MapSeq(t, First)[1..] == MapSeq(t[1..], First);
    }
  }

  lemma TaggedFits<T(!new)>(s: seq<T>, less: (T, T) -> bool)
    requires StrictWeakOrder(less)
    ensures StrictWeakOrder(OnFirst(less)) && InOrder(Tagged(s), TagLess)
  {
    forall p: (T, nat), q: (T, nat) ensures OnFirst(less)(p, q) ==> !OnFirst(less)(q, p) {
      assert less(p.0, q.0) ==> !less(q.0, p.0);
    }
    forall p: (T, nat), q: (T, nat), r: (T, nat)
      ensures OnFirst(less)(p, r) ==> OnFirst(less)(p, q) || OnFirst(less)(q, r) {
      assert less(p.0, r.0) ==> less(p.0, q.0) || less(q.0, r.0);
    }
  }

  /** The sorted list of pairs, each pair with its element and its position. */
  lemma TaggedRanked<T(!new)>(s: seq<T>, less: (T, T) -> bool, r: seq<(T, nat)>)
    requires StrictWeakOrder(less) && r == StableSort(Tagged(s), OnFirst(less))
    ensures Ranked(r, OnFirst(less), TagLess) && Distinct(r) && |r| == |s|
    ensures forall x :: x in r <==> x in Tagged(s)
  {
    TaggedFits(s, less);
    StableSortRanks(Tagged(s), OnFirst(less), TagLess);
    StableSortElements(Tagged(s), OnFirst(less));
  }

  /** `sorted` arranges positions by key and leaves equal keys in place. */
  lemma StableSortSorts<T(!new)>(s: seq<T>, less: (T, T) -> bool)
    requires StrictWeakOrder(less)
    ensures IsSort(StableSort(s, less), s, less)
  {
    var t := Tagged(s);
    var r := StableSort(t, OnFirst(less));
    SortTagged(t, less);
    assert MapSeq(t, First) == s;
    TaggedRanked(s, less, r);
    forall i | 0 <= i < |r| ensures r[i].1 < |s| && r[i].0 == s[r[i].1] {
      assert r[i] in t;
    }
    TagsDistinct(t, r);
    forall i, j | 0 <= i < j < |r| ensures less(r[i].0, r[j].0) || (!less(r[j].0, r[i].0) && r[i].1 < r[j].1) {
      assert RanksBefore(OnFirst(less), TagLess, r[i], r[j]);
    }
    assert SortedAt(MapSeq(r, First), s, less, MapSeq(r, Tag));
  }

  /** An order that follows from the sort key is the one the sorted list is in. */
  lemma SortArranges<T(!new)>(s: seq<T>, less: (T, T) -> bool, order: (T, T, bool) -> bool)
    requires StrictWeakOrder(less)
    requires forall x, y, earlier :: less(x, y) || (!less(y, x) && earlier) ==> order(x, y, earlier)
    ensures Arranges(StableSort(s, less), s, order)
  {
    StableSortSorts(s, less);
    var at :| SortedAt(StableSort(s, less), s, less, at);
    assert ArrangesAt(StableSort(s, less), s, order, at);
  }

  lemma TagsDistinct<T(!new)>(t: seq<(T, nat)>, r: seq<(T, nat)>)
    requires forall i :: 0 <= i < |t| ==> t[i].1 == i
    requires Distinct(r) && forall x :: x in r <==> x in t
    ensures Distinct(MapSeq(r, Tag))
  {
    forall i, j | 0 <= i < j < |r| ensures r[i].1 != r[j].1 {
      assert r[i] in t && r[j] in t;
    }
  }

  lemma FirstOfOrdered<T(!new)>(s: seq<T>, t: seq<T>, le: (T, T) -> bool)
    requires InOrder(s, le) && s != [] && t != [] && multiset(s) == multiset(t)
    ensures s[0] == t[0] || le(s[0], t[0])
  {
    assert t[0] in multiset(s);
    var i :| 0 <= i < |s| && s[i] == t[0];
  }

  lemma DropFirst<T>(s: seq<T>)
    requires s != []
    ensures multiset(s[1..]) == multiset(s) - multiset{s[0]}
  {
    assert s == [s[0]] + s[1..];
  }

  /** A list in a total order is determined by its multiset. */
  lemma {:induction false} OrderedUnique<T(!new)>(s: seq<T>, t: seq<T>, le: (T, T) -> bool)
    requires forall x, y :: le(x, y) && le(y, x) ==> x == y
    requires InOrder(s, le) && InOrder(t, le) && multiset(s) == multiset(t)
    ensures s == t
  {
    assert |s| == |multiset(s)| && |t| == |multiset(t)|;
    if s != [] {
      FirstOfOrdered(s, t, le);
      FirstOfOrdered(t, s, le);
      DropFirst(s);
      DropFirst(t);
      OrderedUnique(s[1..], t[1..], le);
      assert s == [s[0]] + s[1..] && t == [t[0]] + t[1..];
    }
  }

  function Without<T>(s: seq<T>, j: nat): seq<T>
    requires j < |s|
  {
    s[..j] + s[j + 1..]
  }

  lemma WithoutMultiset<T>(s: seq<T>, j: nat)
    requires j < |s|
    ensures multiset(s) == multiset(Without(s, j)) + multiset{s[j]}
  {
    assert s == s[..j] + [s[j]] + s[j + 1..];
  }

  lemma CancelOne<T>(a: multiset<T>, b: multiset<T>, x: T)
    requires a + multiset{x} == b + multiset{x}
    ensures a == b
  {
    assert a == a + multiset{x} - multiset{x};
  }

  /** Removing the same element from two lists, or putting it back, keeps them permutations of each other. */
  lemma SameWithout<T>(s: seq<T>, i: nat, t: seq<T>, j: nat)
    requires i < |s| && j < |t| && s[i] == t[j]
    ensures multiset(s) == multiset(t) <==> multiset(Without(s, i)) == multiset(Without(t, j))
  {
    WithoutMultiset(s, i);
    WithoutMultiset(t, j);
    if multiset(s) == multiset(t) {
      CancelOne(multiset(Without(s, i)), multiset(Without(t, j)), s[i]);
    }
  }

  lemma MapWithout<T, U>(s: seq<T>, i: nat, f: T -> U)
    requires i < |s|
    ensures Without(MapSeq(s, f), i) == MapSeq(Without(s, i), f)
  {
  }

  /** Mapping permuted lists gives permuted lists. */
  lemma {:induction false} MapOfPermutation<T(!new), U(!new)>(s: seq<T>, t: seq<T>, f: T -> U)
    requires multiset(s) == multiset(t)
    ensures multiset(MapSeq(s, f)) == multiset(MapSeq(t, f))
  {
    assert |s| == |multiset(s)| && |t| == |multiset(t)|;
    if s == [] {
      assert t == [];
    } else {
      assert s[0] in multiset(t);
      var j :| 0 <= j < |t| && t[j] == s[0];
      SameWithout(s, 0, t, j);
      MapOfPermutation(Without(s, 0), Without(t, j), f);
      MapWithout(s, 0, f);
      MapWithout(t, j, f);
      SameWithout(MapSeq(s, f), 0, MapSeq(t, f), j);
    }
  }

  function MapSeq<T, U>(s: seq<T>, f: T -> U): (r: seq<U>)
    ensures |r| == |s|
    ensures forall i :: 0 <= i < |s| ==> r[i] == f(s[i])
  {
    seq(|s|, i requires 0 <= i < |s| => f(s[i]))
  }

  lemma MapOneMore<T, U>(s: seq<T>, f: T -> U, i: nat)
    requires i < |s|
    ensures MapSeq(s[..i + 1], f) == MapSeq(s[..i], f) + [f(s[i])]
  {
  }

  lemma MapLast<T, U>(s: seq<T>, f: T -> U, x: T)
    ensures MapSeq(s + [x], f) == MapSeq(s, f) + [f(x)]
  {
  }

  lemma MapSeqTail<T, U>(s: seq<T>, f: T -> U)
    requires s != []
    ensures MapSeq(s, f)[1..] == MapSeq(s[1..], f)
  {
  }

  // ----- code-point order on strings -----

  /** A string used as a name: compared for equality and ordered, never taken apart. */
  datatype Text = Text(chars: string)

  predicate CharsLess(a: string, b: string) {
    if b == [] then false
    else if a == [] then true
    else a[0] < b[0] || (a[0] == b[0] && CharsLess(a[1..], b[1..]))
  }

  lemma {:induction false} CharsLessTotal(a: string, b: string)
    ensures CharsLess(a, b) || CharsLess(b, a) || a == b
    ensures CharsLess(a, b) ==> !CharsLess(b, a) && a != b
  {
    if a != [] && b != [] && a[0] == b[0] {
      CharsLessTotal(a[1..], b[1..]);
      assert a == [a[0]] + a[1..] && b == [b[0]] + b[1..];
    }
  }

  lemma {:induction false} CharsLessTransitive(a: string, b: string, c: string)
    requires CharsLess(a, b) && CharsLess(b, c)
    ensures CharsLess(a, c)
  {
    if a != [] && a[0] == b[0] == c[0] {
      CharsLessTransitive(a[1..], b[1..], c[1..]);
    }
  }

  /** The first difference decides: one string has ended, or has the smaller character. */
  ghost predicate DiffersAt(a: string, b: string, i: nat) {
    i <= |a| && i < |b| && a[..i] == b[..i] && (i < |a| ==> a[i] < b[i])
  }

  lemma {:induction false} CharsLessExactly(a: string, b: string)
    ensures CharsLess(a, b) <==> exists i: nat :: DiffersAt(a, b, i)
  {
    if a != [] && b != [] {
      CharsLessExactly(a[1..], b[1..]);
      if a[0] == b[0] && CharsLess(a, b) {
        var i: nat :| DiffersAt(a[1..], b[1..], i);
        assert a[..i + 1] == [a[0]] + a[1..][..i] && b[..i + 1] == [b[0]] + b[1..][..i];
        assert DiffersAt(a, b, i + 1);
      }
      if i: nat :| DiffersAt(a, b, i) && i > 0 {
        assert a[0] == a[..i][0] && b[0] == b[..i][0];
        assert a[1..][..i - 1] == a[..i][1..] && b[1..][..i - 1] == b[..i][1..];
        assert DiffersAt(a[1..], b[1..], i - 1);
      }
    }
    if CharsLess(a, b) && (a == [] || a[0] != b[0]) {
      assert DiffersAt(a, b, 0);
    }
  }

  predicate TextLess(a: Text, b: Text) {
    CharsLess(a.chars, b.chars)
  }

  /** TextLess is a strict total order. */
  lemma TextOrder()
    ensures StrictWeakOrder(TextLess)
    ensures forall a, b :: TextLess(a, b) || TextLess(b, a) || a == b
    ensures forall a, b :: TextLess(a, b) ==> !TextLess(b, a) && a != b
    ensures forall a, b, c :: TextLess(a, b) && TextLess(b, c) ==> TextLess(a, c)
  {
    forall a: Text, b: Text
      ensures TextLess(a, b) || TextLess(b, a) || a == b
      ensures TextLess(a, b) ==> !TextLess(b, a) && a != b
    {
      CharsLessTotal(a.chars, b.chars);
    }
    forall a: Text, b: Text, c: Text ensures TextLess(a, b) && TextLess(b, c) ==> TextLess(a, c) {
      if TextLess(a, b) && TextLess(b, c) { CharsLessTransitive(a.chars, b.chars, c.chars); }
    }
  }

  // ----- sorted(set of strings) -----

  predicate IsLeast(x: Text, s: set<Text>) {
    x in s && forall y :: y in s && y != x ==> TextLess(x, y)
  }

  lemma {:induction false} LeastExists(s: set<Text>)
    requires s != {}
    ensures exists x :: IsLeast(x, s)
  {
    TextOrder();
    var x :| x in s;
    var t := s - {x};
    assert s == t + {x};
    if t == {} {
      assert IsLeast(x, s);
    } else {
      LeastExists(t);
      var m :| IsLeast(m, t);
      assert IsLeast(if TextLess(x, m) then x else m, s);
    }
  }

  function Least(s: set<Text>): (x: Text)
    requires s != {}
    ensures IsLeast(x, s)
  {
    LeastExists(s);
    TextOrder();
    var x :| x in s && IsLeast(x, s);
    x
  }

  /** `sorted(s)` of a set of strings. */
  function SortedTexts(s: set<Text>): seq<Text>
    decreases s
  {
    if s == {} then []
    else
      var x := Least(s);
      [x] + SortedTexts(s - {x})
  }

  /** The members of s, each once, in ascending order. */
  lemma {:induction false} SortedTextsLists(s: set<Text>)
    ensures forall x :: x in SortedTexts(s) <==> x in s
    ensures InOrder(SortedTexts(s), TextLess)
    ensures Distinct(SortedTexts(s))
    decreases s
  {
    if s != {} {
      var x := Least(s);
      SortedTextsLists(s - {x});
      var rest := SortedTexts(s - {x});
      assert forall y :: y in [x] + rest <==> y in s;
    }
  }
}
