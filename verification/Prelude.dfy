/** Option and Result, in the shape every other module uses them. */
module Prelude {

  datatype Option<+T> = None | Some(value: T)

  datatype Result<+T, +E> = Ok(value: T) | Err(error: E)

  /** Python's `s[:n]`: a negative bound counts from the end. */
  function SliceTo<T>(s: seq<T>, n: int): (r: seq<T>)
    ensures r <= s
    ensures 0 <= n ==> |r| == if n <= |s| then n else |s|
    ensures n < 0 ==> |r| == if -n <= |s| then |s| + n else 0
  {
    if n < 0 then s[..if -n <= |s| then |s| + n else 0]
    else s[..if n <= |s| then n else |s|]
  }

  function AtMost(a: int, b: int): int {
    if a < b then a else b
  }

  ghost predicate Distinct<T>(s: seq<T>) {
    forall i, j :: 0 <= i < j < |s| ==> s[i] != s[j]
  }

  function Elements<T>(s: seq<T>): set<T>
  {
    set x | x in s
  }

  /** A duplicate-free sequence has as many elements as members. */
  lemma {:induction false} DistinctCardinality<T>(s: seq<T>)
    requires Distinct(s)
    ensures |Elements(s)| == |s|
  {
    if s == [] {
      assert Elements(s) == {};
    } else {
      var init, last := s[..|s| - 1], s[|s| - 1];
      DistinctCardinality(init);
      assert s == init + [last];
      assert Elements(s) == Elements(init) + {last};
      assert last !in init;
    }
  }

  /** A subset has at most as many members, and as many only if it is the whole set. */
  lemma SubsetCardinality<T>(a: set<T>, b: set<T>)
    requires a <= b
    ensures |a| <= |b|
    ensures |a| == |b| ==> a == b
  {
    assert b == a + (b - a);
    assert |b| == |a| + |b - a|;
  }

  lemma {:induction false} MultisetOfDistinct<T>(s: seq<T>)
    requires Distinct(s)
    ensures forall x :: multiset(s)[x] <= 1
  {
    if s != [] {
      var init, last := s[..|s| - 1], s[|s| - 1];
      assert s == init + [last];
      MultisetOfDistinct(init);
      assert last !in init;
      assert last !in multiset(init);
    }
  }

  lemma DistinctFromMultiset<T>(s: seq<T>)
    requires forall x :: multiset(s)[x] <= 1
    ensures Distinct(s)
  {
    forall i, j | 0 <= i < j < |s| ensures s[i] != s[j] {
      assert s == s[..i] + [s[i]] + s[i + 1..j] + [s[j]] + s[j + 1..];
      assert multiset(s)[s[i]] >= if s[i] == s[j] then 2 else 1;
    }
  }

  /** Duplicate-free sequences with the same members are permutations of each other. */
  lemma DistinctSameMultiset<T(!new)>(a: seq<T>, b: seq<T>)
    requires Distinct(a) && Distinct(b) && forall x :: x in a <==> x in b
    ensures multiset(a) == multiset(b)
  {
    MultisetOfDistinct(a);
    MultisetOfDistinct(b);
    forall x ensures multiset(a)[x] == multiset(b)[x] {
      assert x in multiset(a) <==> x in a;
      assert x in multiset(b) <==> x in b;
    }
  }

  lemma AppendRegroups<T>(a: seq<T>, b: seq<T>, c: seq<T>)
    ensures (a + b) + c == a + (b + c)
  {
  }

  lemma TakeOneMore<T>(s: seq<T>, i: nat)
    requires i < |s|
    ensures s[..i + 1] == s[..i] + [s[i]]
    ensures s[..i + 1][..i] == s[..i]
  {
  }

  lemma TakeAll<T>(s: seq<T>)
    ensures s[..|s|] == s
  {
  }

  // ----- choosing some positions of a sequence -----

  /** at lists positions of s in ascending order. */
  ghost predicate Positions(at: seq<nat>, n: nat) {
    && (forall j :: 0 <= j < |at| ==> at[j] < n)
    && forall j, k :: 0 <= j < k < |at| ==> at[j] < at[k]
  }

  /** t is what s holds at these positions. */
  ghost predicate PickedAt<T>(t: seq<T>, s: seq<T>, at: seq<nat>) {
    Positions(at, |s|) && |at| == |t| && forall j :: 0 <= j < |t| ==> t[j] == s[at[j]]
  }

  /** One more element behind s, picked or not. */
  lemma PickLast<T>(t: seq<T>, s: seq<T>, at: seq<nat>, x: T)
    requires PickedAt(t, s, at)
    ensures PickedAt(t, s + [x], at) && PickedAt(t + [x], s + [x], at + [|s|])
    ensures forall i :: i in at ==> i < |s|
    ensures forall i :: i in at + [|s|] <==> i in at || i == |s|
  {
  }

  function Shifted(at: seq<nat>): (r: seq<nat>)
    ensures |r| == |at| && forall j :: 0 <= j < |at| ==> r[j] == at[j] + 1
  {
    seq(|at|, j requires 0 <= j < |at| => at[j] + 1)
  }

  lemma ShiftedIn(at: seq<nat>, i: nat)
    ensures i in Shifted(at) <==> i > 0 && i - 1 in at
    ensures i in [0] + Shifted(at) <==> i == 0 || i - 1 in at
  {
    if i > 0 && i - 1 in at {
      var j :| 0 <= j < |at| && at[j] == i - 1;
      assert Shifted(at)[j] == i;
    }
  }

  lemma ShiftedPositions(at: seq<nat>, n: nat)
    requires Positions(at, n)
    ensures Positions(Shifted(at), n + 1) && Positions([0] + Shifted(at), n + 1)
  {
  }

  /** One more element before s, picked or not. */
  lemma PickFirst<T>(t: seq<T>, s: seq<T>, at: seq<nat>, x: T)
    requires PickedAt(t, s, at)
    ensures PickedAt(t, [x] + s, Shifted(at)) && PickedAt([x] + t, [x] + s, [0] + Shifted(at))
  {
  }

  /** t holds the elements of s that are to be kept, in their order. */
  ghost predicate IsKept<T>(s: seq<T>, t: seq<T>, keep: T -> bool) {
    exists at :: KeptAt(s, t, keep, at)
  }

  ghost predicate KeptAt<T>(s: seq<T>, t: seq<T>, keep: T -> bool, at: seq<nat>) {
    PickedAt(t, s, at) && forall i: nat :: i < |s| ==> (i in at <==> keep(s[i]))
  }

  lemma KeptNone<T>(keep: T -> bool)
    ensures IsKept([], [], keep)
  {
    assert KeptAt([], [], keep, []);
  }

  lemma KeptNext<T>(x: T, s: seq<T>, t: seq<T>, keep: T -> bool)
    requires IsKept(s, t, keep)
    ensures keep(x) ==> IsKept([x] + s, [x] + t, keep)
    ensures !keep(x) ==> IsKept([x] + s, t, keep)
  {
    var at :| KeptAt(s, t, keep, at);
    PickFirst(t, s, at, x);
    var all: seq<T> := [x] + s;
    var at': seq<nat> := if keep(x) then [0] + Shifted(at) else Shifted(at);
    forall i: nat | i < |all| ensures i in at' <==> keep(all[i]) {
      ShiftedIn(at, i);
      assert i > 0 ==> all[i] == s[i - 1];
    }
    assert KeptAt(all, if keep(x) then [x] + t else t, keep, at');
  }

  lemma InLonger(at: seq<nat>, n: nat, i: nat)
    ensures i in at + [n] <==> i in at || i == n
  {
  }

  lemma KeptPositions<T>(s: seq<T>, t: seq<T>, keep: T -> bool, x: T, at: seq<nat>)
    requires KeptAt(s, t, keep, at)
    ensures KeptAt(s + [x], if keep(x) then t + [x] else t, keep, if keep(x) then at + [|s|] else at)
  {
    PickLast(t, s, at, x);
    var at' := if keep(x) then at + [|s|] else at;
    forall i: nat | i < |s| + 1 ensures i in at' <==> keep((s + [x])[i]) {
      InLonger(at, |s|, i);
      if i < |s| {
        assert (s + [x])[i] == s[i];
      } else {
        assert (s + [x])[i] == x && i !in at;
      }
    }
  }

  /** One more element behind s, kept or not. */
  lemma KeptLast<T>(s: seq<T>, t: seq<T>, keep: T -> bool, x: T)
    requires IsKept(s, t, keep)
    ensures IsKept(s + [x], if keep(x) then t + [x] else t, keep)
  {
    var at :| KeptAt(s, t, keep, at);
    KeptPositions(s, t, keep, x, at);
  }

  /** The same for sequences that are known to be one element longer. */
  lemma KeptGrows<T>(s: seq<T>, t: seq<T>, keep: T -> bool, x: T, s': seq<T>, t': seq<T>)
    requires IsKept(s, t, keep) && s' == s + [x] && t' == if keep(x) then t + [x] else t
    ensures IsKept(s', t', keep)
  {
    KeptLast(s, t, keep, x);
  }

  lemma KeepsNothing<T>(s: seq<T>, keep: T -> bool)
    requires forall x :: x in s ==> !keep(x)
    ensures IsKept(s, [], keep)
  {
    forall i: nat | i < |s| ensures !keep(s[i]) {
      assert s[i] in s;
    }
    assert KeptAt(s, [], keep, []);
  }

  /** t holds the elements of s that have not occurred before, in their order. */
  ghost predicate FirstOccurrences<T>(s: seq<T>, t: seq<T>) {
    exists at :: PickedAt(t, s, at) && FirstsAt(s, at)
  }

  ghost predicate FirstsAt<T>(s: seq<T>, at: seq<nat>) {
    forall i: nat :: i < |s| ==> (i in at <==> s[i] !in s[..i])
  }

  lemma FirstsNext<T>(s: seq<T>, at: seq<nat>, x: T)
    requires FirstsAt(s, at) && forall i :: i in at ==> i < |s|
    ensures FirstsAt(s + [x], if x in s then at else at + [|s|])
  {
    var all := s + [x];
    forall i: nat | i < |all| ensures all[..i] == s[..i] && (i < |s| ==> all[i] == s[i]) {
    }
    assert s[..|s|] == s;
  }

  lemma {:induction false} FirstIndex<T>(s: seq<T>, x: T) returns (i: nat)
    requires x in s
    ensures i < |s| && s[i] == x && x !in s[..i]
  {
    if x in s[..|s| - 1] {
      i := FirstIndex(s[..|s| - 1], x);
      assert s[..|s| - 1][..i] == s[..i];
    } else {
      i := |s| - 1;
      assert s == s[..i] + [s[i]];
    }
  }

  lemma FirstsMembers<T>(s: seq<T>, t: seq<T>, x: T)
    requires FirstOccurrences(s, t)
    ensures x in t <==> x in s
  {
    var at :| PickedAt(t, s, at) && FirstsAt(s, at);
    if x in s {
      var i := FirstIndex(s, x);
      var j :| 0 <= j < |at| && at[j] == i;
      assert t[j] == x;
    }
  }

  lemma FirstsAppend<T>(s: seq<T>, t: seq<T>, x: T)
    requires FirstOccurrences(s, t)
    ensures FirstOccurrences(s + [x], if x in s then t else t + [x])
  {
    var at :| PickedAt(t, s, at) && FirstsAt(s, at);
    PickLast(t, s, at, x);
    FirstsNext(s, at, x);
  }
}
