/** Running the same text patches twice. */
module PatchIdempotence {
  import opened Prelude
  import opened TextLines
  import opened ConfigsetPatcher

  // ----- one file -----

  /** What one patch does to a file: its mode and the cleaned lines of its source. */
  datatype Edit = Edit(mode: Mode, lines: seq<Line>)

  function Edited(x: seq<Line>, e: Edit): seq<Line> {
    match e.mode
    case PatchAppend => Clean(x) + e.lines
    case PatchMerge => Dedupe(Clean(x) + e.lines)
    case _ => e.lines
  }

  function EditedAll(x: seq<Line>, edits: seq<Edit>): seq<Line>
    decreases |edits|
  {
    if edits == [] then x else EditedAll(Edited(x, edits[0]), edits[1..])
  }

  predicate HasReplace(edits: seq<Edit>) {
    exists i :: 0 <= i < |edits| && edits[i].mode.Replace?
  }

  ghost predicate NoAppend(edits: seq<Edit>) {
    forall i :: 0 <= i < |edits| ==> edits[i].mode.Replace? || edits[i].mode.PatchMerge?
  }

  ghost predicate Supported(edits: seq<Edit>) {
    forall i :: 0 <= i < |edits| ==> !edits[i].mode.UnknownMode?
  }

  ghost predicate CleanEdits(edits: seq<Edit>) {
    forall i :: 0 <= i < |edits| ==> IsClean(edits[i].lines)
  }

  /** After a replacement the old content no longer matters. */
  lemma {:induction false} ReplaceForgets(x: seq<Line>, y: seq<Line>, edits: seq<Edit>)
    requires HasReplace(edits)
    ensures EditedAll(x, edits) == EditedAll(y, edits)
    decreases |edits|
  {
    if !edits[0].mode.Replace? {
      var i :| 0 <= i < |edits| && edits[i].mode.Replace?;
      assert edits[1..][i - 1].mode.Replace?;
      ReplaceForgets(Edited(x, edits[0]), Edited(y, edits[0]), edits[1..]);
    }
  }

  function Merged(edits: seq<Edit>): seq<Line> {
    if edits == [] then [] else edits[0].lines + Merged(edits[1..])
  }

  lemma {:induction false} DedupeKeeps(a: seq<Line>)
    ensures forall l :: l in Dedupe(a) <==> l in a
    ensures IsClean(a) ==> IsClean(Dedupe(a))
  {
    if a != [] {
      DedupeKeeps(a[..|a| - 1]);
      assert a == a[..|a| - 1] + [a[|a| - 1]];
    }
  }

  /** Removing duplicates early makes no difference. */
  lemma {:induction false} DedupeEarly(a: seq<Line>, b: seq<Line>)
    ensures Dedupe(Dedupe(a) + b) == Dedupe(a + b)
  {
    if b == [] {
      assert a + b == a && Dedupe(a) + b == Dedupe(a);
      DedupeAgain(a);
    } else {
      var init, last := b[..|b| - 1], b[|b| - 1];
      DedupeEarly(a, init);
      DedupeKeeps(a);
      assert (a + b)[..|a + b| - 1] == a + init;
      assert (Dedupe(a) + b)[..|Dedupe(a) + b| - 1] == Dedupe(a) + init;
      assert last in a + init <==> last in Dedupe(a) + init;
    }
  }

  lemma {:induction false} DedupeAgain(a: seq<Line>)
    ensures Dedupe(Dedupe(a)) == Dedupe(a)
  {
    if a != [] {
      var init, last := a[..|a| - 1], a[|a| - 1];
      DedupeAgain(init);
      DedupeKeeps(init);
      if last !in init {
        assert Dedupe(a)[..|Dedupe(a)| - 1] == Dedupe(init);
      }
    }
  }

  /** Lines that are already there add nothing. */
  lemma {:induction false} DedupeAbsorbs(a: seq<Line>, b: seq<Line>)
    requires forall l :: l in b ==> l in a
    ensures Dedupe(a + b) == Dedupe(a)
  {
    if b == [] {
      assert a + b == a;
    } else {
      var init := b[..|b| - 1];
      DedupeAbsorbs(a, init);
      assert (a + b)[..|a + b| - 1] == a + init;
      assert b[|b| - 1] in b;
    }
  }

  lemma EditedIsClean(x: seq<Line>, e: Edit)
    requires IsClean(e.lines)
    ensures Clean(Edited(x, e)) == Edited(x, e)
  {
    CleanIsClean(x);
    DedupeKeeps(Clean(x) + e.lines);
    CleanOfClean(Edited(x, e));
  }

  lemma MergeLater(x: seq<Line>, e: Edit, later: seq<Line>, y: seq<Line>)
    requires (e.mode.PatchAppend? || e.mode.PatchMerge?) && y == Edited(x, e)
    ensures Dedupe(y + later) == Dedupe(Clean(x) + (e.lines + later))
  {
    AppendRegroups(Clean(x), e.lines, later);
    DedupeEarly(Clean(x) + e.lines, later);
  }

  /** Appends and merges that end in a merge. */
  ghost predicate EndsInMerge(edits: seq<Edit>) {
    && edits != [] && edits[|edits| - 1].mode.PatchMerge?
    && !HasReplace(edits) && Supported(edits) && CleanEdits(edits)
  }

  lemma RestOfEdits(edits: seq<Edit>)
    requires EndsInMerge(edits)
    ensures edits[0].mode.PatchAppend? || edits[0].mode.PatchMerge?
    ensures IsClean(edits[0].lines)
    ensures |edits| == 1 || EndsInMerge(edits[1..])
  {
  }

  /** Appends and merges that end in a merge are one merge of everything. */
  lemma {:induction false} MergesCombine(x: seq<Line>, edits: seq<Edit>)
    requires EndsInMerge(edits)
    ensures EditedAll(x, edits) == Dedupe(Clean(x) + Merged(edits))
    decreases |edits|
  {
    var e, rest := edits[0], edits[1..];
    RestOfEdits(edits);
    if rest == [] {
      assert e.lines + [] == e.lines;
    } else {
      var y := Edited(x, e);
      EditedIsClean(x, e);
      MergesCombine(y, rest);
      MergeLater(x, e, Merged(rest), y);
    }
  }

  // ----- which sequences of edits are idempotent -----

  /** The appends after the last merge or replacement. */
  function Trailing(edits: seq<Edit>): (n: nat)
    ensures n <= |edits|
  {
    if edits == [] || !edits[|edits| - 1].mode.PatchAppend? then 0 else 1 + Trailing(edits[..|edits| - 1])
  }

  ghost predicate OnlyAppends(edits: seq<Edit>) {
    forall i :: 0 <= i < |edits| ==> edits[i].mode.PatchAppend?
  }

  lemma {:induction false} TrailingAreAppends(edits: seq<Edit>, n: nat)
    requires n == |edits| - Trailing(edits)
    ensures OnlyAppends(edits[n..])
    ensures n > 0 ==> !edits[n - 1].mode.PatchAppend?
  {
    if n < |edits| {
      var init := edits[..|edits| - 1];
      TrailingAreAppends(init, n);
      assert edits[n..] == init[n..] + [edits[|edits| - 1]];
    }
  }

  lemma {:induction false} EditedInParts(x: seq<Line>, a: seq<Edit>, b: seq<Edit>)
    ensures EditedAll(x, a + b) == EditedAll(EditedAll(x, a), b)
    decreases |a|
  {
    if a == [] {
      assert a + b == b;
    } else {
      assert (a + b)[0] == a[0] && (a + b)[1..] == a[1..] + b;
      EditedInParts(Edited(x, a[0]), a[1..], b);
    }
  }

  lemma {:induction false} AppendsCombine(x: seq<Line>, edits: seq<Edit>)
    requires edits != [] && CleanEdits(edits) && OnlyAppends(edits)
    ensures EditedAll(x, edits) == Clean(x) + Merged(edits)
    decreases |edits|
  {
    var e, rest := edits[0], edits[1..];
    if rest == [] {
      assert Merged(edits) == e.lines + [] == e.lines;
    } else {
      CleanIsClean(x);
      CleanOfClean(Clean(x) + e.lines);
      AppendsCombine(Edited(x, e), rest);
      AppendRegroups(Clean(x), e.lines, Merged(rest));
    }
  }

  lemma CleanWithMerged(a: seq<Line>, c: seq<Line>, d: seq<Line>)
    requires IsClean(a) && IsClean(c) && IsClean(d)
    ensures Clean(Dedupe(a + c)) == Dedupe(a + c)
    ensures Clean(Dedupe(a + c) + d) == Dedupe(a + c) + d
  {
    DedupeKeeps(a + c);
    CleanOfClean(Dedupe(a + c));
    CleanOfClean(Dedupe(a + c) + d);
  }

  lemma LeadEndsInMerge(edits: seq<Edit>, lead: seq<Edit>)
    requires !HasReplace(edits) && Supported(edits) && CleanEdits(edits)
    requires lead <= edits && lead != [] && !lead[|lead| - 1].mode.PatchAppend?
    ensures EndsInMerge(lead)
  {
    assert forall i :: 0 <= i < |lead| ==> lead[i] == edits[i];
  }

  lemma AppendsBehind(x: seq<Line>, lead: seq<Edit>, trail: seq<Edit>)
    requires CleanEdits(trail) && OnlyAppends(trail)
    requires Clean(EditedAll(x, lead)) == EditedAll(x, lead)
    ensures EditedAll(x, lead + trail) == EditedAll(x, lead) + Merged(trail)
  {
    EditedInParts(x, lead, trail);
    if trail == [] {
      assert EditedAll(x, lead) + [] == EditedAll(x, lead);
    } else {
      AppendsCombine(EditedAll(x, lead), trail);
    }
  }

  /** The edits up to the last merge are one merge, and the lines of the later appends stand behind it. */
  lemma MergeThenAppend(x: seq<Line>, lead: seq<Edit>, trail: seq<Edit>)
    requires EndsInMerge(lead) && CleanEdits(trail) && OnlyAppends(trail)
    ensures EditedAll(x, lead + trail) == Dedupe(Clean(x) + Merged(lead)) + Merged(trail)
  {
    MergesCombine(x, lead);
    CleanIsClean(x);
    MergedIsClean(lead);
    CleanWithMerged(Clean(x), Merged(lead), []);
    AppendsBehind(x, lead, trail);
  }

  predicate AddsNothing(d: seq<Line>, a: seq<Line>, c: seq<Line>) {
    forall l :: l in d ==> l in a || l in c
  }

  /** The lines appended after the last merge are already among the cleaned lines of the file or those merged. */
  predicate AppendsNothingNew(x: seq<Line>, edits: seq<Edit>) {
    var n := |edits| - Trailing(edits);
    if n == 0 then Merged(edits) == [] else AddsNothing(Merged(edits[n..]), Clean(x), Merged(edits[..n]))
  }

  /** A second run of the edits leaves what the first one left. */
  predicate Settles(x: seq<Line>, edits: seq<Edit>) {
    EditedAll(EditedAll(x, edits), edits) == EditedAll(x, edits)
  }

  /** Merging a list with trailing lines again gives back the list exactly when those lines add nothing. */
  lemma RemergeExactly(a: seq<Line>, c: seq<Line>, d: seq<Line>)
    ensures Dedupe((Dedupe(a + c) + d) + c) == Dedupe(a + c) <==> AddsNothing(d, a, c)
  {
    var y := Dedupe(a + c);
    DedupeKeeps(a + c);
    DedupeKeeps((y + d) + c);
    if AddsNothing(d, a, c) {
      AppendRegroups(y, d, c);
      DedupeAbsorbs(y, d + c);
      DedupeAgain(a + c);
    }
    if Dedupe((y + d) + c) == y {
      forall l | l in d ensures l in a || l in c {
        assert l in (y + d) + c;
      }
    }
  }

  lemma SuffixCancels(a: seq<Line>, b: seq<Line>, d: seq<Line>)
    ensures a + d == b + d <==> a == b
  {
    if a + d == b + d {
      assert |a| == |b|;
      assert a == (a + d)[..|a|] && b == (b + d)[..|b|];
    }
  }

  lemma OnlyAppendsExactly(x: seq<Line>, edits: seq<Edit>)
    requires edits != [] && CleanEdits(edits) && Trailing(edits) == |edits|
    ensures Settles(x, edits) <==> Merged(edits) == []
  {
    var y, d := EditedAll(x, edits), Merged(edits);
    TrailingAreAppends(edits, 0);
    AppendsCombine(x, edits);
    AppendsCombine(y, edits);
    CleanIsClean(x);
    MergedIsClean(edits);
    CleanOfClean(Clean(x) + d);
    assert |Clean(y) + d| == |y| + |d|;
    if d == [] {
      assert Clean(y) + d == y;
    }
  }

  lemma EndsInAppendsExactly(x: seq<Line>, lead: seq<Edit>, trail: seq<Edit>)
    requires EndsInMerge(lead) && CleanEdits(trail) && OnlyAppends(trail)
    ensures Settles(x, lead + trail) <==> AddsNothing(Merged(trail), Clean(x), Merged(lead))
  {
    var a, c, d := Clean(x), Merged(lead), Merged(trail);
    var y := EditedAll(x, lead + trail);
    MergeThenAppend(x, lead, trail);
    MergeThenAppend(y, lead, trail);
    CleanIsClean(x);
    MergedIsClean(lead);
    MergedIsClean(trail);
    CleanWithMerged(a, c, d);
    SuffixCancels(Dedupe(y + c), Dedupe(a + c), d);
    RemergeExactly(a, c, d);
  }

  lemma WithoutReplaceExactly(x: seq<Line>, edits: seq<Edit>)
    requires edits != [] && !HasReplace(edits) && Supported(edits) && CleanEdits(edits)
    ensures Settles(x, edits) <==> AppendsNothingNew(x, edits)
  {
    var n := |edits| - Trailing(edits);
    if n == 0 {
      OnlyAppendsExactly(x, edits);
    } else {
      var lead, trail := edits[..n], edits[n..];
      TrailingAreAppends(edits, n);
      LeadEndsInMerge(edits, lead);
      assert edits == lead + trail;
      EndsInAppendsExactly(x, lead, trail);
    }
  }

  /** Exactly when a sequence of edits in any modes, applied twice, leaves what it left the first time: it is
      empty, it replaces, or what it appends after its last merge is already there. */
  lemma EditsIdempotentExactly(x: seq<Line>, edits: seq<Edit>)
    requires Supported(edits) && CleanEdits(edits)
    ensures Settles(x, edits) <==> edits == [] || HasReplace(edits) || AppendsNothingNew(x, edits)
  {
    if HasReplace(edits) {
      ReplaceForgets(EditedAll(x, edits), x, edits);
    } else if edits != [] {
      WithoutReplaceExactly(x, edits);
    }
  }

  /** Replacements and merges applied twice leave what they left the first time. */
  lemma EditsAreIdempotent(x: seq<Line>, edits: seq<Edit>)
    requires NoAppend(edits) && CleanEdits(edits)
    ensures Settles(x, edits)
  {
    EditsIdempotentExactly(x, edits);
    if edits != [] {
      assert Trailing(edits) == 0 && Merged(edits[|edits|..]) == [];
    }
  }

  lemma {:induction false} MergedIsClean(edits: seq<Edit>)
    requires CleanEdits(edits)
    ensures IsClean(Merged(edits))
  {
    if edits != [] {
      MergedIsClean(edits[1..]);
    }
  }

  // ----- a whole run -----

  ghost predicate IsSource(p: Path, actions: seq<Action>) {
    exists i :: 0 <= i < |actions| && actions[i].Patch? && actions[i].source == p
  }

  /** No source file is also patched. */
  ghost predicate SourcesApart(actions: seq<Action>) {
    forall i :: 0 <= i < |actions| && actions[i].Patch? && actions[i].target.Some? ==>
      !IsSource(actions[i].target.value, actions)
  }

  ghost predicate OnlyReplaceAndMerge(actions: seq<Action>) {
    forall i :: 0 <= i < |actions| && actions[i].Patch? ==> actions[i].mode.Replace? || actions[i].mode.PatchMerge?
  }

  predicate Writes(disk: Disk, a: Action) {
    a.Patch? && a.source in disk && a.target.Some? && !a.mode.UnknownMode?
  }

  /** The edits that a run makes to p, up to the point where it stops. */
  function EditsOf(disk: Disk, actions: seq<Action>, p: Path): seq<Edit>
    decreases |actions|
  {
    if actions == [] then []
    else
      var first := Perform(disk, actions[0]);
      (if Writes(disk, actions[0]) && actions[0].target.value == p then [EditOf(disk, actions[0])] else [])
      + if first.error.Some? then [] else EditsOf(first.disk, actions[1..], p)
  }

  /** Two disks with the same source files. */
  ghost predicate SameSources(d: Disk, d': Disk, actions: seq<Action>) {
    forall p :: IsSource(p, actions) ==> (p in d <==> p in d') && (p in d ==> d[p] == d'[p])
  }

  lemma RestOfRun(actions: seq<Action>)
    requires actions != [] && SourcesApart(actions)
    ensures SourcesApart(actions[1..])
    ensures actions[0].Patch? ==> IsSource(actions[0].source, actions)
    ensures forall p :: IsSource(p, actions[1..]) ==> IsSource(p, actions)
  {
    forall p | IsSource(p, actions[1..]) ensures IsSource(p, actions) {
      var i :| 0 <= i < |actions[1..]| && actions[1..][i].Patch? && actions[1..][i].source == p;
      assert actions[i + 1].source == p;
    }
  }

  lemma FirstSparesSource(disk: Disk, actions: seq<Action>, p: Path)
    requires actions != [] && SourcesApart(actions) && IsSource(p, actions)
    ensures var after := Perform(disk, actions[0]).disk;
            (p in disk <==> p in after) && (p in disk ==> disk[p] == after[p])
  {
    assert actions[0].Patch? && actions[0].target.Some? ==> actions[0].target.value != p;
  }

  lemma SourcesAfterFirst(d: Disk, d': Disk, actions: seq<Action>)
    requires actions != [] && SourcesApart(actions) && SameSources(d, d', actions)
    ensures SameSources(Perform(d, actions[0]).disk, Perform(d', actions[0]).disk, actions[1..])
  {
    RestOfRun(actions);
    forall p | IsSource(p, actions[1..])
      ensures var e, e' := Perform(d, actions[0]).disk, Perform(d', actions[0]).disk;
              (p in e <==> p in e') && (p in e ==> e[p] == e'[p])
    {
      FirstSparesSource(d, actions, p);
      FirstSparesSource(d', actions, p);
    }
  }

  /** Which files a run writes, with what, and where it stops depends only on the sources. */
  lemma {:induction false} SameEdits(d: Disk, d': Disk, actions: seq<Action>, p: Path)
    requires SourcesApart(actions) && SameSources(d, d', actions)
    ensures EditsOf(d, actions, p) == EditsOf(d', actions, p)
    ensures PerformAll(d, actions).error == PerformAll(d', actions).error
    decreases |actions|
  {
    if actions != [] {
      RestOfRun(actions);
      SourcesAfterFirst(d, d', actions);
      SameEdits(Perform(d, actions[0]).disk, Perform(d', actions[0]).disk, actions[1..], p);
    }
  }

  lemma EditedUnbroken(x: seq<Line>, e: Edit)
    requires AllUnbroken(x) && AllUnbroken(e.lines)
    ensures AllUnbroken(Edited(x, e))
  {
    CleanIsClean(x);
    var all := Clean(x) + e.lines;
    assert AllUnbroken(all);
    DedupeKeeps(all);
    forall i | 0 <= i < |Dedupe(all)| ensures Unbroken(Dedupe(all)[i]) {
      assert Dedupe(all)[i] in all;
    }
  }

  lemma LinesUnbroken(disk: Disk, p: Path)
    ensures AllUnbroken(Lines(disk, p))
  {
    if p in disk { SplitIsUnbroken(disk[p]); }
  }

  function EditOf(disk: Disk, a: Action): Edit
    requires a.Patch?
  {
    Edit(a.mode, Clean(Lines(disk, a.source)))
  }

  lemma WriteEdits(disk: Disk, a: Action, p: Path)
    requires Writes(disk, a) && a.target.value == p
    ensures var first := Perform(disk, a).disk;
            p in first && first[p] == JoinLines(Edited(Lines(disk, p), EditOf(disk, a)))
              && Lines(first, p) == Edited(Lines(disk, p), EditOf(disk, a))
  {
    LinesUnbroken(disk, p);
    LinesUnbroken(disk, a.source);
    CleanIsClean(Lines(disk, a.source));
    EditedUnbroken(Lines(disk, p), EditOf(disk, a));
    SplitOfJoin(Edited(Lines(disk, p), EditOf(disk, a)));
  }

  /** What a run did to a file: nothing without edits, else its text is the edited lines. */
  ghost predicate FileEdited(before: Disk, after: Disk, p: Path, edits: seq<Edit>) {
    && (edits == [] ==> (p in after <==> p in before) && (p in before ==> after[p] == before[p]))
    && (edits != [] ==> p in after && after[p] == JoinLines(EditedAll(Lines(before, p), edits)))
    && Lines(after, p) == EditedAll(Lines(before, p), edits)
  }

  lemma FirstEdit(before: Disk, mid: Disk, after: Disk, p: Path, e: Edit, rest: seq<Edit>)
    requires p in mid && mid[p] == JoinLines(Edited(Lines(before, p), e))
             && Lines(mid, p) == Edited(Lines(before, p), e)
    requires FileEdited(mid, after, p, rest)
    ensures FileEdited(before, after, p, [e] + rest)
  {
    assert ([e] + rest)[1..] == rest;
  }

  lemma NotWritten(disk: Disk, a: Action, after: Disk, p: Path, edits: seq<Edit>)
    requires !(Writes(disk, a) && a.target.value == p) && FileEdited(Perform(disk, a).disk, after, p, edits)
    ensures FileEdited(disk, after, p, edits)
  {
  }

  lemma NothingDone(disk: Disk, p: Path)
    ensures FileEdited(disk, disk, p, [])
  {
  }

  /** Each file ends with its edits applied to what it held, and a file without edits is left alone. */
  lemma {:induction false} RunEdits(disk: Disk, actions: seq<Action>, p: Path)
    ensures FileEdited(disk, PerformAll(disk, actions).disk, p, EditsOf(disk, actions, p))
    decreases |actions|
  {
    if actions == [] {
      NothingDone(disk, p);
    } else {
      var a, first := actions[0], Perform(disk, actions[0]);
      var after := PerformAll(disk, actions).disk;
      var rest: seq<Edit> := [];
      if first.error.Some? {
        NothingDone(first.disk, p);
      } else {
        rest := EditsOf(first.disk, actions[1..], p);
        RunEdits(first.disk, actions[1..], p);
      }
      if Writes(disk, a) && a.target.value == p {
        WriteEdits(disk, a, p);
        FirstEdit(disk, first.disk, after, p, EditOf(disk, a), rest);
      } else {
        NotWritten(disk, a, after, p, rest);
        assert EditsOf(disk, actions, p) == [] + rest == rest;
      }
    }
  }

  lemma {:induction false} EditsAreClean(disk: Disk, actions: seq<Action>, p: Path)
    ensures CleanEdits(EditsOf(disk, actions, p))
    decreases |actions|
  {
    if actions != [] {
      if actions[0].Patch? { CleanIsClean(Lines(disk, actions[0].source)); }
      EditsAreClean(Perform(disk, actions[0]).disk, actions[1..], p);
    }
  }

  /** The sources are not written, so the second run sees the same ones. */
  lemma SourcesKept(disk: Disk, actions: seq<Action>)
    requires SourcesApart(actions)
    ensures SameSources(disk, PerformAll(disk, actions).disk, actions)
  {
    forall p | IsSource(p, actions)
      ensures var after := PerformAll(disk, actions).disk;
              (p in disk <==> p in after) && (p in disk ==> disk[p] == after[p])
    {
      RunEdits(disk, actions, p);
      NoEdits(disk, actions, p);
    }
  }

  /** A file that no action targets gets no edits. */
  lemma {:induction false} NoEdits(disk: Disk, actions: seq<Action>, p: Path)
    requires forall i :: 0 <= i < |actions| && actions[i].Patch? ==> actions[i].target != Some(p)
    ensures EditsOf(disk, actions, p) == []
    decreases |actions|
  {
    if actions != [] && Perform(disk, actions[0]).error.None? {
      NoEdits(Perform(disk, actions[0]).disk, actions[1..], p);
    }
  }

  lemma {:induction false} EditsHaveModes(disk: Disk, actions: seq<Action>, p: Path)
    requires OnlyReplaceAndMerge(actions)
    ensures NoAppend(EditsOf(disk, actions, p))
    decreases |actions|
  {
    if actions != [] && Perform(disk, actions[0]).error.None? {
      EditsHaveModes(Perform(disk, actions[0]).disk, actions[1..], p);
    }
  }

  lemma {:induction false} EditsAreSupported(disk: Disk, actions: seq<Action>, p: Path)
    ensures Supported(EditsOf(disk, actions, p))
    decreases |actions|
  {
    if actions != [] && Perform(disk, actions[0]).error.None? {
      EditsAreSupported(Perform(disk, actions[0]).disk, actions[1..], p);
    }
  }

  /** The run leaves p alone, or replaces it, or appends nothing new to it after its last merge. */
  predicate SettlesAt(disk: Disk, actions: seq<Action>, p: Path) {
    var edits := EditsOf(disk, actions, p);
    edits == [] || HasReplace(edits) || AppendsNothingNew(Lines(disk, p), edits)
  }

  predicate SameFile(d: Disk, d': Disk, p: Path) {
    (p in d <==> p in d') && (p in d ==> d[p] == d'[p])
  }

  lemma EditedTwice(before: Disk, once: Disk, twice: Disk, p: Path, edits: seq<Edit>)
    requires FileEdited(before, once, p, edits) && FileEdited(once, twice, p, edits)
    ensures SameFile(once, twice, p) <==> Settles(Lines(before, p), edits)
  {
    if SameFile(once, twice, p) {
      assert Lines(once, p) == Lines(twice, p);
    }
  }

  lemma FileTwiceExactly(disk: Disk, actions: seq<Action>, p: Path)
    requires SourcesApart(actions)
    ensures var once := PerformAll(disk, actions).disk;
            SameFile(once, PerformAll(once, actions).disk, p) <==> SettlesAt(disk, actions, p)
  {
    var once, edits := PerformAll(disk, actions).disk, EditsOf(disk, actions, p);
    SourcesKept(disk, actions);
    SameEdits(disk, once, actions, p);
    RunEdits(disk, actions, p);
    RunEdits(once, actions, p);
    EditedTwice(disk, once, PerformAll(once, actions).disk, p, edits);
    EditsAreSupported(disk, actions, p);
    EditsAreClean(disk, actions, p);
    EditsIdempotentExactly(Lines(disk, p), edits);
  }

  lemma SameFilesSameDisk(d: Disk, d': Disk)
    ensures d == d' <==> forall p :: SameFile(d, d', p)
  {
    if forall p :: SameFile(d, d', p) {
      forall p ensures p in d <==> p in d' {
        assert SameFile(d, d', p);
      }
      forall p | p in d ensures d[p] == d'[p] {
        assert SameFile(d, d', p);
      }
      assert d == d';
    }
  }

  lemma StopsAlike(disk: Disk, actions: seq<Action>)
    requires SourcesApart(actions)
    ensures PerformAll(PerformAll(disk, actions).disk, actions).error == PerformAll(disk, actions).error
  {
    SourcesKept(disk, actions);
    SameEdits(disk, PerformAll(disk, actions).disk, actions, InConfigset(""));
  }

  ghost predicate SettlesEverywhere(disk: Disk, actions: seq<Action>) {
    forall p :: SettlesAt(disk, actions, p)
  }

  lemma SettledFiles(disk: Disk, actions: seq<Action>, once: Disk, twice: Disk)
    requires SourcesApart(actions)
    requires once == PerformAll(disk, actions).disk && twice == PerformAll(once, actions).disk
    ensures (forall p :: SameFile(once, twice, p)) <==> SettlesEverywhere(disk, actions)
  {
    forall p ensures SameFile(once, twice, p) <==> SettlesAt(disk, actions, p) {
      FileTwiceExactly(disk, actions, p);
    }
  }

  /** When repeating a run, complete or stopped by an error, changes nothing: exactly when it settles every file. */
  lemma RunTwiceExactly(disk: Disk, actions: seq<Action>)
    requires SourcesApart(actions)
    ensures PerformAll(PerformAll(disk, actions).disk, actions) == PerformAll(disk, actions) <==>
            SettlesEverywhere(disk, actions)
  {
    var once := PerformAll(disk, actions).disk;
    var twice := PerformAll(once, actions).disk;
    SettledFiles(disk, actions, once, twice);
    SameFilesSameDisk(once, twice);
    StopsAlike(disk, actions);
  }

  /** A run of replacements and merges changes nothing when repeated. */
  lemma RunTwice(disk: Disk, actions: seq<Action>)
    requires SourcesApart(actions) && OnlyReplaceAndMerge(actions)
    ensures PerformAll(PerformAll(disk, actions).disk, actions) == PerformAll(disk, actions)
  {
    forall p ensures SettlesAt(disk, actions, p) {
      var edits := EditsOf(disk, actions, p);
      EditsHaveModes(disk, actions, p);
      EditsAreClean(disk, actions, p);
      EditsAreIdempotent(Lines(disk, p), edits);
      EditsIdempotentExactly(Lines(disk, p), edits);
    }
    RunTwiceExactly(disk, actions);
  }

  /** Files that no change targets keep their content, whatever the modes and however the run ends. */
  lemma UntargetedUnchanged(disk: Disk, actions: seq<Action>, p: Path)
    requires forall i :: 0 <= i < |actions| && actions[i].Patch? ==> actions[i].target != Some(p)
    ensures var after := PerformAll(disk, actions).disk;
            (p in after <==> p in disk) && (p in disk ==> after[p] == disk[p])
  {
    NoEdits(disk, actions, p);
    RunEdits(disk, actions, p);
  }
}
