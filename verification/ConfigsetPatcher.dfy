/** Patching text resources (synonyms, stopwords) inside a configset directory. */
module ConfigsetPatcher {
  import opened Prelude
  import opened TextLines

  datatype Path = InConfigset(name: string) | Elsewhere(name: string)

  datatype Mode = Replace | PatchAppend | PatchMerge | UnknownMode

  datatype Entry = NotAnObject | Entry(mode: Option<Mode>, source: Option<Path>, target: Option<Path>)

  datatype Change =
    | OtherChange
    | TextUpdate(entries: seq<Entry>, mode: Option<Mode>, source: Option<Path>)

  datatype Error =
    | NoTargetFiles | UnsupportedMode | MalformedEntry | NoSource | SourceNotFound | NoTarget | OutsideConfigset

  type Disk = map<Path, string>

  // ----- lines -----

  function Lines(disk: Disk, path: Path): seq<Line> {
    if path in disk then SplitLines(disk[path]) else []
  }

  /** First occurrences only. */
  function Dedupe(lines: seq<Line>): seq<Line> {
    if lines == [] then []
    else
      var init, last := Dedupe(lines[..|lines| - 1]), lines[|lines| - 1];
      if last in lines[..|lines| - 1] then init else init + [last]
  }

  method DedupeMerge(existing: seq<Line>, patch: seq<Line>) returns (merged: seq<Line>)
    ensures merged == Dedupe(Clean(existing + patch))
  {
    var all := existing + patch;
    merged := [];
    var seen: set<Line> := {};
    ghost var keys: seq<Line> := [];
    for i := 0 to |all|
      invariant keys == Clean(all[..i]) && merged == Dedupe(keys)
      invariant forall l :: l in seen <==> l in keys
    {
      OneMoreKey(all, i, keys);
      var key := Strip(all[i]);
      if key == "" { continue; }
      keys := keys + [key];
      if key in seen { continue; }
      seen := seen + {key};
      merged := merged + [key];
    }
    TakeAll(all);
  }

  lemma OneMoreKey(all: seq<Line>, i: nat, keys: seq<Line>)
    requires i < |all| && keys == Clean(all[..i])
    ensures var key := Strip(all[i]);
            && Clean(all[..i + 1]) == (if key == "" then keys else keys + [key])
            && Dedupe(keys + [key]) == if key in keys then Dedupe(keys) else Dedupe(keys) + [key]
  {
    TakeOneMore(all, i);
    CleanOfAppend(all[..i], [all[i]]);
    assert Clean([all[i]]) == CleanOne(all[i]);
    DedupeAppend(keys, [Strip(all[i])]);
  }

  lemma {:induction false} CleanOfAppend(a: seq<Line>, b: seq<Line>)
    ensures Clean(a + b) == Clean(a) + Clean(b)
  {
    if a == [] {
      assert a + b == b;
    } else {
      CleanOfAppend(a[1..], b);
      assert (a + b)[0] == a[0] && (a + b)[1..] == a[1..] + b;
      AppendRegroups(CleanOne(a[0]), Clean(a[1..]), Clean(b));
    }
  }

  lemma DedupeAppend(a: seq<Line>, b: seq<Line>)
    requires |b| <= 1
    ensures Dedupe(a + b) == Dedupe(a) + if b == [] || b[0] in a then [] else b
  {
    if b == [] {
      assert a + b == a;
    } else {
      assert (a + b)[..|a|] == a;
    }
  }

  /** _apply_mode. */
  function ApplyMode(existing: seq<Line>, patch: seq<Line>, mode: Mode): seq<Line>
    requires !mode.UnknownMode?
  {
    match mode
    case Replace => Clean(patch)
    case PatchAppend => Clean(existing) + Clean(patch)
    case PatchMerge => Dedupe(Clean(existing) + Clean(patch))
  }

  /** _apply_mode, with the merge loop; an unsupported mode raises. */
  method ApplyPatch(existing: seq<Line>, patch: seq<Line>, mode: Mode) returns (lines: Result<seq<Line>, Error>)
    ensures lines == if mode.UnknownMode? then Err(UnsupportedMode) else Ok(ApplyMode(existing, patch, mode))
  {
    if mode.UnknownMode? {
      return Err(UnsupportedMode);
    }
    var base, extra := Clean(existing), Clean(patch);
    if mode.PatchMerge? {
      var merged := DedupeMerge(base, extra);
      CleanIsClean(existing);
      CleanIsClean(patch);
      CleanOfClean(base + extra);
      lines := Ok(merged);
    } else {
      lines := Ok(if mode.PatchAppend? then base + extra else extra);
    }
  }

  // ----- what is written, in terms of the lines read -----

  lemma {:induction false} DedupeExactly(s: seq<Line>) returns (at: seq<nat>)
    ensures PickedAt(Dedupe(s), s, at) && FirstsAt(s, at)
  {
    if s == [] {
      at := [];
    } else {
      var init, last := s[..|s| - 1], s[|s| - 1];
      at := DedupeExactly(init);
      PickLast(Dedupe(init), init, at, last);
      FirstsNext(init, at, last);
      assert s == init + [last];
      at := if last in init then at else at + [|init|];
    }
  }

  /** The lines a mode writes: the clean ones of the patch alone, of both, or of both without repetitions. */
  ghost predicate Written(existing: seq<Line>, patch: seq<Line>, mode: Mode, lines: seq<Line>) {
    match mode
    case Replace => Cleaned(patch, lines)
    case PatchAppend => Cleaned(existing + patch, lines)
    case PatchMerge => exists kept :: Cleaned(existing + patch, kept) && FirstOccurrences(kept, lines)
    case UnknownMode => false
  }

  lemma ModeExactly(existing: seq<Line>, patch: seq<Line>, mode: Mode)
    requires !mode.UnknownMode?
    ensures Written(existing, patch, mode, ApplyMode(existing, patch, mode))
  {
    CleanExactly(patch);
    CleanExactly(existing + patch);
    CleanOfAppend(existing, patch);
    var at := DedupeExactly(Clean(existing + patch));
  }

  // ----- a run -----

  /** One file entry, with the mode and source it inherits filled in. */
  datatype Action = Fail(error: Error) | Patch(target: Option<Path>, source: Path, mode: Mode)

  function EntryAction(change: Change, entry: Entry): Action
    requires change.TextUpdate?
  {
    if entry.NotAnObject? then Fail(MalformedEntry)
    else
      var mode :=
        if entry.mode.Some? then entry.mode.value
        else if change.mode.Some? then change.mode.value
        else Replace;
      var source := if entry.source.Some? then entry.source else change.source;
      if mode.UnknownMode? then Fail(UnsupportedMode)
      else if source.None? then Fail(NoSource)
      else Patch(entry.target, source.value, mode)
  }

  function EntryActions(change: Change, entries: seq<Entry>): seq<Action>
    requires change.TextUpdate?
  {
    if entries == [] then [] else [EntryAction(change, entries[0])] + EntryActions(change, entries[1..])
  }

  function ChangeActions(change: Change): seq<Action> {
    if change.OtherChange? then []
    else if change.entries == [] then [Fail(NoTargetFiles)]
    else if change.mode == Some(UnknownMode) then [Fail(UnsupportedMode)]
    else EntryActions(change, change.entries)
  }

  function Actions(changes: seq<Change>): seq<Action> {
    if changes == [] then [] else ChangeActions(changes[0]) + Actions(changes[1..])
  }

  datatype Outcome = Outcome(disk: Disk, error: Option<Error>)

  /** A target outside the configset is noticed only after it has been written. */
  function Perform(disk: Disk, action: Action): Outcome {
    if action.Fail? then Outcome(disk, Some(action.error))
    else if action.source !in disk then Outcome(disk, Some(SourceNotFound))
    else if action.target.None? then Outcome(disk, Some(NoTarget))
    else if action.mode.UnknownMode? then Outcome(disk, Some(UnsupportedMode))
    else
      var target := action.target.value;
      var lines := ApplyMode(Lines(disk, target), Lines(disk, action.source), action.mode);
      Outcome(disk[target := JoinLines(lines)], if target.Elsewhere? then Some(OutsideConfigset) else None)
  }

  function PerformAll(disk: Disk, actions: seq<Action>): Outcome
    decreases |actions|
  {
    if actions == [] then Outcome(disk, None)
    else
      var first := Perform(disk, actions[0]);
      if first.error.Some? then first else PerformAll(first.disk, actions[1..])
  }

  // ----- a run in terms of the change list -----

  /** The entry's own mode, else the change's, else replace. */
  ghost predicate UsesMode(entry: Entry, change: Change, mode: Mode)
    requires entry.Entry? && change.TextUpdate?
  {
    || entry.mode == Some(mode) || (entry.mode.None? && change.mode == Some(mode))
    || (entry.mode.None? && change.mode.None? && mode.Replace?)
  }

  /** The entry's own source, else the change's. */
  ghost predicate UsesSource(entry: Entry, change: Change, source: Path)
    requires entry.Entry? && change.TextUpdate?
  {
    entry.source == Some(source) || (entry.source.None? && change.source == Some(source))
  }

  /** The text of a file in lines; a missing file has none. */
  ghost predicate HasLines(disk: Disk, path: Path, lines: seq<Line>) {
    if path in disk then Splits(disk[path], lines) else lines == []
  }

  /** The target, and no other file, gets the lines of its mode. */
  ghost predicate Patched(was: Disk, now: Disk, target: Path, source: Path, mode: Mode) {
    && now.Keys == was.Keys + {target} && (forall path :: path in was && path != target ==> now[path] == was[path])
    && exists existing, patch, lines ::
         && HasLines(was, target, existing) && HasLines(was, source, patch)
         && Written(existing, patch, mode, lines) && now[target] == JoinLines(lines)
  }

  /** An entry that fails leaves the files alone, unless its target lies outside the configset. */
  ghost predicate EntryExplained(was: Disk, now: Disk, entry: Entry, change: Change, error: Option<Error>)
    requires change.TextUpdate?
  {
    if entry.NotAnObject? then error == Some(MalformedEntry) && now == was
    else if UsesMode(entry, change, UnknownMode) then error == Some(UnsupportedMode) && now == was
    else if entry.source.None? && change.source.None? then error == Some(NoSource) && now == was
    else exists source, mode ::
           UsesSource(entry, change, source) && UsesMode(entry, change, mode)
           && FileExplained(was, now, entry.target, source, mode, error)
  }

  ghost predicate FileExplained(was: Disk, now: Disk, target: Option<Path>, source: Path, mode: Mode,
                                error: Option<Error>)
  {
    if source !in was then error == Some(SourceNotFound) && now == was
    else if target.None? then error == Some(NoTarget) && now == was
    else
      && Patched(was, now, target.value, source, mode)
      && error == if target.value.Elsewhere? then Some(OutsideConfigset) else None
  }

  lemma PatchedExactly(disk: Disk, target: Path, source: Path, mode: Mode)
    requires !mode.UnknownMode? && source in disk
    ensures Patched(disk, disk[target := JoinLines(ApplyMode(Lines(disk, target), Lines(disk, source), mode))],
                    target, source, mode)
  {
    var existing, patch := Lines(disk, target), Lines(disk, source);
    if target in disk { SplitExactly(disk[target]); }
    SplitExactly(disk[source]);
    ModeExactly(existing, patch, mode);
    assert HasLines(disk, target, existing) && HasLines(disk, source, patch);
  }

  lemma EntryExactly(disk: Disk, change: Change, entry: Entry)
    requires change.TextUpdate?
    ensures var r := Perform(disk, EntryAction(change, entry)); EntryExplained(disk, r.disk, entry, change, r.error)
  {
    var action := EntryAction(change, entry);
    if action.Patch? {
      assert UsesSource(entry, change, action.source) && UsesMode(entry, change, action.mode);
      if action.source in disk && action.target.Some? {
        PatchedExactly(disk, action.target.value, action.source, action.mode);
      }
      var r := Perform(disk, action);
      assert FileExplained(disk, r.disk, entry.target, action.source, action.mode, r.error);
    }
  }

  /** The files before and after each entry, up to the first that fails. */
  ghost predicate EntrySteps(disks: seq<Disk>, entries: seq<Entry>, change: Change, error: Option<Error>)
    requires change.TextUpdate?
  {
    && 0 < |disks| <= |entries| + 1 && (error.None? ==> |disks| == |entries| + 1) && (|disks| == 1 ==> error.None?)
    && forall i :: 0 <= i < |disks| - 1 ==>
         EntryExplained(disks[i], disks[i + 1], entries[i], change, if i == |disks| - 2 then error else None)
  }

  ghost predicate EntriesExplained(was: Disk, now: Disk, entries: seq<Entry>, change: Change, error: Option<Error>)
    requires change.TextUpdate?
  {
    exists disks ::
      EntrySteps(disks, entries, change, error) && disks[0] == was && disks[|disks| - 1] == now
  }

  ghost predicate ChangeExplained(was: Disk, now: Disk, change: Change, error: Option<Error>) {
    if change.OtherChange? then error.None? && now == was
    else if change.entries == [] then error == Some(NoTargetFiles) && now == was
    else if change.mode == Some(UnknownMode) then error == Some(UnsupportedMode) && now == was
    else EntriesExplained(was, now, change.entries, change, error)
  }

  /** The files before and after each change, up to the first that fails. */
  ghost predicate ChangeSteps(disks: seq<Disk>, changes: seq<Change>, error: Option<Error>) {
    && 0 < |disks| <= |changes| + 1 && (error.None? ==> |disks| == |changes| + 1) && (|disks| == 1 ==> error.None?)
    && forall i :: 0 <= i < |disks| - 1 ==>
         ChangeExplained(disks[i], disks[i + 1], changes[i], if i == |disks| - 2 then error else None)
  }

  ghost predicate RunExplained(was: Disk, now: Disk, changes: seq<Change>, error: Option<Error>) {
    exists disks :: ChangeSteps(disks, changes, error) && disks[0] == was && disks[|disks| - 1] == now
  }

  class Workspace {
    var disk: Disk

    method PatchFile(entry: Entry, change: Change) returns (error: Option<Error>)
      requires change.TextUpdate?
      modifies this
      ensures Outcome(disk, error) == Perform(old(disk), EntryAction(change, entry))
      ensures EntryExplained(old(disk), disk, entry, change, error)
    {
      EntryExactly(disk, change, entry);
      if entry.NotAnObject? { return Some(MalformedEntry); }
      var mode :=
        if entry.mode.Some? then entry.mode.value
        else if change.mode.Some? then change.mode.value
        else Replace;
      if mode.UnknownMode? { return Some(UnsupportedMode); }
      var source := if entry.source.Some? then entry.source else change.source;
      if source.None? { return Some(NoSource); }
      if source.value !in disk { return Some(SourceNotFound); }
      if entry.target.None? { return Some(NoTarget); }
      var existing, patch := Lines(disk, entry.target.value), Lines(disk, source.value);
      var updated := ApplyPatch(existing, patch, mode);
      disk := disk[entry.target.value := JoinLines(updated.value)];
      error := if entry.target.value.Elsewhere? then Some(OutsideConfigset) else None;
    }

    method PatchFiles(entries: seq<Entry>, change: Change) returns (error: Option<Error>)
      requires change.TextUpdate?
      modifies this
      ensures Outcome(disk, error) == PerformAll(old(disk), EntryActions(change, entries))
      ensures EntriesExplained(old(disk), disk, entries, change, error)
    {
      error := None;
      ghost var disks := [disk];
      for i := 0 to |entries|
        invariant error.None? && |disks| == i + 1 && disks[0] == old(disk) && disks[i] == disk
        invariant EntrySteps(disks, entries[..i], change, None)
        invariant PerformAll(disk, EntryActions(change, entries[i..])) ==
                  PerformAll(old(disk), EntryActions(change, entries))
      {
        error := PatchFile(entries[i], change);
        OneMoreEntry(disks, entries, i, change, disk, error);
        disks := disks + [disk];
        if error.Some? { return; }
      }
      TakeAll(entries);
    }

    /** apply_configset_updates */
    method ApplyConfigsetUpdates(changes: seq<Change>) returns (error: Option<Error>)
      modifies this
      ensures Outcome(disk, error) == PerformAll(old(disk), Actions(changes))
      ensures RunExplained(old(disk), disk, changes, error)
    {
      error := None;
      ghost var disks := [disk];
      for i := 0 to |changes|
        invariant error.None? && PerformAll(disk, Actions(changes[i..])) == PerformAll(old(disk), Actions(changes))
        invariant |disks| == i + 1 && disks[0] == old(disk) && disks[i] == disk
        invariant ChangeSteps(disks, changes[..i], None)
      {
        var change := changes[i];
        PerformConcat(disk, ChangeActions(change), Actions(changes[i + 1..]));
        error := ApplyChange(change);
        OneMoreChange(disks, changes, i, disk, error);
        disks := disks + [disk];
        if error.Some? { return; }
      }
      TakeAll(changes);
    }

    /** One pass of the outer loop. */
    method ApplyChange(change: Change) returns (error: Option<Error>)
      modifies this
      ensures Outcome(disk, error) == PerformAll(old(disk), ChangeActions(change))
      ensures ChangeExplained(old(disk), disk, change, error)
    {
      if change.OtherChange? { return None; }
      if change.entries == [] { return Some(NoTargetFiles); }
      if change.mode == Some(UnknownMode) { return Some(UnsupportedMode); }
      error := PatchFiles(change.entries, change);
    }
  }

  lemma OneMoreEntry(disks: seq<Disk>, entries: seq<Entry>, i: nat, change: Change, now: Disk, error: Option<Error>)
    requires change.TextUpdate? && i < |entries| && |disks| == i + 1
    requires EntrySteps(disks, entries[..i], change, None)
    requires EntryExplained(disks[i], now, entries[i], change, error)
    ensures EntrySteps(disks + [now], entries[..i + 1], change, error)
    ensures error.Some? ==> EntrySteps(disks + [now], entries, change, error)
  {
    forall j | 0 <= j < i ensures entries[..i][j] == entries[j] == entries[..i + 1][j] {
    }
  }

  lemma OneMoreChange(disks: seq<Disk>, changes: seq<Change>, i: nat, now: Disk, error: Option<Error>)
    requires i < |changes| && |disks| == i + 1 && ChangeSteps(disks, changes[..i], None)
    requires ChangeExplained(disks[i], now, changes[i], error)
    ensures ChangeSteps(disks + [now], changes[..i + 1], error)
    ensures error.Some? ==> ChangeSteps(disks + [now], changes, error)
  {
    forall j | 0 <= j < i ensures changes[..i][j] == changes[j] == changes[..i + 1][j] {
    }
  }

  lemma {:induction false} PerformConcat(disk: Disk, a: seq<Action>, b: seq<Action>)
    ensures var first := PerformAll(disk, a);
            PerformAll(disk, a + b) == if first.error.Some? then first else PerformAll(first.disk, b)
    decreases |a|
  {
    if a == [] {
      assert a + b == b;
    } else {
      assert (a + b)[0] == a[0] && (a + b)[1..] == a[1..] + b;
      if Perform(disk, a[0]).error.None? {
        PerformConcat(Perform(disk, a[0]).disk, a[1..], b);
      }
    }
  }
}
