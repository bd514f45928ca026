/** The schema operations of a changeset.  Every payload is computed from the baseline schema and
    posted to the shadow, whatever earlier operations have already done to the shadow. */
module ApplySchema {
  import opened Prelude
  import opened Sorting
  import opened Schema

  datatype Side = IndexSide | QuerySide | OtherSide(name: Text)

  datatype Patch = Patch(fieldType: Option<Text>, props: map<Text, Text>)

  datatype Op =
    | FieldUpdate(field: Text, patch: Patch)
    | FieldTypeReplace(name: Text, replacement: Text)
    | RemoveFilter(fieldType: Text, side: Side, filterClass: Text)
    | OtherOp

  datatype Command = ReplaceField(field: Field) | ReplaceFieldType(fieldType: FieldType)

  datatype SchemaError = FieldMissing | FieldTypeMissing | AnalyzerMissing | NoSuchFilter | Refused

  // ----- lookups -----

  function FindField(fields: seq<Field>, name: Text): Option<Field> {
    if fields == [] then None else if fields[0].name == name then Some(fields[0]) else FindField(fields[1..], name)
  }

  function FindFieldType(types: seq<FieldType>, name: Text): Option<FieldType> {
    if types == [] then None else if types[0].name == name then Some(types[0]) else FindFieldType(types[1..], name)
  }

  // ----- filter names -----

  /** s.replace(pattern, ""). */
  function Erase(s: string, pattern: string): string
    requires pattern != ""
    decreases |s|
  {
    if |s| < |pattern| then s
    else if s[..|pattern|] == pattern then Erase(s[|pattern|..], pattern)
    else [s[0]] + Erase(s[1..], pattern)
  }

  function Alphanumeric(s: string): string {
    if s == "" then ""
    else (if 'a' <= s[0] <= 'z' || 'A' <= s[0] <= 'Z' || '0' <= s[0] <= '9' then [s[0]] else "") + Alphanumeric(s[1..])
  }

  function Lower(s: string): string {
    if s == "" then ""
    else [if 'A' <= s[0] <= 'Z' then s[0] - 'A' + 'a' else s[0]] + Lower(s[1..])
  }

  function Normalize(s: string): string {
    Lower(Alphanumeric(Erase(Erase(s, "solr."), "FilterFactory")))
  }

  // ----- what normalizing a name does -----

  ghost predicate OccursAt(s: string, pattern: string, i: nat) {
    i + |pattern| <= |s| && s[i..i + |pattern|] == pattern
  }

  ghost predicate FirstOccursAt(s: string, pattern: string, i: nat) {
    OccursAt(s, pattern, i) && forall j: nat :: j < i ==> !OccursAt(s, pattern, j)
  }

  lemma OccursInRest(s: string, pattern: string, i: nat)
    requires s != "" && pattern != ""
    ensures OccursAt(s[1..], pattern, i) <==> OccursAt(s, pattern, i + 1)
  {
    if i + 1 + |pattern| <= |s| {
      assert s[1..][i..i + |pattern|] == s[i + 1..i + 1 + |pattern|];
    }
  }

  /** Without an occurrence nothing changes ... */
  lemma {:induction false} EraseNothing(s: string, pattern: string)
    requires pattern != "" && forall i: nat :: !OccursAt(s, pattern, i)
    ensures Erase(s, pattern) == s
    decreases |s|
  {
    if |s| >= |pattern| {
      assert !OccursAt(s, pattern, 0);
      forall i: nat ensures !OccursAt(s[1..], pattern, i) { OccursInRest(s, pattern, i); }
      EraseNothing(s[1..], pattern);
    }
  }

  lemma EraseHere(s: string, pattern: string)
    requires pattern != "" && OccursAt(s, pattern, 0)
    ensures Erase(s, pattern) == Erase(s[|pattern|..], pattern)
  {
    assert s[..|pattern|] == pattern;
  }

  lemma EraseLater(s: string, pattern: string)
    requires pattern != "" && |s| >= |pattern| && !OccursAt(s, pattern, 0)
    ensures Erase(s, pattern) == [s[0]] + Erase(s[1..], pattern)
  {
  }

  lemma FirstInRest(s: string, pattern: string, i: nat)
    requires pattern != "" && i > 0 && FirstOccursAt(s, pattern, i)
    ensures !OccursAt(s, pattern, 0) && FirstOccursAt(s[1..], pattern, i - 1)
  {
    assert !OccursAt(s, pattern, 0);
    OccursInRest(s, pattern, i - 1);
    forall j: nat | j < i - 1 ensures !OccursAt(s[1..], pattern, j) {
      OccursInRest(s, pattern, j);
      assert !OccursAt(s, pattern, j + 1);
    }
  }

  lemma SlicesOfRest(s: string, i: nat, n: nat)
    requires 0 < i && i + n <= |s|
    ensures [s[0]] + s[1..][..i - 1] == s[..i] && s[1..][i - 1 + n..] == s[i + n..]
  {
  }

  /** ... and the first one, from left to right, is dropped before what follows it is searched. */
  lemma {:induction false} EraseFirst(s: string, pattern: string, i: nat, tail: string, erased: string)
    requires pattern != "" && FirstOccursAt(s, pattern, i)
    requires tail == s[i + |pattern|..] && erased == Erase(tail, pattern)
    ensures Erase(s, pattern) == s[..i] + erased
    decreases i
  {
    if i == 0 {
      EraseHere(s, pattern);
      assert s[..0] + erased == erased;
    } else {
      EraseLater(s, pattern);
      FirstInRest(s, pattern, i);
      SlicesOfRest(s, i, |pattern|);
      EraseFirst(s[1..], pattern, i - 1, tail, erased);
      AppendRegroups([s[0]], s[1..][..i - 1], erased);
    }
  }

  predicate IsAlphanumeric(c: char) {
    var n := c as int;
    48 <= n <= 57 || 65 <= n <= 90 || 97 <= n <= 122
  }

  lemma AlphanumericFirst(c: char, s: string)
    ensures Alphanumeric([c] + s) == if IsAlphanumeric(c) then [c] + Alphanumeric(s) else Alphanumeric(s)
  {
    assert ([c] + s)[1..] == s && "" + Alphanumeric(s) == Alphanumeric(s);
  }

  /** The letters and digits, in their order. */
  lemma {:induction false} AlphanumericExactly(s: string)
    ensures IsKept(s, Alphanumeric(s), IsAlphanumeric)
  {
    if s == "" {
      KeptNone(IsAlphanumeric);
    } else {
      AlphanumericExactly(s[1..]);
      AlphanumericFirst(s[0], s[1..]);
      KeptNext(s[0], s[1..], Alphanumeric(s[1..]), IsAlphanumeric);
      assert s == [s[0]] + s[1..];
    }
  }

  /** Capital letters become small ones, position by position. */
  lemma {:induction false} LowerExactly(s: string)
    ensures |Lower(s)| == |s|
    ensures forall i :: 0 <= i < |s| ==>
              if 'A' <= s[i] <= 'Z' then Lower(s)[i] as int == s[i] as int + 32 else Lower(s)[i] == s[i]
  {
    if s != "" {
      LowerExactly(s[1..]);
    }
  }

  /** A name without "solr." and "FilterFactory", reduced to its letters and digits, capitals made small. */
  lemma NormalizeExactly(s: string)
    ensures exists letters ::
              && IsKept(Erase(Erase(s, "solr."), "FilterFactory"), letters, IsAlphanumeric)
              && |Normalize(s)| == |letters|
              && forall i :: 0 <= i < |letters| ==>
                   if 'A' <= letters[i] <= 'Z' then Normalize(s)[i] as int == letters[i] as int + 32
                   else Normalize(s)[i] == letters[i]
  {
    var letters := Alphanumeric(Erase(Erase(s, "solr."), "FilterFactory"));
    AlphanumericExactly(Erase(Erase(s, "solr."), "FilterFactory"));
    LowerExactly(letters);
    assert Normalize(s) == Lower(letters);
  }

  predicate CandidateMatches(candidate: Option<Text>, filterClass: Text) {
    || candidate == Some(filterClass)
    || Normalize(if candidate.Some? then candidate.value.chars else "") == Normalize(filterClass.chars)
  }

  predicate FilterMatches(f: Filter, filterClass: Text) {
    CandidateMatches(f.cls, filterClass) || CandidateMatches(f.name, filterClass)
  }

  // ----- payloads -----

  function Kept(filters: seq<Filter>, filterClass: Text): seq<Filter> {
    if filters == [] then []
    else (if FilterMatches(filters[0], filterClass) then [] else [filters[0]]) + Kept(filters[1..], filterClass)
  }

  /** The block without the matching filters, and how many there were. */
  function RemoveMatching(block: Analyzer, filterClass: Text): (Analyzer, int) {
    if block.filters.Some? then
      var kept := Kept(block.filters.value, filterClass);
      (block.(filters := Some(kept)), |block.filters.value| - |kept|)
    else
      match block.filter
      case NoEntry => (block, 0)
      case Many(filters) =>
        var kept := Kept(filters, filterClass);
        (block.(filter := Many(kept)), |filters| - |kept|)
      case Single(filter) =>
        if FilterMatches(filter, filterClass) then (block.(filter := Many([])), 1) else (block, 0)
  }

  function PrepareFieldUpdate(s: Schema, field: Text, p: Patch): Result<Field, SchemaError> {
    var base := FindField(s.fields, field);
    if base.None? then Err(FieldMissing)
    else
      Ok(Field(field, if p.fieldType.Some? then p.fieldType else base.value.fieldType, base.value.props + p.props))
  }

  function PrepareReplacements(fields: seq<Field>, src: Text, dst: Text): seq<Command> {
    if fields == [] then []
    else
      (if fields[0].fieldType == Some(src) then [ReplaceField(fields[0].(fieldType := Some(dst)))] else [])
      + PrepareReplacements(fields[1..], src, dst)
  }

  function PrepareRemoveFilter(s: Schema, name: Text, side: Side, filterClass: Text): Result<FieldType, SchemaError> {
    var found := FindFieldType(s.fieldTypes, name);
    if found.None? then Err(FieldTypeMissing)
    else
      var ft := found.value;
      if side.IndexSide? && ft.indexAnalyzer.Some? then
        var (block, removed) := RemoveMatching(ft.indexAnalyzer.value, filterClass);
        if removed == 0 then Err(NoSuchFilter) else Ok(ft.(indexAnalyzer := Some(block)))
      else if side.QuerySide? && ft.queryAnalyzer.Some? then
        var (block, removed) := RemoveMatching(ft.queryAnalyzer.value, filterClass);
        if removed == 0 then Err(NoSuchFilter) else Ok(ft.(queryAnalyzer := Some(block)))
      else if !side.OtherSide? && ft.analyzer.Some? then
        var (block, removed) := RemoveMatching(ft.analyzer.value, filterClass);
        if removed == 0 then Err(NoSuchFilter) else Ok(ft.(analyzer := Some(block)))
      else Err(AnalyzerMissing)
  }

  const NO_FILTER := "No filter with class"

  predicate Contains(s: string, pattern: string) {
    pattern <= s || (s != "" && Contains(s[1..], pattern))
  }

  lemma {:induction false} ContainsExactly(s: string, pattern: string)
    ensures Contains(s, pattern) <==> exists i: nat :: OccursAt(s, pattern, i)
  {
    if pattern <= s {
      assert OccursAt(s, pattern, 0);
    } else if s != "" {
      var rest := s[1..];
      ContainsExactly(rest, pattern);
      forall i: nat ensures OccursAt(rest, pattern, i) <==> OccursAt(s, pattern, i + 1) {
        if i + 1 + |pattern| <= |s| {
          assert rest[i..i + |pattern|] == s[i + 1..i + 1 + |pattern|];
        }
      }
      if i: nat :| OccursAt(s, pattern, i) {
        assert i > 0;
        assert OccursAt(rest, pattern, i - 1);
      }
    }
  }

  /** The errors of a removal that count as nothing to remove: those whose message contains NO_FILTER.  The other
      messages quote the field type, and the analyzer if it is the analyzer that is missing. */
  predicate Skips(e: SchemaError, name: Text, side: Side) {
    || e.NoSuchFilter?
    || ((e.FieldTypeMissing? || e.AnalyzerMissing?) && Contains(name.chars, NO_FILTER))
    || (e.AnalyzerMissing? && side.OtherSide? && Contains(side.name.chars, NO_FILTER))
  }

  /** What an operation posts; removing a filter that is not there posts nothing. */
  function Commands(baseline: Schema, op: Op): Result<seq<Command>, SchemaError> {
    match op
    case FieldUpdate(field, p) =>
      (match PrepareFieldUpdate(baseline, field, p)
       case Ok(def) => Ok([ReplaceField(def)])
       case Err(e) => Err(e))
    case FieldTypeReplace(src, dst) => Ok(PrepareReplacements(baseline.fields, src, dst))
    case RemoveFilter(name, side, filterClass) =>
      (match PrepareRemoveFilter(baseline, name, side, filterClass)
       case Ok(def) => Ok([ReplaceFieldType(def)])
       case Err(e) => if Skips(e, name, side) then Ok([]) else Err(e))
    case OtherOp => Ok([])
  }

  // ----- the shadow's live schema -----

  function ReplaceFieldIn(fields: seq<Field>, def: Field): seq<Field> {
    if fields == [] then []
    else [if fields[0].name == def.name then def else fields[0]] + ReplaceFieldIn(fields[1..], def)
  }

  function ReplaceTypeIn(types: seq<FieldType>, def: FieldType): seq<FieldType> {
    if types == [] then []
    else [if types[0].name == def.name then def else types[0]] + ReplaceTypeIn(types[1..], def)
  }

  /** Solr refuses to replace what is not there. */
  function Post(live: Schema, c: Command): Result<Schema, SchemaError> {
    match c
    case ReplaceField(def) =>
      if FindField(live.fields, def.name).None? then Err(Refused)
      else Ok(live.(fields := ReplaceFieldIn(live.fields, def)))
    case ReplaceFieldType(def) =>
      if FindFieldType(live.fieldTypes, def.name).None? then Err(Refused)
      else Ok(live.(fieldTypes := ReplaceTypeIn(live.fieldTypes, def)))
  }

  datatype Outcome = Outcome(live: Schema, error: Option<SchemaError>)

  function PostAll(live: Schema, commands: seq<Command>): Outcome
    decreases |commands|
  {
    if commands == [] then Outcome(live, None)
    else
      match Post(live, commands[0])
      case Err(e) => Outcome(live, Some(e))
      case Ok(next) => PostAll(next, commands[1..])
  }

  function ApplyOp(baseline: Schema, live: Schema, op: Op): Outcome {
    match Commands(baseline, op)
    case Err(e) => Outcome(live, Some(e))
    case Ok(commands) => PostAll(live, commands)
  }

  /** The live schema after the operations, or up to the first one that raises. */
  function ApplyOps(baseline: Schema, live: Schema, ops: seq<Op>): Outcome
    decreases |ops|
  {
    if ops == [] then Outcome(live, None)
    else
      var first := ApplyOp(baseline, live, ops[0]);
      if first.error.Some? then first else ApplyOps(baseline, first.live, ops[1..])
  }

  // ----- lookups after a command -----

  lemma {:induction false} FindAfterReplaceField(fields: seq<Field>, def: Field, f: Text)
    ensures FindField(ReplaceFieldIn(fields, def), f) ==
            if f == def.name && FindField(fields, f).Some? then Some(def) else FindField(fields, f)
  {
    if fields != [] {
      FindAfterReplaceField(fields[1..], def, f);
    }
  }

  lemma {:induction false} FindAfterReplaceType(types: seq<FieldType>, def: FieldType, t: Text)
    ensures FindFieldType(ReplaceTypeIn(types, def), t) ==
            if t == def.name && FindFieldType(types, t).Some? then Some(def) else FindFieldType(types, t)
  {
    if types != [] {
      FindAfterReplaceType(types[1..], def, t);
    }
  }

  lemma {:induction false} FoundName(s: Schema, n: Text)
    ensures FindField(s.fields, n).Some? ==> FindField(s.fields, n).value.name == n
    ensures FindFieldType(s.fieldTypes, n).Some? ==> FindFieldType(s.fieldTypes, n).value.name == n
    decreases |s.fields| + |s.fieldTypes|
  {
    if s.fields != [] && s.fields[0].name != n {
      FoundName(s.(fields := s.fields[1..]), n);
    } else if s.fieldTypes != [] && s.fieldTypes[0].name != n {
      FoundName(s.(fieldTypes := s.fieldTypes[1..]), n);
    }
  }

  lemma PostOne(live: Schema, c: Command)
    requires Post(live, c).Ok?
    ensures PostAll(live, [c]).live == Post(live, c).value
  {
    assert PostAll(Post(live, c).value, [c][1..]).live == Post(live, c).value;
  }

  // ----- what a run leaves of a field -----

  /** d is the first definition of this name. */
  ghost predicate FirstField(fields: seq<Field>, f: Text, d: Field) {
    exists i :: 0 <= i < |fields| && fields[i] == d && d.name == f && forall j :: 0 <= j < i ==> fields[j].name != f
  }

  lemma {:induction false} FindFieldExactly(fields: seq<Field>, f: Text, d: Field)
    ensures FindField(fields, f) == Some(d) <==> FirstField(fields, f, d)
  {
    if fields != [] {
      var rest := fields[1..];
      FindFieldExactly(rest, f, d);
      if fields[0].name == f {
        assert fields[0] == d ==> FirstField(fields, f, d);
      } else {
        if i :| 0 <= i < |rest| && rest[i] == d && d.name == f && forall j :: 0 <= j < i ==> rest[j].name != f {
          forall j | 0 <= j < i + 1 ensures fields[j].name != f { assert j > 0 ==> fields[j] == rest[j - 1]; }
          assert fields[i + 1] == d;
        }
        if i :| 0 <= i < |fields| && fields[i] == d && d.name == f && forall j :: 0 <= j < i ==> fields[j].name != f {
          assert i > 0 && rest[i - 1] == d;
          forall j | 0 <= j < i - 1 ensures rest[j].name != f { assert rest[j] == fields[j + 1]; }
        }
      }
    }
  }

  /** The operation posts a definition of f. */
  ghost predicate PostsField(baseline: Schema, op: Op, f: Text) {
    || (op.FieldUpdate? && op.field == f)
    || (op.FieldTypeReplace? && exists b :: FirstField(baseline.fields, f, b) && b.fieldType == Some(op.name))
  }

  /** What it posts: an update sets the keys of its patch and keeps the baseline's others, a replacement keeps all
      but the type. */
  ghost predicate PostedAs(op: Op, b: Field, d: Field) {
    && d.name == b.name
    && (op.FieldUpdate? ==>
          && d.fieldType == (if op.patch.fieldType.Some? then op.patch.fieldType else b.fieldType)
          && d.props.Keys == b.props.Keys + op.patch.props.Keys
          && (forall key :: key in op.patch.props ==> d.props[key] == op.patch.props[key])
          && forall key :: key in b.props && key !in op.patch.props ==> d.props[key] == b.props[key])
    && (op.FieldTypeReplace? ==> d.fieldType == Some(op.replacement) && d.props == b.props)
  }

  ghost predicate LastPosts(baseline: Schema, ops: seq<Op>, f: Text, k: nat) {
    k < |ops| && PostsField(baseline, ops[k], f) && forall m :: k < m < |ops| ==> !PostsField(baseline, ops[m], f)
  }

  /** The last operation that posts f decides; without one the field stays what it was. */
  ghost predicate FieldExplained(baseline: Schema, ops: seq<Op>, before: seq<Field>, after: seq<Field>, f: Text) {
    && (forall k: nat :: LastPosts(baseline, ops, f, k) ==>
          exists b, d :: FirstField(baseline.fields, f, b) && FirstField(after, f, d) && PostedAs(ops[k], b, d))
    && ((forall k :: 0 <= k < |ops| ==> !PostsField(baseline, ops[k], f)) ==>
          forall d :: FirstField(after, f, d) <==> FirstField(before, f, d))
  }

  // ----- what it leaves of a field type -----

  /** d is the first definition of this name. */
  ghost predicate FirstType(types: seq<FieldType>, n: Text, d: FieldType) {
    exists i :: 0 <= i < |types| && types[i] == d && d.name == n && forall j :: 0 <= j < i ==> types[j].name != n
  }

  lemma {:induction false} FindTypeExactly(types: seq<FieldType>, n: Text, d: FieldType)
    ensures FindFieldType(types, n) == Some(d) <==> FirstType(types, n, d)
  {
    if types != [] {
      var rest := types[1..];
      FindTypeExactly(rest, n, d);
      if types[0].name == n {
        assert types[0] == d ==> FirstType(types, n, d);
      } else {
        if i :| 0 <= i < |rest| && rest[i] == d && d.name == n && forall j :: 0 <= j < i ==> rest[j].name != n {
          forall j | 0 <= j < i + 1 ensures types[j].name != n { assert j > 0 ==> types[j] == rest[j - 1]; }
          assert types[i + 1] == d;
        }
        if i :| 0 <= i < |types| && types[i] == d && d.name == n && forall j :: 0 <= j < i ==> types[j].name != n {
          assert i > 0 && rest[i - 1] == d;
          forall j | 0 <= j < i - 1 ensures rest[j].name != n { assert rest[j] == types[j + 1]; }
        }
      }
    }
  }

  /** The analyzer of the named side, or the common one if that side has none of its own. */
  function BlockFor(ft: FieldType, side: Side): Option<Analyzer> {
    match side
    case IndexSide => if ft.indexAnalyzer.Some? then ft.indexAnalyzer else ft.analyzer
    case QuerySide => if ft.queryAnalyzer.Some? then ft.queryAnalyzer else ft.analyzer
    case OtherSide(_) => None
  }

  function FiltersOf(block: Analyzer): seq<Filter> {
    if block.filters.Some? then block.filters.value
    else
      match block.filter
      case NoEntry => []
      case Many(filters) => filters
      case Single(filter) => [filter]
  }

  /** The filter's class or name is the given one, or is spelled like it. */
  predicate Matching(f: Filter, cls: Text) {
    || f.cls == Some(cls) || f.name == Some(cls)
    || Normalize(if f.cls.Some? then f.cls.value.chars else "") == Normalize(cls.chars)
    || Normalize(if f.name.Some? then f.name.value.chars else "") == Normalize(cls.chars)
  }

  function Unlike(cls: Text): Filter -> bool {
    f => !Matching(f, cls)
  }

  /** kept are the filters that do not match, in their order. */
  ghost predicate Remaining(filters: seq<Filter>, kept: seq<Filter>, cls: Text) {
    IsKept(filters, kept, Unlike(cls))
  }

  lemma MatchingExactly(f: Filter, cls: Text)
    ensures FilterMatches(f, cls) <==> Matching(f, cls)
  {
  }

  lemma KeptFirst(x: Filter, rest: seq<Filter>, cls: Text)
    ensures Kept([x] + rest, cls) == if Matching(x, cls) then Kept(rest, cls) else [x] + Kept(rest, cls)
  {
    MatchingExactly(x, cls);
    assert ([x] + rest)[1..] == rest && [] + Kept(rest, cls) == Kept(rest, cls);
  }

  lemma {:induction false} KeptRemain(filters: seq<Filter>, cls: Text)
    ensures Remaining(filters, Kept(filters, cls), cls)
  {
    if filters == [] {
      KeptNone(Unlike(cls));
    } else {
      var x, rest := filters[0], filters[1..];
      KeptRemain(rest, cls);
      KeptNext(x, rest, Kept(rest, cls), Unlike(cls));
      KeptFirst(x, rest, cls);
      assert filters == [x] + rest;
    }
  }

  lemma {:induction false} KeptHasNoMatch(filters: seq<Filter>, cls: Text)
    ensures forall f :: f in Kept(filters, cls) <==> f in filters && !FilterMatches(f, cls)
    ensures |Kept(filters, cls)| <= |filters|
    ensures |Kept(filters, cls)| == |filters| <==> forall f :: f in filters ==> !FilterMatches(f, cls)
    ensures (forall f :: f in filters ==> !FilterMatches(f, cls)) ==> Kept(filters, cls) == filters
  {
    if filters != [] {
      KeptHasNoMatch(filters[1..], cls);
      assert filters == [filters[0]] + filters[1..];
    }
  }

  /** The block without its matching filters; whatever else it holds stays. */
  ghost predicate BlockStripped(b: Analyzer, d: Analyzer, cls: Text) {
    && Remaining(FiltersOf(b), FiltersOf(d), cls)
    && (b.filters.Some? ==> d.filters.Some? && d.filter == b.filter)
    && (b.filters.None? ==> d.filters.None? && (b.filter.NoEntry? <==> d.filter.NoEntry?))
  }

  /** Some filter of the analyzer in question matches. */
  ghost predicate PostsType(baseline: Schema, op: Op, n: Text) {
    && op.RemoveFilter? && op.fieldType == n
    && exists ft :: FirstType(baseline.fieldTypes, n, ft) && BlockFor(ft, op.side).Some?
         && exists f :: f in FiltersOf(BlockFor(ft, op.side).value) && Matching(f, op.filterClass)
  }

  ghost predicate SideStripped(b: Option<Analyzer>, d: Option<Analyzer>, stripped: bool, cls: Text) {
    if stripped then b.Some? && d.Some? && BlockStripped(b.value, d.value, cls) else d == b
  }

  /** The baseline's definition with the analyzer in question stripped and the other analyzers as they were. */
  ghost predicate StrippedAs(op: Op, ft: FieldType, d: FieldType)
    requires op.RemoveFilter?
  {
    var onIndex := op.side.IndexSide? && ft.indexAnalyzer.Some?;
    var onQuery := op.side.QuerySide? && ft.queryAnalyzer.Some?;
    && d.name == ft.name
    && SideStripped(ft.indexAnalyzer, d.indexAnalyzer, onIndex, op.filterClass)
    && SideStripped(ft.queryAnalyzer, d.queryAnalyzer, onQuery, op.filterClass)
    && SideStripped(ft.analyzer, d.analyzer, !onIndex && !onQuery, op.filterClass)
  }

  ghost predicate LastStrips(baseline: Schema, ops: seq<Op>, n: Text, k: nat) {
    k < |ops| && PostsType(baseline, ops[k], n) && forall m :: k < m < |ops| ==> !PostsType(baseline, ops[m], n)
  }

  /** The last operation that strips n decides; without one the type stays what it was. */
  ghost predicate TypeExplained(baseline: Schema, ops: seq<Op>, before: seq<FieldType>, after: seq<FieldType>,
      n: Text)
  {
    && (forall k: nat :: LastStrips(baseline, ops, n, k) ==>
          exists b, d :: FirstType(baseline.fieldTypes, n, b) && FirstType(after, n, d) && StrippedAs(ops[k], b, d))
    && ((forall k :: 0 <= k < |ops| ==> !PostsType(baseline, ops[k], n)) ==>
          forall d :: FirstType(after, n, d) <==> FirstType(before, n, d))
  }

  // ----- one operation -----

  function LastFieldIn(commands: seq<Command>, f: Text): Option<Field> {
    if commands == [] then None
    else
      var later := LastFieldIn(commands[1..], f);
      if later.Some? then later
      else if commands[0].ReplaceField? && commands[0].field.name == f then Some(commands[0].field) else None
  }

  function LastTypeIn(commands: seq<Command>, n: Text): Option<FieldType> {
    if commands == [] then None
    else
      var later := LastTypeIn(commands[1..], n);
      if later.Some? then later
      else if commands[0].ReplaceFieldType? && commands[0].fieldType.name == n then Some(commands[0].fieldType)
      else None
  }

  lemma {:induction false} PostedLast(live: Schema, commands: seq<Command>, n: Text)
    requires PostAll(live, commands).error.None?
    ensures var after := PostAll(live, commands).live;
            && FindField(after.fields, n) ==
               (if LastFieldIn(commands, n).Some? then LastFieldIn(commands, n) else FindField(live.fields, n))
            && FindFieldType(after.fieldTypes, n) ==
               (if LastTypeIn(commands, n).Some? then LastTypeIn(commands, n) else FindFieldType(live.fieldTypes, n))
    decreases |commands|
  {
    if commands != [] {
      var next := Post(live, commands[0]).value;
      PostedLast(next, commands[1..], n);
      match commands[0] {
        case ReplaceField(def) => FindAfterReplaceField(live.fields, def, n);
        case ReplaceFieldType(def) => FindAfterReplaceType(live.fieldTypes, def, n);
      }
    }
  }

  lemma OneMoreCommand(head: seq<Command>, rest: seq<Command>, n: Text)
    requires |head| <= 1
    ensures LastFieldIn(head + rest, n) ==
            if LastFieldIn(rest, n).Some? then LastFieldIn(rest, n) else LastFieldIn(head, n)
    ensures LastTypeIn(head + rest, n) ==
            if LastTypeIn(rest, n).Some? then LastTypeIn(rest, n) else LastTypeIn(head, n)
  {
    if head == [] {
      assert head + rest == rest;
    } else {
      assert (head + rest)[1..] == rest && head[1..] == [];
    }
  }

  function Replacement(field: Field, src: Text, dst: Text): (head: seq<Command>)
    ensures |head| <= 1
  {
    if field.fieldType == Some(src) then [ReplaceField(field.(fieldType := Some(dst)))] else []
  }

  lemma {:induction false} NoSuchName(fields: seq<Field>, src: Text, dst: Text, f: Text)
    requires forall i :: 0 <= i < |fields| ==> fields[i].name != f
    ensures LastFieldIn(PrepareReplacements(fields, src, dst), f).None? && FindField(fields, f).None?
  {
    if fields != [] {
      NoSuchName(fields[1..], src, dst, f);
      OneMoreCommand(Replacement(fields[0], src, dst), PrepareReplacements(fields[1..], src, dst), f);
    }
  }

  lemma {:induction false} ReplacedOnce(fields: seq<Field>, src: Text, dst: Text, f: Text)
    requires UniqueNames(fields)
    ensures LastFieldIn(PrepareReplacements(fields, src, dst), f) ==
            (if FindField(fields, f).Some? && FindField(fields, f).value.fieldType == Some(src)
             then Some(FindField(fields, f).value.(fieldType := Some(dst))) else None)
  {
    if fields != [] {
      OneMoreCommand(Replacement(fields[0], src, dst), PrepareReplacements(fields[1..], src, dst), f);
      if fields[0].name == f {
        NoSuchName(fields[1..], src, dst, f);
      } else {
        ReplacedOnce(fields[1..], src, dst, f);
      }
    }
  }

  lemma {:induction false} ReplacementsLeaveTypes(fields: seq<Field>, src: Text, dst: Text, n: Text)
    ensures LastTypeIn(PrepareReplacements(fields, src, dst), n).None?
  {
    if fields != [] {
      ReplacementsLeaveTypes(fields[1..], src, dst, n);
      OneMoreCommand(Replacement(fields[0], src, dst), PrepareReplacements(fields[1..], src, dst), n);
    }
  }

  ghost predicate SameField(before: seq<Field>, after: seq<Field>, f: Text) {
    FindField(after, f) == FindField(before, f)
  }

  lemma OpOnField(baseline: Schema, live: Schema, op: Op, f: Text)
    requires UniqueNames(baseline.fields) && ApplyOp(baseline, live, op).error.None?
    ensures var after := ApplyOp(baseline, live, op).live;
            && (PostsField(baseline, op, f) ==>
                  exists b, d ::
                    FirstField(baseline.fields, f, b) && FirstField(after.fields, f, d) && PostedAs(op, b, d))
            && (!PostsField(baseline, op, f) ==> SameField(live.fields, after.fields, f))
  {
    var commands, after := Commands(baseline, op).value, ApplyOp(baseline, live, op).live;
    PostedLast(live, commands, f);
    var found := FindField(baseline.fields, f);
    if found.Some? {
      FindFieldExactly(baseline.fields, f, found.value);
    }
    forall d ensures FindField(after.fields, f) == Some(d) <==> FirstField(after.fields, f, d) {
      FindFieldExactly(after.fields, f, d);
    }
    forall b ensures found == Some(b) <==> FirstField(baseline.fields, f, b) {
      FindFieldExactly(baseline.fields, f, b);
    }
    if op.FieldTypeReplace? {
      ReplacedOnce(baseline.fields, op.name, op.replacement, f);
    }
    if PostsField(baseline, op, f) {
      var d := FindField(after.fields, f).value;
      assert FirstField(baseline.fields, f, found.value) && FirstField(after.fields, f, d);
      assert PostedAs(op, found.value, d);
    }
  }


  lemma SomeMatch(filters: seq<Filter>, cls: Text)
    ensures |Kept(filters, cls)| <= |filters|
    ensures |Kept(filters, cls)| < |filters| <==> exists f :: f in filters && Matching(f, cls)
  {
    KeptHasNoMatch(filters, cls);
    forall f ensures FilterMatches(f, cls) <==> Matching(f, cls) { MatchingExactly(f, cls); }
  }

  lemma RemovalExactly(b: Analyzer, cls: Text)
    ensures var (d, removed) := RemoveMatching(b, cls);
            && (removed != 0 <==> exists f :: f in FiltersOf(b) && Matching(f, cls))
            && (removed != 0 ==> BlockStripped(b, d, cls))
  {
    var filters := FiltersOf(b);
    KeptRemain(filters, cls);
    SomeMatch(filters, cls);
    if b.filters.None? && b.filter.Single? {
      KeptFirst(b.filter.filter, [], cls);
      MatchingExactly(b.filter.filter, cls);
      assert [b.filter.filter] + [] == [b.filter.filter];
    }
  }

  lemma StripExactly(s: Schema, op: Op, ft: FieldType)
    requires op.RemoveFilter? && FindFieldType(s.fieldTypes, op.fieldType) == Some(ft) && ft.name == op.fieldType
    ensures var r := PrepareRemoveFilter(s, op.fieldType, op.side, op.filterClass);
            && (r.Ok? <==> BlockFor(ft, op.side).Some?
                           && exists f :: f in FiltersOf(BlockFor(ft, op.side).value) && Matching(f, op.filterClass))
            && (r.Ok? ==> StrippedAs(op, ft, r.value))
            && (r == Err(AnalyzerMissing) <==> BlockFor(ft, op.side).None?)
            && r != Err(FieldTypeMissing) && r != Err(FieldMissing) && r != Err(Refused)
  {
    var block := BlockFor(ft, op.side);
    if block.Some? {
      RemovalExactly(block.value, op.filterClass);
    }
  }

  lemma OpOnType(baseline: Schema, live: Schema, op: Op, n: Text)
    requires ApplyOp(baseline, live, op).error.None?
    ensures var after := ApplyOp(baseline, live, op).live;
            && (PostsType(baseline, op, n) ==>
                  exists b, d ::
                    FirstType(baseline.fieldTypes, n, b) && FirstType(after.fieldTypes, n, d) && StrippedAs(op, b, d))
            && (!PostsType(baseline, op, n) ==> FindFieldType(after.fieldTypes, n) == FindFieldType(live.fieldTypes, n))
  {
    var commands, after := Commands(baseline, op).value, ApplyOp(baseline, live, op).live;
    PostedLast(live, commands, n);
    match op
    case FieldTypeReplace(src, dst) => ReplacementsLeaveTypes(baseline.fields, src, dst, n);
    case RemoveFilter(name, side, cls) => RemovalOnType(baseline, live, op, n);
    case _ =>
  }

  lemma RemovalOnType(baseline: Schema, live: Schema, op: Op, n: Text)
    requires op.RemoveFilter? && ApplyOp(baseline, live, op).error.None?
    ensures var after := ApplyOp(baseline, live, op).live;
            && (PostsType(baseline, op, n) ==>
                  exists b, d ::
                    FirstType(baseline.fieldTypes, n, b) && FirstType(after.fieldTypes, n, d) && StrippedAs(op, b, d))
            && (!PostsType(baseline, op, n) ==> FindFieldType(after.fieldTypes, n) == FindFieldType(live.fieldTypes, n))
  {
    var commands, after := Commands(baseline, op).value, ApplyOp(baseline, live, op).live;
    PostedLast(live, commands, n);
    FoundName(baseline, op.fieldType);
    var found := FindFieldType(baseline.fieldTypes, op.fieldType);
    forall b ensures found == Some(b) <==> FirstType(baseline.fieldTypes, op.fieldType, b) {
      FindTypeExactly(baseline.fieldTypes, op.fieldType, b);
    }
    if found.Some? {
      StripExactly(baseline, op, found.value);
      var payload := PrepareRemoveFilter(baseline, op.fieldType, op.side, op.filterClass);
      if payload.Ok? {
        assert commands == [ReplaceFieldType(payload.value)] && commands[1..] == [];
        FindTypeExactly(after.fieldTypes, payload.value.name, payload.value);
      }
    }
  }

  // ----- a run -----

  lemma {:induction false} OneMoreOp(baseline: Schema, live: Schema, ops: seq<Op>, op: Op)
    ensures var before := ApplyOps(baseline, live, ops);
            ApplyOps(baseline, live, ops + [op]) ==
            if before.error.Some? then before else ApplyOp(baseline, before.live, op)
    decreases |ops|
  {
    var all := ops + [op];
    if ops == [] {
      assert all[0] == op && all[1..] == [];
    } else {
      assert all[0] == ops[0] && all[1..] == ops[1..] + [op];
      if ApplyOp(baseline, live, ops[0]).error.None? {
        OneMoreOp(baseline, ApplyOp(baseline, live, ops[0]).live, ops[1..], op);
      }
    }
  }

  lemma {:induction false} RunOnField(baseline: Schema, live: Schema, ops: seq<Op>, f: Text)
    requires UniqueNames(baseline.fields) && ApplyOps(baseline, live, ops).error.None?
    ensures FieldExplained(baseline, ops, live.fields, ApplyOps(baseline, live, ops).live.fields, f)
  {
    if ops != [] {
      var init, op := ops[..|ops| - 1], ops[|ops| - 1];
      assert ops == init + [op];
      OneMoreOp(baseline, live, init, op);
      RunOnField(baseline, live, init, f);
      var mid, after := ApplyOps(baseline, live, init).live, ApplyOps(baseline, live, ops).live;
      OpOnField(baseline, mid, op, f);
      FieldAfterOneMore(baseline, init, op, live.fields, mid.fields, after.fields, f);
    }
  }

  lemma FieldAfterOneMore(baseline: Schema, ops: seq<Op>, op: Op, before: seq<Field>, mid: seq<Field>,
      after: seq<Field>, f: Text)
    requires FieldExplained(baseline, ops, before, mid, f)
    requires PostsField(baseline, op, f) ==>
               exists b, d :: FirstField(baseline.fields, f, b) && FirstField(after, f, d) && PostedAs(op, b, d)
    requires !PostsField(baseline, op, f) ==> SameField(mid, after, f)
    ensures FieldExplained(baseline, ops + [op], before, after, f)
  {
    var all := ops + [op];
    if PostsField(baseline, op, f) {
      assert PostsField(baseline, all[|ops|], f);
    } else {
      forall d ensures FirstField(after, f, d) <==> FirstField(mid, f, d) {
        FindFieldExactly(after, f, d);
        FindFieldExactly(mid, f, d);
      }
      forall k: nat | LastPosts(baseline, all, f, k)
        ensures exists b, d :: FirstField(baseline.fields, f, b) && FirstField(after, f, d) && PostedAs(all[k], b, d)
      {
        assert k < |ops|;
        forall m | k < m < |ops| ensures !PostsField(baseline, ops[m], f) { assert all[m] == ops[m]; }
        assert LastPosts(baseline, ops, f, k);
        var b, d :| FirstField(baseline.fields, f, b) && FirstField(mid, f, d) && PostedAs(ops[k], b, d);
        assert FirstField(after, f, d) && PostedAs(all[k], b, d);
      }
      if forall k :: 0 <= k < |all| ==> !PostsField(baseline, all[k], f) {
        forall k | 0 <= k < |ops| ensures !PostsField(baseline, ops[k], f) { assert all[k] == ops[k]; }
      }
    }
  }

  lemma {:induction false} RunOnType(baseline: Schema, live: Schema, ops: seq<Op>, n: Text)
    requires ApplyOps(baseline, live, ops).error.None?
    ensures TypeExplained(baseline, ops, live.fieldTypes, ApplyOps(baseline, live, ops).live.fieldTypes, n)
  {
    if ops != [] {
      var init, op := ops[..|ops| - 1], ops[|ops| - 1];
      assert ops == init + [op];
      OneMoreOp(baseline, live, init, op);
      RunOnType(baseline, live, init, n);
      var mid, after := ApplyOps(baseline, live, init).live, ApplyOps(baseline, live, ops).live;
      OpOnType(baseline, mid, op, n);
      TypeAfterOneMore(baseline, init, op, live.fieldTypes, mid.fieldTypes, after.fieldTypes, n);
    }
  }

  lemma TypeAfterOneMore(baseline: Schema, ops: seq<Op>, op: Op, before: seq<FieldType>, mid: seq<FieldType>,
      after: seq<FieldType>, n: Text)
    requires TypeExplained(baseline, ops, before, mid, n)
    requires PostsType(baseline, op, n) ==>
               exists b, d :: FirstType(baseline.fieldTypes, n, b) && FirstType(after, n, d) && StrippedAs(op, b, d)
    requires !PostsType(baseline, op, n) ==> FindFieldType(after, n) == FindFieldType(mid, n)
    ensures TypeExplained(baseline, ops + [op], before, after, n)
  {
    var all := ops + [op];
    if PostsType(baseline, op, n) {
      assert PostsType(baseline, all[|ops|], n);
    } else {
      forall d ensures FirstType(after, n, d) <==> FirstType(mid, n, d) {
        FindTypeExactly(after, n, d);
        FindTypeExactly(mid, n, d);
      }
      forall k: nat | LastStrips(baseline, all, n, k)
        ensures exists b, d ::
                  FirstType(baseline.fieldTypes, n, b) && FirstType(after, n, d) && StrippedAs(all[k], b, d)
      {
        assert k < |ops|;
        forall m | k < m < |ops| ensures !PostsType(baseline, ops[m], n) { assert all[m] == ops[m]; }
        assert LastStrips(baseline, ops, n, k);
        var b, d :| FirstType(baseline.fieldTypes, n, b) && FirstType(mid, n, d) && StrippedAs(ops[k], b, d);
        assert FirstType(after, n, d) && StrippedAs(all[k], b, d);
      }
      if forall k :: 0 <= k < |all| ==> !PostsType(baseline, all[k], n) {
        forall k | 0 <= k < |ops| ensures !PostsType(baseline, ops[k], n) { assert all[k] == ops[k]; }
      }
    }
  }

  // ----- when a run works -----

  ghost predicate FieldDefined(fields: seq<Field>, f: Text) {
    exists d :: FirstField(fields, f, d)
  }

  ghost predicate TypeDefined(types: seq<FieldType>, n: Text) {
    exists d :: FirstType(types, n, d)
  }

  /** A removal that has nothing to strip: the analyzer is there, or what is missing happens to be named so that
      the message reads like that. */
  ghost predicate NothingToStrip(baseline: Schema, op: Op)
    requires op.RemoveFilter?
  {
    || (exists ft :: FirstType(baseline.fieldTypes, op.fieldType, ft) && BlockFor(ft, op.side).Some?)
    || (exists i: nat :: OccursAt(op.fieldType.chars, "No filter with class", i))
    || (TypeDefined(baseline.fieldTypes, op.fieldType) && op.side.OtherSide?
        && exists i: nat :: OccursAt(op.side.name.chars, "No filter with class", i))
  }

  /** Everything the operation looks up is defined in the baseline, and everything it posts in the live schema. */
  ghost predicate OpWorks(baseline: Schema, live: Schema, op: Op) {
    && (op.FieldUpdate? ==> FieldDefined(baseline.fields, op.field) && FieldDefined(live.fields, op.field))
    && (op.FieldTypeReplace? ==>
          forall i :: 0 <= i < |baseline.fields| && baseline.fields[i].fieldType == Some(op.name) ==>
            FieldDefined(live.fields, baseline.fields[i].name))
    && (op.RemoveFilter? ==>
          if PostsType(baseline, op, op.fieldType) then TypeDefined(live.fieldTypes, op.fieldType)
          else NothingToStrip(baseline, op))
  }

  lemma FieldDefinedExactly(fields: seq<Field>, f: Text)
    ensures FieldDefined(fields, f) <==> FindField(fields, f).Some?
  {
    if FindField(fields, f).Some? {
      FindFieldExactly(fields, f, FindField(fields, f).value);
    }
    if d :| FirstField(fields, f, d) {
      FindFieldExactly(fields, f, d);
    }
  }

  lemma TypeDefinedExactly(types: seq<FieldType>, n: Text)
    ensures TypeDefined(types, n) <==> FindFieldType(types, n).Some?
  {
    if FindFieldType(types, n).Some? {
      FindTypeExactly(types, n, FindFieldType(types, n).value);
    }
    if d :| FirstType(types, n, d) {
      FindTypeExactly(types, n, d);
    }
  }

  /** The same names are defined. */
  ghost predicate SameNames(a: Schema, b: Schema) {
    forall n :: (FindField(a.fields, n).Some? <==> FindField(b.fields, n).Some?)
                && (FindFieldType(a.fieldTypes, n).Some? <==> FindFieldType(b.fieldTypes, n).Some?)
  }

  lemma {:induction false} PostingKeepsNames(live: Schema, commands: seq<Command>)
    ensures SameNames(live, PostAll(live, commands).live)
    decreases |commands|
  {
    if commands != [] && Post(live, commands[0]).Ok? {
      var next := Post(live, commands[0]).value;
      PostingKeepsNames(next, commands[1..]);
      forall n ensures (FindField(live.fields, n).Some? <==> FindField(next.fields, n).Some?)
                       && (FindFieldType(live.fieldTypes, n).Some? <==> FindFieldType(next.fieldTypes, n).Some?) {
        match commands[0] {
          case ReplaceField(def) => FindAfterReplaceField(live.fields, def, n);
          case ReplaceFieldType(def) => FindAfterReplaceType(live.fieldTypes, def, n);
        }
      }
    }
  }

  lemma {:induction false} RunKeepsNames(baseline: Schema, live: Schema, ops: seq<Op>)
    ensures SameNames(live, ApplyOps(baseline, live, ops).live)
    decreases |ops|
  {
    if ops != [] {
      var first := ApplyOp(baseline, live, ops[0]);
      if Commands(baseline, ops[0]).Ok? {
        PostingKeepsNames(live, Commands(baseline, ops[0]).value);
      }
      if first.error.None? {
        RunKeepsNames(baseline, first.live, ops[1..]);
      }
    }
  }

  ghost predicate Defined(live: Schema, c: Command) {
    match c
    case ReplaceField(def) => FindField(live.fields, def.name).Some?
    case ReplaceFieldType(def) => FindFieldType(live.fieldTypes, def.name).Some?
  }

  lemma {:induction false} PostingWorksExactly(live: Schema, commands: seq<Command>)
    ensures PostAll(live, commands).error.None? <==> forall c :: c in commands ==> Defined(live, c)
    decreases |commands|
  {
    if commands != [] {
      assert commands[0] in commands && commands == [commands[0]] + commands[1..];
      if Post(live, commands[0]).Ok? {
        var next := Post(live, commands[0]).value;
        PostingWorksExactly(next, commands[1..]);
        PostingKeepsNames(live, [commands[0]]);
        PostOne(live, commands[0]);
        assert SameNames(live, next);
        forall c ensures Defined(live, c) <==> Defined(next, c) {}
      }
    }
  }

  lemma {:induction false} ReplacementsAre(fields: seq<Field>, src: Text, dst: Text, c: Command)
    ensures c in PrepareReplacements(fields, src, dst) <==>
            exists i :: 0 <= i < |fields| && fields[i].fieldType == Some(src)
                        && c == ReplaceField(fields[i].(fieldType := Some(dst)))
  {
    if fields != [] {
      var rest := fields[1..];
      ReplacementsAre(rest, src, dst, c);
      if i :| 0 <= i < |rest| && rest[i].fieldType == Some(src) && c == ReplaceField(rest[i].(fieldType := Some(dst))) {
        assert fields[i + 1] == rest[i];
      }
      if i :| 0 <= i < |fields| && fields[i].fieldType == Some(src)
              && c == ReplaceField(fields[i].(fieldType := Some(dst))) {
        assert i > 0 ==> rest[i - 1] == fields[i];
      }
    }
  }

  lemma ReplaceWorksExactly(baseline: Schema, live: Schema, op: Op)
    requires op.FieldTypeReplace?
    ensures ApplyOp(baseline, live, op).error.None? <==> OpWorks(baseline, live, op)
  {
    var fields, commands := baseline.fields, PrepareReplacements(baseline.fields, op.name, op.replacement);
    PostingWorksExactly(live, commands);
    forall c ensures c in commands <==>
                     exists i :: 0 <= i < |fields| && fields[i].fieldType == Some(op.name)
                                 && c == ReplaceField(fields[i].(fieldType := Some(op.replacement))) {
      ReplacementsAre(fields, op.name, op.replacement, c);
    }
    forall i | 0 <= i < |fields| && fields[i].fieldType == Some(op.name)
      ensures FieldDefined(live.fields, fields[i].name) <==>
              Defined(live, ReplaceField(fields[i].(fieldType := Some(op.replacement))))
      ensures ReplaceField(fields[i].(fieldType := Some(op.replacement))) in commands
    {
      FieldDefinedExactly(live.fields, fields[i].name);
    }
  }

  lemma RemovalWorksExactly(baseline: Schema, live: Schema, op: Op)
    requires op.RemoveFilter?
    ensures ApplyOp(baseline, live, op).error.None? <==> OpWorks(baseline, live, op)
  {
    var n := op.fieldType;
    var payload := PrepareRemoveFilter(baseline, n, op.side, op.filterClass);
    FoundName(baseline, n);
    ContainsExactly(n.chars, NO_FILTER);
    if op.side.OtherSide? { ContainsExactly(op.side.name.chars, NO_FILTER); }
    TypeDefinedExactly(live.fieldTypes, n);
    TypeDefinedExactly(baseline.fieldTypes, n);
    var found := FindFieldType(baseline.fieldTypes, n);
    forall b ensures found == Some(b) <==> FirstType(baseline.fieldTypes, n, b) {
      FindTypeExactly(baseline.fieldTypes, n, b);
    }
    if found.Some? {
      StripExactly(baseline, op, found.value);
      if payload.Ok? {
        PostingWorksExactly(live, [ReplaceFieldType(payload.value)]);
        assert ReplaceFieldType(payload.value) in [ReplaceFieldType(payload.value)];
      }
    }
  }

  lemma OpWorksExactly(baseline: Schema, live: Schema, op: Op)
    ensures ApplyOp(baseline, live, op).error.None? <==> OpWorks(baseline, live, op)
  {
    match op
    case FieldUpdate(f, p) =>
      FieldDefinedExactly(baseline.fields, f);
      FieldDefinedExactly(live.fields, f);
      var payload := PrepareFieldUpdate(baseline, f, p);
      if payload.Ok? {
        PostingWorksExactly(live, [ReplaceField(payload.value)]);
        assert ReplaceField(payload.value) in [ReplaceField(payload.value)];
      }
    case FieldTypeReplace(_, _) => ReplaceWorksExactly(baseline, live, op);
    case RemoveFilter(_, _, _) => RemovalWorksExactly(baseline, live, op);
    case OtherOp =>
  }

  lemma SameNamesWorkAlike(baseline: Schema, a: Schema, b: Schema, op: Op)
    requires SameNames(a, b)
    ensures OpWorks(baseline, a, op) <==> OpWorks(baseline, b, op)
  {
    forall n ensures FieldDefined(a.fields, n) <==> FieldDefined(b.fields, n)
             ensures TypeDefined(a.fieldTypes, n) <==> TypeDefined(b.fieldTypes, n) {
      FieldDefinedExactly(a.fields, n);
      FieldDefinedExactly(b.fields, n);
      TypeDefinedExactly(a.fieldTypes, n);
      TypeDefinedExactly(b.fieldTypes, n);
    }
  }

  /** A run raises nothing exactly when every operation finds what it needs. */
  lemma {:induction false} RunWorksExactly(baseline: Schema, live: Schema, ops: seq<Op>)
    ensures ApplyOps(baseline, live, ops).error.None? <==>
            forall k :: 0 <= k < |ops| ==> OpWorks(baseline, live, ops[k])
  {
    if ops != [] {
      var init, op := ops[..|ops| - 1], ops[|ops| - 1];
      assert ops == init + [op];
      OneMoreOp(baseline, live, init, op);
      RunWorksExactly(baseline, live, init);
      var mid := ApplyOps(baseline, live, init);
      RunKeepsNames(baseline, live, init);
      OpWorksExactly(baseline, mid.live, op);
      SameNamesWorkAlike(baseline, live, mid.live, op);
      assert forall k :: 0 <= k < |init| ==> init[k] == ops[k];
    }
  }

  // ----- what a run reports -----

  function OfType(t: Text): Field -> bool {
    (f: Field) => f.fieldType == Some(t)
  }

  /** What the run says about one operation that went through. */
  ghost predicate ReportsOp(baseline: Schema, op: Op, a: Applied) {
    match op
    case FieldUpdate(f, _) => a == Updated(f)
    case FieldTypeReplace(src, _) =>
      a.Replaced? && exists fields :: IsKept(baseline.fields, fields, OfType(src)) && a.fields == |fields|
    case RemoveFilter(n, _, _) => a.Removed? && (a.skipped <==> !PostsType(baseline, op, n))
    case OtherOp => false
  }

  /** One entry per operation that is a schema operation, in order. */
  ghost predicate AppliedAt(baseline: Schema, ops: seq<Op>, applied: seq<Applied>, at: seq<nat>) {
    && Positions(at, |ops|) && |at| == |applied|
    && (forall k: nat :: k < |ops| ==> (k in at <==> !ops[k].OtherOp?))
    && forall j :: 0 <= j < |applied| ==> ReportsOp(baseline, ops[at[j]], applied[j])
  }

  ghost predicate AppliedExplained(baseline: Schema, ops: seq<Op>, applied: seq<Applied>) {
    exists at :: AppliedAt(baseline, ops, applied, at)
  }

  lemma {:induction false} ReplacementCount(fields: seq<Field>, src: Text, dst: Text)
    ensures exists kept :: IsKept(fields, kept, OfType(src)) && |kept| == |PrepareReplacements(fields, src, dst)|
  {
    if fields == [] {
      KeptNone(OfType(src));
    } else {
      var x, rest := fields[0], fields[1..];
      ReplacementCount(rest, src, dst);
      var kept :| IsKept(rest, kept, OfType(src)) && |kept| == |PrepareReplacements(rest, src, dst)|;
      KeptNext(x, rest, kept, OfType(src));
      assert fields == [x] + rest;
      if x.fieldType == Some(src) {
        assert IsKept(fields, [x] + kept, OfType(src));
      }
    }
  }

  lemma OpReportedAs(baseline: Schema, live: Schema, op: Op)
    requires ApplyOp(baseline, live, op).error.None?
    ensures if op.OtherOp? then Report(baseline, op) == []
            else |Report(baseline, op)| == 1 && ReportsOp(baseline, op, Report(baseline, op)[0])
  {
    match op
    case FieldTypeReplace(src, dst) => ReplacementCount(baseline.fields, src, dst);
    case RemoveFilter(n, side, cls) =>
      FoundName(baseline, n);
      var found := FindFieldType(baseline.fieldTypes, n);
      forall b ensures found == Some(b) <==> FirstType(baseline.fieldTypes, n, b) {
        FindTypeExactly(baseline.fieldTypes, n, b);
      }
      if found.Some? { StripExactly(baseline, op, found.value); }
    case _ =>
  }

  lemma {:induction false} RunReportedAs(baseline: Schema, live: Schema, ops: seq<Op>)
    requires ApplyOps(baseline, live, ops).error.None?
    ensures AppliedExplained(baseline, ops, Reports(baseline, ops))
  {
    if ops == [] {
      assert AppliedAt(baseline, ops, Reports(baseline, ops), []);
    } else {
      var init, op := ops[..|ops| - 1], ops[|ops| - 1];
      assert ops == init + [op];
      OneMoreOp(baseline, live, init, op);
      RunReportedAs(baseline, live, init);
      OpReportedAs(baseline, ApplyOps(baseline, live, init).live, op);
      var at :| AppliedAt(baseline, init, Reports(baseline, init), at);
      AppliedOneMore(baseline, init, Reports(baseline, init), at, op, Report(baseline, op));
    }
  }

  lemma AppliedOneMore(baseline: Schema, ops: seq<Op>, applied: seq<Applied>, at: seq<nat>, op: Op, more: seq<Applied>)
    requires AppliedAt(baseline, ops, applied, at)
    requires if op.OtherOp? then more == [] else |more| == 1 && ReportsOp(baseline, op, more[0])
    ensures AppliedExplained(baseline, ops + [op], applied + more)
  {
    var all := ops + [op];
    if op.OtherOp? {
      assert applied + more == applied;
      forall k: nat | k < |all| ensures k in at <==> !all[k].OtherOp? {
        if k < |ops| { assert all[k] == ops[k]; }
      }
      assert AppliedAt(baseline, all, applied + more, at);
    } else {
      AppliedNext(baseline, ops, applied, at, op, more[0]);
      assert more == [more[0]];
    }
  }

  lemma AppliedNext(baseline: Schema, ops: seq<Op>, applied: seq<Applied>, at: seq<nat>, op: Op, a: Applied)
    requires AppliedAt(baseline, ops, applied, at) && !op.OtherOp? && ReportsOp(baseline, op, a)
    ensures AppliedExplained(baseline, ops + [op], applied + [a])
  {
    var all, at' := ops + [op], at + [|ops|];
    forall k: nat | k < |all| ensures k in at' <==> !all[k].OtherOp? {
      if k < |ops| { assert all[k] == ops[k] && (k in at' <==> k in at); }
    }
    forall j | 0 <= j < |applied| + 1 ensures ReportsOp(baseline, all[at'[j]], (applied + [a])[j]) {
      if j < |applied| { assert all[at[j]] == ops[at[j]]; }
    }
    assert AppliedAt(baseline, all, applied + [a], at');
  }

  lemma {:induction false} PostingKeepsRest(live: Schema, commands: seq<Command>)
    ensures var after := PostAll(live, commands).live;
            after.dynamicFields == live.dynamicFields && after.copyFields == live.copyFields
    decreases |commands|
  {
    if commands != [] && Post(live, commands[0]).Ok? {
      PostingKeepsRest(Post(live, commands[0]).value, commands[1..]);
    }
  }

  lemma {:induction false} RunKeepsRest(baseline: Schema, live: Schema, ops: seq<Op>)
    ensures var after := ApplyOps(baseline, live, ops).live;
            after.dynamicFields == live.dynamicFields && after.copyFields == live.copyFields
    decreases |ops|
  {
    if ops != [] {
      if Commands(baseline, ops[0]).Ok? {
        PostingKeepsRest(live, Commands(baseline, ops[0]).value);
      }
      var first := ApplyOp(baseline, live, ops[0]);
      if first.error.None? {
        RunKeepsRest(baseline, first.live, ops[1..]);
      }
    }
  }

  // ----- what a run that raises leaves -----

  /** Operation k is the first that does not work. */
  ghost predicate StopsAt(baseline: Schema, live: Schema, ops: seq<Op>, k: nat) {
    k < |ops| && !OpWorks(baseline, live, ops[k]) && forall j :: 0 <= j < k ==> OpWorks(baseline, live, ops[j])
  }

  /** The operations before it have been carried out and those behind it have not; of its own posts only a
      replacement may have made some. */
  ghost predicate StoppedAt(baseline: Schema, ops: seq<Op>, before: Schema, after: Schema, k: nat)
    requires k < |ops|
  {
    && (UniqueNames(baseline.fields) ==>
          forall f :: !(ops[k].FieldTypeReplace? && PostsField(baseline, ops[k], f)) ==>
            FieldExplained(baseline, ops[..k], before.fields, after.fields, f))
    && forall n :: TypeExplained(baseline, ops[..k], before.fieldTypes, after.fieldTypes, n)
  }

  ghost predicate StopExplained(baseline: Schema, ops: seq<Op>, before: Schema, after: Schema) {
    exists k :: StopsAt(baseline, before, ops, k) && StoppedAt(baseline, ops, before, after, k)
  }

  lemma {:induction false} PostingLeaves(live: Schema, commands: seq<Command>, n: Text)
    ensures var after := PostAll(live, commands).live;
            && (LastFieldIn(commands, n).None? ==> FindField(after.fields, n) == FindField(live.fields, n))
            && (LastTypeIn(commands, n).None? ==>
                  FindFieldType(after.fieldTypes, n) == FindFieldType(live.fieldTypes, n))
    decreases |commands|
  {
    if commands != [] && Post(live, commands[0]).Ok? {
      PostingLeaves(Post(live, commands[0]).value, commands[1..], n);
      match commands[0] {
        case ReplaceField(def) => FindAfterReplaceField(live.fields, def, n);
        case ReplaceFieldType(def) => FindAfterReplaceType(live.fieldTypes, def, n);
      }
    }
  }

  lemma SinglePost(live: Schema, c: Command)
    ensures PostAll(live, [c]).error.Some? ==> PostAll(live, [c]).live == live
  {
    if Post(live, c).Ok? {
      assert [c][1..] == [] && PostAll(Post(live, c).value, []).error.None?;
    }
  }

  lemma FailureLeaves(baseline: Schema, live: Schema, op: Op, n: Text)
    requires ApplyOp(baseline, live, op).error.Some?
    ensures var after := ApplyOp(baseline, live, op).live;
            && FindFieldType(after.fieldTypes, n) == FindFieldType(live.fieldTypes, n)
            && (UniqueNames(baseline.fields) && !(op.FieldTypeReplace? && PostsField(baseline, op, n)) ==>
                  SameField(live.fields, after.fields, n))
  {
    if op.FieldTypeReplace? {
      var commands := Commands(baseline, op).value;
      PostingLeaves(live, commands, n);
      ReplacementsLeaveTypes(baseline.fields, op.name, op.replacement, n);
      if UniqueNames(baseline.fields) {
        ReplacedOnce(baseline.fields, op.name, op.replacement, n);
        var found := FindField(baseline.fields, n);
        if found.Some? { FindFieldExactly(baseline.fields, n, found.value); }
      }
    } else if Commands(baseline, op).Ok? {
      var commands := Commands(baseline, op).value;
      assert |commands| <= 1;
      if commands != [] {
        SinglePost(live, commands[0]);
        assert commands == [commands[0]];
      }
    }
  }

  lemma {:induction false} FirstFailure(baseline: Schema, live: Schema, ops: seq<Op>) returns (k: nat)
    requires ApplyOps(baseline, live, ops).error.Some?
    ensures k < |ops| && ApplyOps(baseline, live, ops[..k]).error.None?
    ensures ApplyOps(baseline, live, ops[..k + 1]) == ApplyOps(baseline, live, ops)
            == ApplyOp(baseline, ApplyOps(baseline, live, ops[..k]).live, ops[k])
  {
    var init, op := ops[..|ops| - 1], ops[|ops| - 1];
    assert ops == init + [op];
    OneMoreOp(baseline, live, init, op);
    if ApplyOps(baseline, live, init).error.None? {
      k := |ops| - 1;
      assert ops[..k + 1] == ops;
    } else {
      k := FirstFailure(baseline, live, init);
      assert init[..k] == ops[..k] && init[..k + 1] == ops[..k + 1];
    }
  }

  lemma StopPosition(baseline: Schema, live: Schema, ops: seq<Op>, k: nat)
    requires k < |ops| && ApplyOps(baseline, live, ops[..k]).error.None?
    requires ApplyOps(baseline, live, ops[..k + 1]).error.Some?
    ensures StopsAt(baseline, live, ops, k)
  {
    RunWorksExactly(baseline, live, ops[..k]);
    RunWorksExactly(baseline, live, ops[..k + 1]);
    forall j | 0 <= j < k ensures OpWorks(baseline, live, ops[j]) {
      assert ops[..k][j] == ops[j];
    }
    var upTo := ops[..k + 1];
    if OpWorks(baseline, live, ops[k]) {
      forall j | 0 <= j < |upTo| ensures OpWorks(baseline, live, upTo[j]) {
        assert upTo[j] == ops[j];
      }
    }
  }

  lemma FieldStays(baseline: Schema, ops: seq<Op>, before: seq<Field>, mid: seq<Field>, after: seq<Field>, f: Text)
    requires FieldExplained(baseline, ops, before, mid, f) && SameField(mid, after, f)
    ensures FieldExplained(baseline, ops, before, after, f)
  {
    forall d ensures FirstField(after, f, d) <==> FirstField(mid, f, d) {
      FindFieldExactly(mid, f, d);
      FindFieldExactly(after, f, d);
    }
  }

  lemma TypeStays(baseline: Schema, ops: seq<Op>, before: seq<FieldType>, mid: seq<FieldType>, after: seq<FieldType>,
      n: Text)
    requires TypeExplained(baseline, ops, before, mid, n) && FindFieldType(mid, n) == FindFieldType(after, n)
    ensures TypeExplained(baseline, ops, before, after, n)
  {
    forall d ensures FirstType(after, n, d) <==> FirstType(mid, n, d) {
      FindTypeExactly(mid, n, d);
      FindTypeExactly(after, n, d);
    }
  }

  /** A run that raises has carried out exactly the operations before the first that does not work. */
  lemma RunStopsExactly(baseline: Schema, live: Schema, ops: seq<Op>)
    requires ApplyOps(baseline, live, ops).error.Some?
    ensures StopExplained(baseline, ops, live, ApplyOps(baseline, live, ops).live)
  {
    var k := FirstFailure(baseline, live, ops);
    var mid, end := ApplyOps(baseline, live, ops[..k]).live, ApplyOps(baseline, live, ops).live;
    StopPosition(baseline, live, ops, k);
    if UniqueNames(baseline.fields) {
      forall f | !(ops[k].FieldTypeReplace? && PostsField(baseline, ops[k], f))
        ensures FieldExplained(baseline, ops[..k], live.fields, end.fields, f)
      {
        RunOnField(baseline, live, ops[..k], f);
        FailureLeaves(baseline, mid, ops[k], f);
        FieldStays(baseline, ops[..k], live.fields, mid.fields, end.fields, f);
      }
    }
    forall n ensures TypeExplained(baseline, ops[..k], live.fieldTypes, end.fieldTypes, n) {
      RunOnType(baseline, live, ops[..k], n);
      FailureLeaves(baseline, mid, ops[k], n);
      TypeStays(baseline, ops[..k], live.fieldTypes, mid.fieldTypes, end.fieldTypes, n);
    }
    assert StoppedAt(baseline, ops, live, end, k);
  }

  lemma RunLaws(baseline: Schema, live: Schema, ops: seq<Op>)
    ensures var end := ApplyOps(baseline, live, ops);
            && (end.error.None? <==> forall k :: 0 <= k < |ops| ==> OpWorks(baseline, live, ops[k]))
            && (end.error.None? ==> AppliedExplained(baseline, ops, Reports(baseline, ops)))
            && (end.error.None? && UniqueNames(baseline.fields) ==>
                  forall f :: FieldExplained(baseline, ops, live.fields, end.live.fields, f))
            && (end.error.None? ==> forall n :: TypeExplained(baseline, ops, live.fieldTypes, end.live.fieldTypes, n))
            && end.live.dynamicFields == live.dynamicFields && end.live.copyFields == live.copyFields
  {
    var end := ApplyOps(baseline, live, ops);
    RunWorksExactly(baseline, live, ops);
    RunKeepsRest(baseline, live, ops);
    if end.error.None? {
      RunReportedAs(baseline, live, ops);
      if UniqueNames(baseline.fields) {
        forall f ensures FieldExplained(baseline, ops, live.fields, end.live.fields, f) {
          RunOnField(baseline, live, ops, f);
        }
      }
      forall n ensures TypeExplained(baseline, ops, live.fieldTypes, end.live.fieldTypes, n) {
        RunOnType(baseline, live, ops, n);
      }
    }
  }

  // ----- apply_schema_operations -----

  datatype Applied = Updated(field: Text) | Replaced(fields: nat) | Removed(skipped: bool)

  /** What the run reports for an operation that went through. */
  function Report(baseline: Schema, op: Op): seq<Applied> {
    match op
    case FieldUpdate(field, _) => [Updated(field)]
    case FieldTypeReplace(src, dst) => [Replaced(|PrepareReplacements(baseline.fields, src, dst)|)]
    case RemoveFilter(name, side, cls) =>
      var payload := PrepareRemoveFilter(baseline, name, side, cls);
      [Removed(payload.Err? && Skips(payload.error, name, side))]
    case OtherOp => []
  }

  function Reports(baseline: Schema, ops: seq<Op>): seq<Applied> {
    if ops == [] then [] else Reports(baseline, ops[..|ops| - 1]) + Report(baseline, ops[|ops| - 1])
  }

  class Shadow {
    var live: Schema

    method PostCommand(c: Command) returns (error: Option<SchemaError>)
      modifies this
      ensures Outcome(live, error) == PostAll(old(live), [c])
    {
      match Post(live, c) {
        case Ok(next) => live := next; error := None;
        case Err(e) => error := Some(e);
      }
    }

    method PostEach(commands: seq<Command>) returns (error: Option<SchemaError>)
      modifies this
      ensures Outcome(live, error) == PostAll(old(live), commands)
    {
      error := None;
      for i := 0 to |commands|
        invariant error.None? && PostAll(live, commands[i..]) == PostAll(old(live), commands)
      {
        match Post(live, commands[i]) {
          case Ok(next) => live := next;
          case Err(e) => return Some(e);
        }
      }
    }

    method ApplySchemaOperations(baseline: Schema, ops: seq<Op>)
      returns (applied: seq<Applied>, error: Option<SchemaError>)
      modifies this
      ensures Outcome(live, error) == ApplyOps(baseline, old(live), ops)
      ensures error.None? ==> applied == Reports(baseline, ops)
      ensures error.None? <==> forall k :: 0 <= k < |ops| ==> OpWorks(baseline, old(live), ops[k])
      ensures error.None? ==> AppliedExplained(baseline, ops, applied)
      ensures error.None? && UniqueNames(baseline.fields) ==>
                forall f :: FieldExplained(baseline, ops, old(live).fields, live.fields, f)
      ensures error.None? ==> forall n :: TypeExplained(baseline, ops, old(live).fieldTypes, live.fieldTypes, n)
      ensures live.dynamicFields == old(live).dynamicFields && live.copyFields == old(live).copyFields
      ensures error.Some? ==> StopExplained(baseline, ops, old(live), live)
    {
      RunLaws(baseline, live, ops);
      if ApplyOps(baseline, live, ops).error.Some? { RunStopsExactly(baseline, live, ops); }
      applied, error := PerformOperations(baseline, ops);
    }

    method PerformOperations(baseline: Schema, ops: seq<Op>) returns (applied: seq<Applied>, error: Option<SchemaError>)
      modifies this
      ensures Outcome(live, error) == ApplyOps(baseline, old(live), ops)
      ensures error.None? ==> applied == Reports(baseline, ops)
    {
      applied, error := [], None;
      for i := 0 to |ops|
        invariant error.None? && ApplyOps(baseline, live, ops[i..]) == ApplyOps(baseline, old(live), ops)
        invariant applied == Reports(baseline, ops[..i])
      {
        TakeOneMore(ops, i);
        match ops[i] {
          case FieldUpdate(field, p) =>
            var payload := PrepareFieldUpdate(baseline, field, p);
            if payload.Err? { return applied, Some(payload.error); }
            error := PostCommand(ReplaceField(payload.value));
            if error.Some? { return; }
            applied := applied + [Updated(payload.value.name)];
          case FieldTypeReplace(src, dst) =>
            var updates := PrepareReplacements(baseline.fields, src, dst);
            error := PostEach(updates);
            if error.Some? { return; }
            applied := applied + [Replaced(|updates|)];
          case RemoveFilter(name, side, cls) =>
            var payload := PrepareRemoveFilter(baseline, name, side, cls);
            if payload.Err? && Skips(payload.error, name, side) {
              applied := applied + [Removed(true)];
            } else if payload.Err? {
              return applied, Some(payload.error);
            } else {
              error := PostCommand(ReplaceFieldType(payload.value));
              if error.Some? { return; }
              applied := applied + [Removed(false)];
            }
          case OtherOp =>
        }
      }
      TakeAll(ops);
    }
  }

  // ----- removing a filter twice -----

  /** Once removed, a filter is reported as missing and nothing more is posted. */
  lemma RemoveTwice(block: Analyzer, cls: Text)
    ensures RemoveMatching(RemoveMatching(block, cls).0, cls) == (RemoveMatching(block, cls).0, 0)
    ensures RemoveMatching(block, cls).1 == 0 ==> RemoveMatching(block, cls).0 == block
  {
    var filters :=
      if block.filters.Some? then block.filters.value
      else if block.filter.Many? then block.filter.filters
      else [];
    KeptHasNoMatch(filters, cls);
    KeptHasNoMatch(Kept(filters, cls), cls);
  }
}
