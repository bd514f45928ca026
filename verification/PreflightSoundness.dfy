/** What preflight predicts, compared with what applying the changeset does. */
module PreflightSoundness {
  import opened Prelude
  import opened Sorting
  import opened Schema
  import opened ApplySchema
  import opened Preflight

  // ----- reading the findings -----

  /** Some finding of this operation names f among its impacted fields. */
  ghost predicate Impacts(findings: seq<Finding>, opIndex: nat, f: Text) {
    exists x :: x in findings && x.code.FieldTypeImpact? && x.opIndex == opIndex && f in x.impactedFields
  }

  /** A field is impacted by an operation exactly when its type is one the operation touches. */
  lemma ImpactedExactly(s: Schema, opIndex: nat, op: Op, f: Text)
    ensures var g := GraphOf(s);
            Impacts(OpFindings(g, opIndex, op), opIndex, f) <==> f in g.fields && g.fields[f] in TouchedTypes(g, op)
  {
    var g := GraphOf(s);
    var touched := TouchedTypes(g, op);
    var findings := TypeFindings(g, opIndex, SortedTexts(touched));
    SortedTextsLists(touched);
    if Impacts(OpFindings(g, opIndex, op), opIndex, f) {
      var x :| x in OpFindings(g, opIndex, op) && x.code.FieldTypeImpact? && f in x.impactedFields;
      assert x in findings;
      TypeFindingsExact(g, opIndex, SortedTexts(touched), x);
      var t :| t in SortedTexts(touched)
        && x == Finding(FieldTypeImpact, Low, opIndex, Users(g.fieldsOfType, t), Users(g.dynamicFieldsOfType, t), []);
      InverseInverts(g.fields, t, f);
    }
    if f in g.fields && g.fields[f] in touched {
      var t := g.fields[f];
      InverseInverts(g.fields, t, f);
      var x := Finding(FieldTypeImpact, Low, opIndex, Users(g.fieldsOfType, t), Users(g.dynamicFieldsOfType, t), []);
      TypeFindingsExact(g, opIndex, SortedTexts(touched), x);
      assert x in OpFindings(g, opIndex, op);
    }
  }

  /** The copyField finding of an operation that touches type t lists every rule with an end of that type. */
  ghost predicate RisksRule(findings: seq<Finding>, opIndex: nat, g: Graph, rule: CopyRule) {
    exists x :: x in findings && x.code.CopyFieldCompatRisk? && x.severity.Medium? && x.opIndex == opIndex
      && Described(g, rule) in x.copyFields
  }

  lemma RulesAtRisk(g: Graph, opIndex: nat, op: Op, rule: CopyRule)
    ensures RisksRule(OpFindings(g, opIndex, op), opIndex, g, rule) <==> rule in g.copyFields && IsRisky(g, op, rule)
  {
    RiskyRulesExact(g, op, g.copyFields, rule);
    var risky := RiskyRules(g, op, g.copyFields);
    var x := Finding(CopyFieldCompatRisk, Medium, opIndex, SortedTexts(TouchedFields(op)), [], risky);
    forall y | y in TypeFindings(g, opIndex, SortedTexts(TouchedTypes(g, op))) ensures y.code.FieldTypeImpact? {
      TypeFindingsExact(g, opIndex, SortedTexts(TouchedTypes(g, op)), y);
    }
    if risky != [] {
      assert x in OpFindings(g, opIndex, op);
    }
  }

  /** A hazard on a destination never comes without the compatibility warning for the same operation. */
  lemma HighComesWithMedium(g: Graph, opIndex: nat, op: Op)
    ensures (exists x :: x in OpFindings(g, opIndex, op) && x.severity.High?) ==>
            exists x :: x in OpFindings(g, opIndex, op) && x.severity.Medium? && x.opIndex == opIndex
  {
    if x :| x in OpFindings(g, opIndex, op) && x.severity.High? {
      if x in TypeFindings(g, opIndex, SortedTexts(TouchedTypes(g, op))) {
        TypeFindingsExact(g, opIndex, SortedTexts(TouchedTypes(g, op)), x);
      }
      var hazards := HazardRules(g, op, g.copyFields);
      assert hazards != [];
      HazardsAreRisky(g, op, g.copyFields);
      assert hazards[0] in hazards;
      var y := Finding(CopyFieldCompatRisk, Medium, opIndex, SortedTexts(TouchedFields(op)), [],
        RiskyRules(g, op, g.copyFields));
      assert y in OpFindings(g, opIndex, op);
    }
  }

  lemma {:induction false} HazardsAreRisky(g: Graph, op: Op, rules: seq<CopyRule>)
    ensures forall r :: r in HazardRules(g, op, rules) ==> r in RiskyRules(g, op, rules)
  {
    if rules != [] {
      HazardsAreRisky(g, op, rules[..|rules| - 1]);
    }
  }

  // ----- what an operation rewrites -----

  function TypeOf(s: Schema, f: Text): Option<Text> {
    var found := FindField(s.fields, f);
    if found.Some? then found.value.fieldType else None
  }

  function ChainOf(s: Schema, t: Text): Option<FieldType> {
    FindFieldType(s.fieldTypes, t)
  }

  /** A command that neither moves f to another type than t nor redefines t. */
  predicate Quiet(c: Command, f: Text, t: Text) {
    match c
    case ReplaceField(def) => def.name == f ==> def.fieldType == Some(t)
    case ReplaceFieldType(def) => def.name != t
  }

  ghost predicate AllQuiet(commands: seq<Command>, f: Text, t: Text) {
    forall c :: c in commands ==> Quiet(c, f, t)
  }

  /** Quiet commands leave the type of f and the definition of t as they were. */
  lemma {:induction false} QuietKeeps(live: Schema, commands: seq<Command>, f: Text, t: Text)
    requires AllQuiet(commands, f, t) && TypeOf(live, f) == Some(t)
    ensures var after := PostAll(live, commands).live;
            TypeOf(after, f) == Some(t) && ChainOf(after, t) == ChainOf(live, t)
    decreases |commands|
  {
    if commands != [] {
      var next := Post(live, commands[0]);
      assert Quiet(commands[0], f, t);
      if next.Ok? {
        match commands[0] {
          case ReplaceField(def) => FindAfterReplaceField(live.fields, def, f);
          case ReplaceFieldType(def) => FindAfterReplaceType(live.fieldTypes, def, t);
        }
        QuietKeeps(next.value, commands[1..], f, t);
      }
    }
  }

  lemma {:induction false} ReplacementsAreQuiet(fields: seq<Field>, src: Text, dst: Text, f: Text, t: Text)
    requires t != src && forall i :: 0 <= i < |fields| && fields[i].name == f ==> fields[i].fieldType == Some(t)
    ensures AllQuiet(PrepareReplacements(fields, src, dst), f, t)
  {
    if fields != [] {
      ReplacementsAreQuiet(fields[1..], src, dst, f, t);
    }
  }

  /** The one definition of f is what both the lookup and the graph see. */
  lemma {:induction false} SoleDefinition(fields: seq<Field>, f: Text, t: Text)
    requires UniqueNames(fields) && FindField(fields, f).Some? && FindField(fields, f).value.fieldType == Some(t)
    ensures f in TypeMap(fields) && TypeMap(fields)[f] == t
    ensures forall i :: 0 <= i < |fields| && fields[i].name == f ==> fields[i].fieldType == Some(t)
  {
    FoundAt(fields, f);
    var i :| 0 <= i < |fields| && fields[i] == FindField(fields, f).value && fields[i].name == f;
    TypeMapRecords(fields, f);
    forall j | 0 <= j < |fields| && fields[j].name == f ensures j == i {
    }
  }

  lemma {:induction false} FoundAt(fields: seq<Field>, f: Text)
    requires FindField(fields, f).Some?
    ensures exists i :: 0 <= i < |fields| && fields[i] == FindField(fields, f).value && fields[i].name == f
  {
    if fields[0].name != f {
      FoundAt(fields[1..], f);
      var i :| 0 <= i < |fields[1..]| && fields[1..][i] == FindField(fields[1..], f).value && fields[1..][i].name == f;
      assert fields[i + 1] == fields[1..][i];
    }
  }

  /** An operation that does not touch the baseline type of f posts only quiet commands. */
  lemma UntouchedIsQuiet(baseline: Schema, op: Op, f: Text, t: Text)
    requires UniqueNames(baseline.fields) && TypeOf(baseline, f) == Some(t) && t.chars != ""
    requires t !in TouchedTypes(GraphOf(baseline), op) && Commands(baseline, op).Ok?
    ensures AllQuiet(Commands(baseline, op).value, f, t)
  {
    SoleDefinition(baseline.fields, f, t);
    match op
    case FieldUpdate(field, p) =>
    case FieldTypeReplace(src, dst) => ReplacementsAreQuiet(baseline.fields, src, dst, f, t);
    case RemoveFilter(name, _, _) => FoundName(baseline, name);
    case OtherOp =>
  }

  // ----- soundness -----

  /** Every copyField rule that starts or ends at f. */
  ghost predicate RisksRulesOf(findings: seq<Finding>, opIndex: nat, g: Graph, f: Text) {
    forall rule :: rule in g.copyFields && (rule.source == f || rule.dest == f) ==>
      RisksRule(findings, opIndex, g, rule)
  }

  /** The operation moves f off type c, or rewrites the chain of c, in the live schema. */
  ghost predicate Rewrites(baseline: Schema, live: Schema, op: Op, f: Text, c: Text) {
    var after := ApplyOp(baseline, live, op).live;
    TypeOf(after, f) != Some(c) || ChainOf(after, c) != ChainOf(live, c)
  }

  /** One operation: if it rewrites the type of f, or the chain of that type, its own findings say so, as
      long as the shadow still has f on its baseline type. */
  lemma OpIsReported(baseline: Schema, live: Schema, op: Op, opIndex: nat, f: Text, t: Text)
    requires UniqueNames(baseline.fields) && TypeOf(baseline, f) == Some(t) && t.chars != ""
    requires TypeOf(live, f) == Some(t)
    requires Rewrites(baseline, live, op, f, t)
    ensures ReportedBy(GraphOf(baseline), opIndex, op, f)
  {
    SoleDefinition(baseline.fields, f, t);
    if t in TouchedTypes(GraphOf(baseline), op) {
      TouchedIsReported(baseline, op, opIndex, f, t);
    } else {
      UntouchedIsQuiet(baseline, op, f, t);
      QuietKeeps(live, Commands(baseline, op).value, f, t);
    }
  }

  /** Some operation of the changeset reports f. */
  ghost predicate ReportedSomewhere(g: Graph, ops: seq<Op>, f: Text) {
    exists i :: 0 <= i < |ops| && ReportedBy(g, i, ops[i], f)
  }

  /** The operation's findings name f, and every copyField rule that starts or ends at f. */
  ghost predicate ReportedBy(g: Graph, opIndex: nat, op: Op, f: Text) {
    && Impacts(OpFindings(g, opIndex, op), opIndex, f)
    && RisksRulesOf(OpFindings(g, opIndex, op), opIndex, g, f)
  }

  lemma TouchedIsReported(baseline: Schema, op: Op, opIndex: nat, f: Text, t: Text)
    requires UniqueNames(baseline.fields) && TypeOf(baseline, f) == Some(t)
    requires t in TouchedTypes(GraphOf(baseline), op)
    ensures ReportedBy(GraphOf(baseline), opIndex, op, f)
  {
    var g := GraphOf(baseline);
    SoleDefinition(baseline.fields, f, t);
    ImpactedExactly(baseline, opIndex, op, f);
    forall rule | rule in g.copyFields && (rule.source == f || rule.dest == f)
      ensures RisksRule(OpFindings(g, opIndex, op), opIndex, g, rule)
    {
      RulesAtRisk(g, opIndex, op, rule);
    }
  }

  lemma {:induction false} QuietRun(baseline: Schema, live: Schema, ops: seq<Op>, f: Text, t: Text)
    requires UniqueNames(baseline.fields) && TypeOf(baseline, f) == Some(t) && t.chars != ""
    requires TypeOf(live, f) == Some(t) && forall op :: op in ops ==> t !in TouchedTypes(GraphOf(baseline), op)
    ensures var after := ApplyOps(baseline, live, ops).live;
            TypeOf(after, f) == Some(t) && ChainOf(after, t) == ChainOf(live, t)
    decreases |ops|
  {
    if ops != [] {
      assert ops[0] in ops;
      if Commands(baseline, ops[0]).Ok? {
        UntouchedIsQuiet(baseline, ops[0], f, t);
        QuietKeeps(live, Commands(baseline, ops[0]).value, f, t);
      }
      var first := ApplyOp(baseline, live, ops[0]);
      if first.error.None? {
        QuietRun(baseline, first.live, ops[1..], f, t);
      }
    }
  }

  /** The whole changeset, finished or stopped by an error: a field that ends up on another type or another
      chain than it started with was reported, with every copyField rule that starts or ends at it. */
  lemma RunIsReported(baseline: Schema, ops: seq<Op>, f: Text, t: Text)
    requires UniqueNames(baseline.fields) && TypeOf(baseline, f) == Some(t) && t.chars != ""
    requires var after := ApplyOps(baseline, baseline, ops).live;
             TypeOf(after, f) != Some(t) || ChainOf(after, t) != ChainOf(baseline, t)
    ensures ReportedSomewhere(GraphOf(baseline), ops, f)
  {
    var g := GraphOf(baseline);
    if forall op :: op in ops ==> t !in TouchedTypes(g, op) {
      QuietRun(baseline, baseline, ops, f, t);
    } else {
      var op :| op in ops && t in TouchedTypes(g, op);
      var i :| 0 <= i < |ops| && ops[i] == op;
      TouchedIsReported(baseline, ops[i], i, f, t);
    }
  }

  /** The findings of each operation are all in the run's findings. */
  lemma {:induction false} RunCollects(g: Graph, ops: seq<Op>, i: nat, x: Finding)
    requires i < |ops| && x in OpFindings(g, i, ops[i])
    ensures x in AllFindings(g, ops)
  {
    if i < |ops| - 1 {
      RunCollects(g, ops[..|ops| - 1], i, x);
    }
  }

  // ----- when single operations are reported -----

  /** Whatever operation rewrites f in this live schema reports it. */
  ghost predicate EveryRewriteReported(baseline: Schema, live: Schema, f: Text, c: Text) {
    forall op, i :: Rewrites(baseline, live, op, f, c) ==> ReportedBy(GraphOf(baseline), i, op, f)
  }

  /** Updating f without naming a type posts its baseline type, and so moves it back from any other; no finding
      says so. */
  lemma UntypedUpdateMovesBack(baseline: Schema, live: Schema, f: Text, a: Text, c: Text, props: map<Text, Text>)
    requires TypeOf(baseline, f) == Some(a) && TypeOf(live, f) == Some(c) && a != c
    ensures var op := FieldUpdate(f, Patch(None, props));
            && TypeOf(ApplyOp(baseline, live, op).live, f) == Some(a)
            && Rewrites(baseline, live, op, f, c)
            && forall i :: !Impacts(OpFindings(GraphOf(baseline), i, op), i, f)
  {
    var op, def := FieldUpdate(f, Patch(None, props)), PrepareFieldUpdate(baseline, f, Patch(None, props)).value;
    FindAfterReplaceField(live.fields, def, f);
    PostOne(live, ReplaceField(def));
    forall i ensures !Impacts(OpFindings(GraphOf(baseline), i, op), i, f) {
      ImpactedExactly(baseline, i, op, f);
    }
  }

  /** Single operations report every rewrite of f if and only if the shadow still has f on its baseline type. */
  lemma OpsReportedExactly(baseline: Schema, live: Schema, f: Text, a: Text, c: Text)
    requires UniqueNames(baseline.fields) && TypeOf(baseline, f) == Some(a) && a.chars != ""
    requires TypeOf(live, f) == Some(c)
    ensures EveryRewriteReported(baseline, live, f, c) <==> c == a
  {
    if c == a {
      forall op, i | Rewrites(baseline, live, op, f, c) ensures ReportedBy(GraphOf(baseline), i, op, f) {
        OpIsReported(baseline, live, op, i, f, a);
      }
    } else {
      UntypedUpdateMovesBack(baseline, live, f, a, c, map[]);
      var op := FieldUpdate(f, Patch(None, map[]));
      assert Rewrites(baseline, live, op, f, c) && !ReportedBy(GraphOf(baseline), 0, op, f);
    }
  }

  ghost predicate IsMissed(baseline: Schema, live: Schema, op: Op, f: Text, a: Text, b: Text) {
    && TypeOf(baseline, f) == Some(a)
    && live == ApplyOp(baseline, baseline, FieldTypeReplace(a, b)).live && TypeOf(live, f) == Some(b)
    && ChainOf(ApplyOp(baseline, live, op).live, b) != ChainOf(live, b)
    && !Impacts(OpFindings(GraphOf(baseline), 1, op), 1, f)
  }

  /** Once an earlier operation has moved f to type b, stripping a filter from b changes f's chain, yet that
      operation's findings, drawn from the baseline, do not name f. */
  lemma MovedFieldIsMissed(f: Text, a: Text, b: Text, cls: Text)
    requires a != b && a.chars != "" && b.chars != ""
    ensures exists baseline, live, op :: IsMissed(baseline, live, op, f, a, b)
  {
    var chain := FieldType(b, None, Some(Analyzer(Some([Filter(Some(cls), None)]), NoEntry)), None);
    var field := Field(f, Some(a), map[]);
    var baseline := Schema([field], [], [chain], []);
    var live := Schema([field.(fieldType := Some(b))], [], [chain], []);
    var op := RemoveFilter(b, IndexSide, cls);
    var stripped := FieldType(b, None, Some(Analyzer(Some([]), NoEntry)), None);
    var moved := field.(fieldType := Some(b));
    assert PrepareReplacements(baseline.fields, a, b) == [ReplaceField(moved)];
    assert ReplaceFieldIn([field], moved) == [moved];
    PostOne(baseline, ReplaceField(moved));
    assert Kept([Filter(Some(cls), None)], cls) == [];
    assert PrepareRemoveFilter(baseline, b, IndexSide, cls) == Ok(stripped);
    assert ReplaceTypeIn([chain], stripped) == [stripped];
    PostOne(live, ReplaceFieldType(stripped));
    ImpactedExactly(baseline, 1, op, f);
    assert TypeMap(baseline.fields) == map[f := a];
    assert TypeOf(baseline, f) == Some(a) && TypeOf(live, f) == Some(b);
    assert live == ApplyOp(baseline, baseline, FieldTypeReplace(a, b)).live;
    assert ChainOf(live, b) == Some(chain) && ChainOf(live.(fieldTypes := [stripped]), b) == Some(stripped);
    assert ApplyOp(baseline, live, op).live == live.(fieldTypes := [stripped]);
    assert IsMissed(baseline, live, op, f, a, b);
  }

  /** Removing a filter from a schema that has already been stripped of it posts nothing. */
  lemma RemoveFilterOnce(s: Schema, name: Text, side: Side, cls: Text)
    requires PrepareRemoveFilter(s, name, side, cls).Ok?
    ensures Commands(ApplyOp(s, s, RemoveFilter(name, side, cls)).live, RemoveFilter(name, side, cls)) == Ok([])
  {
    var op, def := RemoveFilter(name, side, cls), PrepareRemoveFilter(s, name, side, cls).value;
    FoundName(s, name);
    FindAfterReplaceType(s.fieldTypes, def, name);
    var ft := FindFieldType(s.fieldTypes, name).value;
    var block := if side.IndexSide? && ft.indexAnalyzer.Some? then ft.indexAnalyzer.value
                 else if side.QuerySide? && ft.queryAnalyzer.Some? then ft.queryAnalyzer.value
                 else ft.analyzer.value;
    RemoveTwice(block, cls);
    assert PostAll(s, [ReplaceFieldType(def)]).live == s.(fieldTypes := ReplaceTypeIn(s.fieldTypes, def));
  }
}
