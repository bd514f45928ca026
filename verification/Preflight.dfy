/** The risk findings for a changeset, computed from the baseline schema alone. */
module Preflight {
  import opened Prelude
  import opened Sorting
  import opened Schema
  import opened ApplySchema

  datatype Severity = High | Medium | Low

  datatype Code = FieldTypeImpact | CopyFieldCompatRisk | CopyFieldDestHazard

  datatype Kind = IsField | IsDynamicField | IsDynamicPattern | IsUnknown

  datatype RiskyRule = RiskyRule(rule: CopyRule, sourceKind: Kind, destKind: Kind, sourceType: Option<Text>,
      destType: Option<Text>)

  datatype Finding = Finding(
    code: Code,
    severity: Severity,
    opIndex: nat,
    impactedFields: seq<Text>,
    impactedDynamicFields: seq<Text>,
    copyFields: seq<RiskyRule>)

  // ----- what an operation touches -----

  function TypeForEndpoint(g: Graph, endpoint: Text): (Option<Text>, Kind) {
    if endpoint in g.fields then (Some(g.fields[endpoint]), IsField)
    else if endpoint in g.dynamicFields then (Some(g.dynamicFields[endpoint]), IsDynamicField)
    else if '*' in endpoint.chars then (None, IsDynamicPattern)
    else (None, IsUnknown)
  }

  function Named(t: Option<Text>): set<Text> {
    if t.Some? && t.value.chars != "" then {t.value} else {}
  }

  function TouchedTypes(g: Graph, op: Op): set<Text> {
    match op
    case FieldTypeReplace(src, dst) => {src, dst}
    case RemoveFilter(fieldType, _, _) => {fieldType}
    case FieldUpdate(field, p) =>
      var before := if field in g.fields then Some(g.fields[field]) else None;
      if p.fieldType.None? || p.fieldType == before then {} else Named(before) + Named(p.fieldType)
    case OtherOp => {}
  }

  function TouchedFields(op: Op): set<Text> {
    if op.FieldUpdate? then {op.field} else {}
  }

  // ----- the findings of one operation -----

  function Users(index: map<Text, seq<Text>>, t: Text): seq<Text> {
    if t in index then index[t] else []
  }

  function TypeFindings(g: Graph, opIndex: nat, types: seq<Text>): seq<Finding> {
    if types == [] then []
    else
      var t := types[|types| - 1];
      TypeFindings(g, opIndex, types[..|types| - 1])
      + if Users(g.fieldsOfType, t) == [] && Users(g.dynamicFieldsOfType, t) == [] then []
        else [Finding(FieldTypeImpact, Low, opIndex, Users(g.fieldsOfType, t), Users(g.dynamicFieldsOfType, t), [])]
  }

  predicate IsTouched(t: Option<Text>, types: set<Text>) {
    t.Some? && t.value in types
  }

  predicate IsRisky(g: Graph, op: Op, rule: CopyRule) {
    var types, fields := TouchedTypes(g, op), TouchedFields(op);
    || IsTouched(TypeForEndpoint(g, rule.source).0, types)
    || IsTouched(TypeForEndpoint(g, rule.dest).0, types)
    || rule.source in fields || rule.dest in fields
  }

  predicate IsHazard(g: Graph, op: Op, rule: CopyRule) {
    && op.FieldTypeReplace?
    && TypeForEndpoint(g, rule.dest).1.IsField?
    && IsTouched(TypeForEndpoint(g, rule.dest).0, TouchedTypes(g, op))
  }

  function Described(g: Graph, rule: CopyRule): RiskyRule {
    var (sourceType, sourceKind) := TypeForEndpoint(g, rule.source);
    var (destType, destKind) := TypeForEndpoint(g, rule.dest);
    RiskyRule(rule, sourceKind, destKind, sourceType, destType)
  }

  function RiskyRules(g: Graph, op: Op, rules: seq<CopyRule>): seq<RiskyRule> {
    if rules == [] then []
    else
      var last := rules[|rules| - 1];
      RiskyRules(g, op, rules[..|rules| - 1]) + if IsRisky(g, op, last) then [Described(g, last)] else []
  }

  function HazardRules(g: Graph, op: Op, rules: seq<CopyRule>): seq<RiskyRule> {
    if rules == [] then []
    else
      var last := rules[|rules| - 1];
      HazardRules(g, op, rules[..|rules| - 1]) + if IsHazard(g, op, last) then [Described(g, last)] else []
  }

  function OpFindings(g: Graph, opIndex: nat, op: Op): seq<Finding> {
    var risky, hazards := RiskyRules(g, op, g.copyFields), HazardRules(g, op, g.copyFields);
    var fields := SortedTexts(TouchedFields(op));
    TypeFindings(g, opIndex, SortedTexts(TouchedTypes(g, op)))
    + (if risky == [] then [] else [Finding(CopyFieldCompatRisk, Medium, opIndex, fields, [], risky)])
    + (if hazards == [] then [] else [Finding(CopyFieldDestHazard, High, opIndex, fields, [], hazards)])
  }

  function AllFindings(g: Graph, ops: seq<Op>): seq<Finding> {
    if ops == [] then []
    else AllFindings(g, ops[..|ops| - 1]) + OpFindings(g, |ops| - 1, ops[|ops| - 1])
  }

  function CountOf(findings: seq<Finding>, severity: Severity): nat {
    if findings == [] then 0
    else CountOf(findings[..|findings| - 1], severity) + if findings[|findings| - 1].severity == severity then 1 else 0
  }

  // ----- what the findings say, in terms of the schema and the operations -----

  lemma {:induction false} TypeFindingsExact(g: Graph, opIndex: nat, types: seq<Text>, x: Finding)
    ensures x in TypeFindings(g, opIndex, types) <==>
            exists t :: t in types && (Users(g.fieldsOfType, t) != [] || Users(g.dynamicFieldsOfType, t) != [])
              && x == Finding(
                   FieldTypeImpact, Low, opIndex, Users(g.fieldsOfType, t), Users(g.dynamicFieldsOfType, t), [])
  {
    if types != [] {
      var init, last := types[..|types| - 1], types[|types| - 1];
      TypeFindingsExact(g, opIndex, init, x);
      assert types == init + [last];
    }
  }

  lemma {:induction false} RiskyRulesExact(g: Graph, op: Op, rules: seq<CopyRule>, rule: CopyRule)
    ensures Described(g, rule) in RiskyRules(g, op, rules) <==> rule in rules && IsRisky(g, op, rule)
    ensures Described(g, rule) in HazardRules(g, op, rules) <==> rule in rules && IsHazard(g, op, rule)
  {
    if rules != [] {
      var init, last := rules[..|rules| - 1], rules[|rules| - 1];
      RiskyRulesExact(g, op, init, rule);
      assert rules == init + [last];
      assert Described(g, last).rule == last && Described(g, rule).rule == rule;
    }
  }

  /** The type of a copyField endpoint: that of the field, or else that of the dynamic field. */
  ghost predicate EndHasType(s: Schema, e: Text, t: Text) {
    HasType(s.fields, e, t) || ((forall u :: !HasType(s.fields, e, u)) && HasType(s.dynamicFields, e, t))
  }

  /** The operation replaces t or introduces it, strips a filter from it, or moves a field from it or to it. */
  ghost predicate Touches(s: Schema, op: Op, t: Text) {
    || (op.FieldTypeReplace? && (t == op.name || t == op.replacement))
    || (op.RemoveFilter? && t == op.fieldType)
    || (op.FieldUpdate? && op.patch.fieldType.Some? && !HasType(s.fields, op.field, op.patch.fieldType.value)
        && t.chars != "" && (t == op.patch.fieldType.value || HasType(s.fields, op.field, t)))
  }

  /** The rule has an end on a touched type, or it names the updated field. */
  ghost predicate AtRisk(s: Schema, op: Op, rule: CopyRule) {
    && rule in s.copyFields
    && (|| (exists t :: Touches(s, op, t) && (EndHasType(s, rule.source, t) || EndHasType(s, rule.dest, t)))
        || (op.FieldUpdate? && (rule.source == op.field || rule.dest == op.field)))
  }

  /** A replacement of a type that the rule's destination field has, or by such a type. */
  ghost predicate Endangers(s: Schema, op: Op, rule: CopyRule) {
    && op.FieldTypeReplace? && rule in s.copyFields
    && (HasType(s.fields, rule.dest, op.name) || HasType(s.fields, rule.dest, op.replacement))
  }

  ghost predicate KindOf(s: Schema, e: Text, kind: Kind) {
    match kind
    case IsField => exists t :: HasType(s.fields, e, t)
    case IsDynamicField => (forall t :: !HasType(s.fields, e, t)) && exists t :: HasType(s.dynamicFields, e, t)
    case IsDynamicPattern => (forall t :: !EndHasType(s, e, t)) && '*' in e.chars
    case IsUnknown => (forall t :: !EndHasType(s, e, t)) && '*' !in e.chars
  }

  /** The reported rule carries the kinds and types of its own ends. */
  ghost predicate EndsDescribed(s: Schema, r: RiskyRule) {
    && KindOf(s, r.rule.source, r.sourceKind) && KindOf(s, r.rule.dest, r.destKind)
    && (forall t :: r.sourceType == Some(t) <==> EndHasType(s, r.rule.source, t))
    && (forall t :: r.destType == Some(t) <==> EndHasType(s, r.rule.dest, t))
  }

  /** An impact finding: the fields and dynamic fields of one touched type, in ascending order, and some at all. */
  ghost predicate ImpactOf(s: Schema, t: Text, x: Finding) {
    && x.code.FieldTypeImpact? && x.severity.Low? && x.copyFields == []
    && (forall n :: n in x.impactedFields <==> HasType(s.fields, n, t))
    && (forall n :: n in x.impactedDynamicFields <==> HasType(s.dynamicFields, n, t))
    && InOrder(x.impactedFields, TextLess) && InOrder(x.impactedDynamicFields, TextLess)
    && (x.impactedFields != [] || x.impactedDynamicFields != [])
  }

  ghost predicate FieldOf(op: Op, fields: seq<Text>) {
    fields == if op.FieldUpdate? then [op.field] else []
  }

  /** The operation's LOW findings are those of its touched types that are in use. */
  ghost predicate LowExplained(s: Schema, op: Op, i: nat, findings: seq<Finding>) {
    && (forall x :: x in findings && x.opIndex == i && x.severity.Low? ==>
          exists t :: Touches(s, op, t) && ImpactOf(s, t, x))
    && forall t :: Touches(s, op, t) && InUse(s, t) ==> exists x :: x in findings && x.opIndex == i && ImpactOf(s, t, x)
  }

  ghost predicate InUse(s: Schema, t: Text) {
    exists n :: HasType(s.fields, n, t) || HasType(s.dynamicFields, n, t)
  }

  /** The operation has a MEDIUM finding exactly when it puts a rule at risk, and that lists all such rules. */
  ghost predicate MediumExplained(s: Schema, op: Op, i: nat, findings: seq<Finding>) {
    && ((exists x :: x in findings && x.opIndex == i && x.severity.Medium?) <==> exists rule :: AtRisk(s, op, rule))
    && forall x :: x in findings && x.opIndex == i && x.severity.Medium? ==>
         x.code.CopyFieldCompatRisk? && ListsAtRisk(s, op, x)
  }

  ghost predicate ListsAtRisk(s: Schema, op: Op, x: Finding) {
    && FieldOf(op, x.impactedFields) && x.impactedDynamicFields == []
    && (forall rule :: AtRisk(s, op, rule) <==> exists r :: r in x.copyFields && r.rule == rule)
    && forall r :: r in x.copyFields ==> EndsDescribed(s, r)
  }

  /** The operation has a HIGH finding exactly when it endangers a destination, and that lists all such rules. */
  ghost predicate HighExplained(s: Schema, op: Op, i: nat, findings: seq<Finding>) {
    && ((exists x :: x in findings && x.opIndex == i && x.severity.High?) <==> exists rule :: Endangers(s, op, rule))
    && forall x :: x in findings && x.opIndex == i && x.severity.High? ==>
         x.code.CopyFieldDestHazard? && ListsEndangered(s, op, x)
  }

  ghost predicate ListsEndangered(s: Schema, op: Op, x: Finding) {
    && FieldOf(op, x.impactedFields) && x.impactedDynamicFields == []
    && (forall rule :: Endangers(s, op, rule) <==> exists r :: r in x.copyFields && r.rule == rule)
    && forall r :: r in x.copyFields ==> EndsDescribed(s, r)
  }

  ghost predicate OpExplained(s: Schema, op: Op, i: nat, findings: seq<Finding>) {
    LowExplained(s, op, i, findings) && MediumExplained(s, op, i, findings) && HighExplained(s, op, i, findings)
  }

  lemma TouchedExactly(s: Schema, op: Op, t: Text)
    ensures t in TouchedTypes(GraphOf(s), op) <==> Touches(s, op, t)
  {
    GraphExactly(s);
    if op.FieldUpdate? && op.patch.fieldType.Some? {
      var g := GraphOf(s);
      assert g.fields == TypeMap(s.fields);
      assert op.patch.fieldType == (if op.field in g.fields then Some(g.fields[op.field]) else None) <==>
             HasType(s.fields, op.field, op.patch.fieldType.value);
    }
  }

  lemma EndpointExactly(s: Schema, e: Text)
    ensures forall t :: TypeForEndpoint(GraphOf(s), e).0 == Some(t) <==> EndHasType(s, e, t)
    ensures KindOf(s, e, TypeForEndpoint(GraphOf(s), e).1)
    ensures TypeForEndpoint(GraphOf(s), e).1.IsField? ==>
              forall t :: TypeForEndpoint(GraphOf(s), e).0 == Some(t) <==> HasType(s.fields, e, t)
    ensures (exists t :: HasType(s.fields, e, t)) ==> TypeForEndpoint(GraphOf(s), e).1.IsField?
  {
    GraphExactly(s);
    var g := GraphOf(s);
    if e in g.fields {
      assert HasType(s.fields, e, g.fields[e]);
    } else if e in g.dynamicFields {
      assert HasType(s.dynamicFields, e, g.dynamicFields[e]);
    }
  }

  lemma DescribedExactly(s: Schema, rule: CopyRule)
    ensures EndsDescribed(s, Described(GraphOf(s), rule)) && Described(GraphOf(s), rule).rule == rule
  {
    EndpointExactly(s, rule.source);
    EndpointExactly(s, rule.dest);
  }

  lemma RiskExactly(s: Schema, op: Op, rule: CopyRule)
    requires rule in s.copyFields
    ensures IsRisky(GraphOf(s), op, rule) <==> AtRisk(s, op, rule)
  {
    var g := GraphOf(s);
    EndpointExactly(s, rule.source);
    EndpointExactly(s, rule.dest);
    forall t ensures t in TouchedTypes(g, op) <==> Touches(s, op, t) {
      TouchedExactly(s, op, t);
    }
  }

  lemma HazardExactly(s: Schema, op: Op, rule: CopyRule)
    requires rule in s.copyFields
    ensures IsHazard(GraphOf(s), op, rule) <==> Endangers(s, op, rule)
  {
    EndpointExactly(s, rule.dest);
    if op.FieldTypeReplace? {
      TouchedExactly(s, op, op.name);
      TouchedExactly(s, op, op.replacement);
    }
  }

  lemma {:induction false} RulesAreDescribed(g: Graph, op: Op, rules: seq<CopyRule>)
    ensures forall r :: r in RiskyRules(g, op, rules) || r in HazardRules(g, op, rules) ==> r == Described(g, r.rule)
  {
    if rules != [] {
      RulesAreDescribed(g, op, rules[..|rules| - 1]);
    }
  }

  lemma RiskyListExactly(s: Schema, op: Op, risky: seq<RiskyRule>)
    requires risky == RiskyRules(GraphOf(s), op, s.copyFields)
    ensures forall rule :: AtRisk(s, op, rule) <==> exists r :: r in risky && r.rule == rule
    ensures forall r :: r in risky ==> EndsDescribed(s, r)
  {
    var g := GraphOf(s);
    RulesAreDescribed(g, op, s.copyFields);
    forall rule ensures AtRisk(s, op, rule) <==> exists r :: r in risky && r.rule == rule {
      RiskyRulesExact(g, op, s.copyFields, rule);
      if rule in s.copyFields { RiskExactly(s, op, rule); }
      if AtRisk(s, op, rule) {
        assert Described(g, rule) in risky;
        DescribedExactly(s, rule);
      }
    }
    forall r | r in risky ensures EndsDescribed(s, r) {
      DescribedExactly(s, r.rule);
    }
  }

  lemma HazardListExactly(s: Schema, op: Op, hazards: seq<RiskyRule>)
    requires hazards == HazardRules(GraphOf(s), op, s.copyFields)
    ensures forall rule :: Endangers(s, op, rule) <==> exists r :: r in hazards && r.rule == rule
    ensures forall r :: r in hazards ==> EndsDescribed(s, r)
  {
    var g := GraphOf(s);
    RulesAreDescribed(g, op, s.copyFields);
    forall rule ensures Endangers(s, op, rule) <==> exists r :: r in hazards && r.rule == rule {
      RiskyRulesExact(g, op, s.copyFields, rule);
      if rule in s.copyFields { HazardExactly(s, op, rule); }
      if Endangers(s, op, rule) {
        assert Described(g, rule) in hazards;
        DescribedExactly(s, rule);
      }
    }
    forall r | r in hazards ensures EndsDescribed(s, r) {
      DescribedExactly(s, r.rule);
    }
  }

  lemma FieldsExactly(op: Op)
    ensures FieldOf(op, SortedTexts(TouchedFields(op)))
  {
    SortedTextsLists(TouchedFields(op));
    if op.FieldUpdate? {
      var sorted := SortedTexts(TouchedFields(op));
      assert op.field in sorted;
      assert forall i :: 0 <= i < |sorted| ==> sorted[i] in sorted;
    } else {
      assert TouchedFields(op) == {};
    }
  }

  lemma UsersExactly(s: Schema, t: Text)
    ensures var g := GraphOf(s);
            && (forall n :: n in Users(g.fieldsOfType, t) <==> HasType(s.fields, n, t))
            && (forall n :: n in Users(g.dynamicFieldsOfType, t) <==> HasType(s.dynamicFields, n, t))
            && InOrder(Users(g.fieldsOfType, t), TextLess) && InOrder(Users(g.dynamicFieldsOfType, t), TextLess)
            && (InUse(s, t) <==> Users(g.fieldsOfType, t) != [] || Users(g.dynamicFieldsOfType, t) != [])
  {
    GraphExactly(s);
    var g := GraphOf(s);
    var fields, dynamicFields := Users(g.fieldsOfType, t), Users(g.dynamicFieldsOfType, t);
    if fields != [] { assert fields[0] in fields; }
    if dynamicFields != [] { assert dynamicFields[0] in dynamicFields; }
  }

  lemma LowExactly(s: Schema, op: Op, i: nat, types: seq<Text>, findings: seq<Finding>)
    requires types == SortedTexts(TouchedTypes(GraphOf(s), op))
    requires forall x :: x in findings && x.opIndex == i && x.severity.Low? <==> x in TypeFindings(GraphOf(s), i, types)
    ensures LowExplained(s, op, i, findings)
  {
    var g := GraphOf(s);
    SortedTextsLists(TouchedTypes(g, op));
    forall x | x in findings && x.opIndex == i && x.severity.Low?
      ensures exists t :: Touches(s, op, t) && ImpactOf(s, t, x)
    {
      TypeFindingsExact(g, i, types, x);
      var t :| t in types && (Users(g.fieldsOfType, t) != [] || Users(g.dynamicFieldsOfType, t) != [])
        && x == Finding(FieldTypeImpact, Low, i, Users(g.fieldsOfType, t), Users(g.dynamicFieldsOfType, t), []);
      TouchedExactly(s, op, t);
      UsersExactly(s, t);
      assert Touches(s, op, t) && ImpactOf(s, t, x);
    }
    forall t | Touches(s, op, t) && InUse(s, t)
      ensures exists x :: x in findings && x.opIndex == i && ImpactOf(s, t, x)
    {
      TouchedExactly(s, op, t);
      UsersExactly(s, t);
      var x := Finding(FieldTypeImpact, Low, i, Users(g.fieldsOfType, t), Users(g.dynamicFieldsOfType, t), []);
      TypeFindingsExact(g, i, types, x);
      assert x in findings && ImpactOf(s, t, x);
    }
  }

  function CompatFinding(op: Op, i: nat, risky: seq<RiskyRule>): Finding {
    Finding(CopyFieldCompatRisk, Medium, i, SortedTexts(TouchedFields(op)), [], risky)
  }

  function HazardFinding(op: Op, i: nat, hazards: seq<RiskyRule>): Finding {
    Finding(CopyFieldDestHazard, High, i, SortedTexts(TouchedFields(op)), [], hazards)
  }

  lemma FindingsBySeverity(g: Graph, op: Op, i: nat, x: Finding)
    ensures x in OpFindings(g, i, op) ==> x.opIndex == i
    ensures x in OpFindings(g, i, op) && x.severity.Low? <==>
            x in TypeFindings(g, i, SortedTexts(TouchedTypes(g, op)))
    ensures x in OpFindings(g, i, op) && x.severity.Medium? <==>
            RiskyRules(g, op, g.copyFields) != [] && x == CompatFinding(op, i, RiskyRules(g, op, g.copyFields))
    ensures x in OpFindings(g, i, op) && x.severity.High? <==>
            HazardRules(g, op, g.copyFields) != [] && x == HazardFinding(op, i, HazardRules(g, op, g.copyFields))
  {
    TypeFindingsExact(g, i, SortedTexts(TouchedTypes(g, op)), x);
  }

  /** Which findings of a list belong to an operation. */
  ghost predicate HoldsOp(findings: seq<Finding>, g: Graph, op: Op, i: nat) {
    forall x :: x in findings && x.opIndex == i <==> x in OpFindings(g, i, op)
  }

  /** The findings of this operation and severity are x, if it is given at all. */
  ghost predicate OnlyOne(findings: seq<Finding>, i: nat, severity: Severity, given: bool, x: Finding) {
    forall y :: y in findings && y.opIndex == i && y.severity == severity <==> given && y == x
  }

  lemma OnlyMedium(s: Schema, op: Op, i: nat, findings: seq<Finding>, given: bool, x: Finding)
    requires OnlyOne(findings, i, Medium, given, x)
    requires given <==> exists rule :: AtRisk(s, op, rule)
    requires given ==> x.code.CopyFieldCompatRisk? && ListsAtRisk(s, op, x)
    ensures MediumExplained(s, op, i, findings)
  {
    if given {
      assert x in findings && x.opIndex == i && x.severity == Medium;
    }
  }

  lemma OnlyHigh(s: Schema, op: Op, i: nat, findings: seq<Finding>, given: bool, x: Finding)
    requires OnlyOne(findings, i, High, given, x)
    requires given <==> exists rule :: Endangers(s, op, rule)
    requires given ==> x.code.CopyFieldDestHazard? && ListsEndangered(s, op, x)
    ensures HighExplained(s, op, i, findings)
  {
    if given {
      assert x in findings && x.opIndex == i && x.severity == High;
    }
  }

  lemma MediumExactly(s: Schema, op: Op, i: nat, findings: seq<Finding>)
    requires HoldsOp(findings, GraphOf(s), op, i)
    ensures MediumExplained(s, op, i, findings)
  {
    var g := GraphOf(s);
    var risky := RiskyRules(g, op, s.copyFields);
    var x := CompatFinding(op, i, risky);
    RiskyListExactly(s, op, risky);
    FieldsExactly(op);
    forall y ensures y in findings && y.opIndex == i && y.severity == Medium <==> risky != [] && y == x {
      FindingsBySeverity(g, op, i, y);
    }
    if risky != [] {
      assert risky[0] in risky && AtRisk(s, op, risky[0].rule);
    }
    OnlyMedium(s, op, i, findings, risky != [], x);
  }

  lemma HighExactly(s: Schema, op: Op, i: nat, findings: seq<Finding>)
    requires HoldsOp(findings, GraphOf(s), op, i)
    ensures HighExplained(s, op, i, findings)
  {
    var g := GraphOf(s);
    var hazards := HazardRules(g, op, s.copyFields);
    var x := HazardFinding(op, i, hazards);
    HazardListExactly(s, op, hazards);
    FieldsExactly(op);
    forall y ensures y in findings && y.opIndex == i && y.severity == High <==> hazards != [] && y == x {
      FindingsBySeverity(g, op, i, y);
    }
    if hazards != [] {
      assert hazards[0] in hazards && Endangers(s, op, hazards[0].rule);
    }
    OnlyHigh(s, op, i, findings, hazards != [], x);
  }

  lemma OpExactly(s: Schema, op: Op, i: nat, findings: seq<Finding>)
    requires HoldsOp(findings, GraphOf(s), op, i)
    ensures OpExplained(s, op, i, findings)
  {
    var types := SortedTexts(TouchedTypes(GraphOf(s), op));
    forall x ensures x in findings && x.opIndex == i && x.severity.Low? <==> x in TypeFindings(GraphOf(s), i, types) {
      FindingsBySeverity(GraphOf(s), op, i, x);
    }
    LowExactly(s, op, i, types, findings);
    MediumExactly(s, op, i, findings);
    HighExactly(s, op, i, findings);
  }

  lemma {:induction false} AllFindingsHold(g: Graph, ops: seq<Op>, i: nat)
    ensures i < |ops| ==> HoldsOp(AllFindings(g, ops), g, ops[i], i)
    ensures i >= |ops| ==> forall x :: x in AllFindings(g, ops) ==> x.opIndex != i
  {
    if ops != [] {
      var k := |ops| - 1;
      var init := ops[..k];
      AllFindingsHold(g, init, i);
      forall x ensures x in AllFindings(g, ops) <==> x in AllFindings(g, init) || x in OpFindings(g, k, ops[k]) {}
      forall x | x in OpFindings(g, k, ops[k]) ensures x.opIndex == k {
        FindingsBySeverity(g, ops[k], k, x);
      }
      if i < k {
        assert init[i] == ops[i];
      }
    }
  }

  /** The findings of a run: every operation's, and none besides. */
  ghost predicate RunExplained(s: Schema, ops: seq<Op>, findings: seq<Finding>) {
    && (forall x :: x in findings ==> x.opIndex < |ops|)
    && forall i: nat :: i < |ops| ==> OpExplained(s, ops[i], i, findings)
  }

  lemma RunExactly(s: Schema, ops: seq<Op>)
    ensures RunExplained(s, ops, AllFindings(GraphOf(s), ops))
  {
    var g := GraphOf(s);
    forall x | x in AllFindings(g, ops) ensures x.opIndex < |ops| {
      AllFindingsHold(g, ops, x.opIndex);
    }
    forall i: nat | i < |ops| ensures OpExplained(s, ops[i], i, AllFindings(g, ops)) {
      AllFindingsHold(g, ops, i);
      OpExactly(s, ops[i], i, AllFindings(g, ops));
    }
  }

  /** By operation, and for one operation LOW before MEDIUM before HIGH, the latter two once at most. */
  ghost predicate InReportOrder(findings: seq<Finding>) {
    forall p, q :: 0 <= p < q < |findings| ==>
      || findings[p].opIndex < findings[q].opIndex
      || (findings[p].opIndex == findings[q].opIndex
          && (findings[p].severity.Low? || (findings[p].severity.Medium? && findings[q].severity.High?)))
  }

  lemma OpInOrder(g: Graph, op: Op, i: nat)
    ensures InReportOrder(OpFindings(g, i, op))
    ensures forall x :: x in OpFindings(g, i, op) ==> x.opIndex == i
  {
    var findings := OpFindings(g, i, op);
    var low := TypeFindings(g, i, SortedTexts(TouchedTypes(g, op)));
    forall x | x in findings ensures x.opIndex == i { FindingsBySeverity(g, op, i, x); }
    forall p | 0 <= p < |low| ensures findings[p].severity.Low? {
      assert findings[p] == low[p] && low[p] in low;
      FindingsBySeverity(g, op, i, low[p]);
    }
    forall p, q | 0 <= p < q < |findings|
      ensures findings[p].opIndex == findings[q].opIndex
      ensures findings[p].severity.Low? || (findings[p].severity.Medium? && findings[q].severity.High?)
    {
      assert findings[p] in findings && findings[q] in findings;
    }
  }

  lemma AppendInOrder(before: seq<Finding>, last: seq<Finding>, k: nat)
    requires InReportOrder(before) && InReportOrder(last)
    requires forall x :: x in before ==> x.opIndex < k
    requires forall x :: x in last ==> x.opIndex == k
    ensures InReportOrder(before + last)
  {
    var all := before + last;
    forall p, q | 0 <= p < q < |all|
      ensures all[p].opIndex < all[q].opIndex
              || (all[p].opIndex == all[q].opIndex
                  && (all[p].severity.Low? || (all[p].severity.Medium? && all[q].severity.High?)))
    {
      if p < |before| <= q {
        assert before[p] in before && last[q - |before|] in last;
      } else if p >= |before| {
        assert all[p] == last[p - |before|] && all[q] == last[q - |before|];
      }
    }
  }

  lemma {:induction false} RunInOrder(g: Graph, ops: seq<Op>)
    ensures InReportOrder(AllFindings(g, ops))
  {
    if ops != [] {
      var k := |ops| - 1;
      RunInOrder(g, ops[..k]);
      OpInOrder(g, ops[k], k);
      forall x | x in AllFindings(g, ops[..k]) ensures x.opIndex < k {
        AllFindingsHold(g, ops[..k], x.opIndex);
      }
      AppendInOrder(AllFindings(g, ops[..k]), OpFindings(g, k, ops[k]), k);
    }
  }

  ghost function PositionsOf(findings: seq<Finding>, severity: Severity): set<nat> {
    set i: nat | i < |findings| && findings[i].severity == severity
  }

  lemma {:induction false} CountsPositions(findings: seq<Finding>, severity: Severity)
    ensures CountOf(findings, severity) == |PositionsOf(findings, severity)|
  {
    if findings == [] {
      assert PositionsOf(findings, severity) == {};
    } else {
      var k := |findings| - 1;
      CountsPositions(findings[..k], severity);
      assert PositionsOf(findings, severity) ==
             PositionsOf(findings[..k], severity) + if findings[k].severity == severity then {k} else {};
    }
  }

  lemma {:induction false} SomeCounted(findings: seq<Finding>, severity: Severity)
    ensures CountOf(findings, severity) > 0 <==> exists x :: x in findings && x.severity == severity
  {
    if findings != [] {
      var init, last := findings[..|findings| - 1], findings[|findings| - 1];
      SomeCounted(init, severity);
      assert findings == init + [last];
    }
  }

  lemma HighMeansEndangered(s: Schema, ops: seq<Op>, findings: seq<Finding>, x: Finding)
    requires RunExplained(s, ops, findings) && x in findings && x.severity == High
    ensures exists i, rule :: 0 <= i < |ops| && Endangers(s, ops[i], rule)
  {
    var i := x.opIndex;
    assert OpExplained(s, ops[i], i, findings);
    var rule :| Endangers(s, ops[i], rule);
  }

  lemma EndangeredMeansHigh(s: Schema, ops: seq<Op>, findings: seq<Finding>, i: nat, rule: CopyRule)
    requires RunExplained(s, ops, findings) && i < |ops| && Endangers(s, ops[i], rule)
    ensures exists x :: x in findings && x.severity == High
  {
    assert OpExplained(s, ops[i], i, findings);
  }

  /** The run is blocked exactly when that is wanted and some operation endangers a copyField destination. */
  lemma BlocksExactly(s: Schema, ops: seq<Op>, findings: seq<Finding>)
    requires RunExplained(s, ops, findings)
    ensures CountOf(findings, High) > 0 <==> exists i, rule :: 0 <= i < |ops| && Endangers(s, ops[i], rule)
  {
    SomeCounted(findings, High);
    if x :| x in findings && x.severity == High {
      HighMeansEndangered(s, ops, findings, x);
    }
    if i, rule :| 0 <= i < |ops| && Endangers(s, ops[i], rule) {
      EndangeredMeansHigh(s, ops, findings, i, rule);
    }
  }

  // ----- run_preflight -----

  method AnalyzeTypes(g: Graph, opIndex: nat, op: Op) returns (findings: seq<Finding>)
    ensures findings == TypeFindings(g, opIndex, SortedTexts(TouchedTypes(g, op)))
  {
    var types := SortedTexts(TouchedTypes(g, op));
    findings := [];
    for i := 0 to |types|
      invariant findings == TypeFindings(g, opIndex, types[..i])
    {
      TakeOneMore(types, i);
      var fields, dynamicFields := Users(g.fieldsOfType, types[i]), Users(g.dynamicFieldsOfType, types[i]);
      if fields != [] || dynamicFields != [] {
        findings := findings + [Finding(FieldTypeImpact, Low, opIndex, fields, dynamicFields, [])];
      }
    }
    TakeAll(types);
  }

  method AnalyzeRules(g: Graph, op: Op) returns (risky: seq<RiskyRule>, hazards: seq<RiskyRule>)
    ensures risky == RiskyRules(g, op, g.copyFields) && hazards == HazardRules(g, op, g.copyFields)
  {
    var rules, types, fields := g.copyFields, TouchedTypes(g, op), TouchedFields(op);
    risky, hazards := [], [];
    for i := 0 to |rules|
      invariant risky == RiskyRules(g, op, rules[..i]) && hazards == HazardRules(g, op, rules[..i])
    {
      TakeOneMore(rules, i);
      var (sourceType, sourceKind) := TypeForEndpoint(g, rules[i].source);
      var (destType, destKind) := TypeForEndpoint(g, rules[i].dest);
      var typeTouched := IsTouched(sourceType, types) || IsTouched(destType, types);
      var fieldTouched := rules[i].source in fields || rules[i].dest in fields;
      if typeTouched || fieldTouched {
        risky := risky + [RiskyRule(rules[i], sourceKind, destKind, sourceType, destType)];
      }
      if op.FieldTypeReplace? && destKind.IsField? && IsTouched(destType, types) {
        hazards := hazards + [RiskyRule(rules[i], sourceKind, destKind, sourceType, destType)];
      }
    }
    TakeAll(rules);
  }

  datatype Summary =
    Summary(total: nat, high: nat, medium: nat, low: nat, maxSeverity: Option<Severity>, blockRun: bool)

  function SeverityRank(s: Severity): nat {
    match s
    case High => 3
    case Medium => 2
    case Low => 1
  }

  /** The most severe finding decides; without findings there is no severity. */
  ghost predicate IsMaxSeverity(m: Option<Severity>, findings: seq<Finding>) {
    && (m.None? <==> findings == [])
    && (m.Some? ==> exists i :: 0 <= i < |findings| && findings[i].severity == m.value)
    && (m.Some? ==> forall i :: 0 <= i < |findings| ==> SeverityRank(findings[i].severity) <= SeverityRank(m.value))
  }

  method RunPreflight(schema: Schema, ops: seq<Op>, failOnRisk: bool) returns (findings: seq<Finding>, summary: Summary)
    ensures findings == AllFindings(GraphOf(schema), ops)
    ensures summary.total == |findings|
    ensures summary.high == CountOf(findings, High) && summary.medium == CountOf(findings, Medium)
            && summary.low == CountOf(findings, Low)
    ensures IsMaxSeverity(summary.maxSeverity, findings)
    ensures summary.blockRun <==> failOnRisk && CountOf(findings, High) > 0
    ensures RunExplained(schema, ops, findings) && InReportOrder(findings)
    ensures summary.high == |PositionsOf(findings, High)| && summary.medium == |PositionsOf(findings, Medium)|
            && summary.low == |PositionsOf(findings, Low)|
    ensures summary.blockRun <==>
            failOnRisk && exists i, rule :: 0 <= i < |ops| && Endangers(schema, ops[i], rule)
  {
    ghost var all := AllFindings(GraphOf(schema), ops);
    RunExactly(schema, ops);
    RunInOrder(GraphOf(schema), ops);
    BlocksExactly(schema, ops, all);
    CountsPositions(all, High);
    CountsPositions(all, Medium);
    CountsPositions(all, Low);
    var g := BuildSchemaGraph(schema);
    findings := [];
    for i := 0 to |ops|
      invariant findings == AllFindings(g, ops[..i])
    {
      TakeOneMore(ops, i);
      var op := ops[i];
      var types := AnalyzeTypes(g, i, op);
      var risky, hazards := AnalyzeRules(g, op);
      var fields := SortedTexts(TouchedFields(op));
      types := types + (if risky == [] then [] else [Finding(CopyFieldCompatRisk, Medium, i, fields, [], risky)]);
      types := types + (if hazards == [] then [] else [Finding(CopyFieldDestHazard, High, i, fields, [], hazards)]);
      findings := findings + types;
    }
    TakeAll(ops);
    var high, medium, low := CountSeverities(findings);
    var worst := WorstSeverity(findings);
    summary := Summary(|findings|, high, medium, low, worst, failOnRisk && high > 0);
  }

  method CountSeverities(findings: seq<Finding>) returns (high: nat, medium: nat, low: nat)
    ensures high == CountOf(findings, High) && medium == CountOf(findings, Medium) && low == CountOf(findings, Low)
  {
    high, medium, low := 0, 0, 0;
    for i := 0 to |findings|
      invariant high == CountOf(findings[..i], High) && medium == CountOf(findings[..i], Medium)
      invariant low == CountOf(findings[..i], Low)
    {
      TakeOneMore(findings, i);
      match findings[i].severity {
        case High => high := high + 1;
        case Medium => medium := medium + 1;
        case Low => low := low + 1;
      }
    }
    TakeAll(findings);
  }

  method WorstSeverity(findings: seq<Finding>) returns (worst: Option<Severity>)
    ensures IsMaxSeverity(worst, findings)
  {
    worst := None;
    for i := 0 to |findings|
      invariant IsMaxSeverity(worst, findings[..i])
    {
      TakeOneMore(findings, i);
      ghost var before := worst;
      if worst.None? || SeverityRank(findings[i].severity) > SeverityRank(worst.value) {
        worst := Some(findings[i].severity);
      }
      MaxSeverityGrows(before, findings[..i], findings[i], worst);
    }
    TakeAll(findings);
  }

  lemma MaxSeverityGrows(before: Option<Severity>, findings: seq<Finding>, x: Finding, after: Option<Severity>)
    requires IsMaxSeverity(before, findings)
    requires after ==
             if before.None? || SeverityRank(x.severity) > SeverityRank(before.value) then Some(x.severity) else before
    ensures IsMaxSeverity(after, findings + [x])
  {
    var more := findings + [x];
    assert more[|findings|] == x;
    if after == before {
      var i :| 0 <= i < |findings| && findings[i].severity == before.value;
      assert more[i].severity == after.value;
    }
  }
}
