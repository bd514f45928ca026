/** Solr schemas as the API returns them, and the schema graph built from one. */
module Schema {
  import opened Prelude
  import opened Sorting

  datatype Filter = Filter(cls: Option<Text>, name: Option<Text>)

  /** The `filter` entry of an analyzer block: a list, a single object, or missing. */
  datatype FilterEntry = NoEntry | Many(filters: seq<Filter>) | Single(filter: Filter)

  /** `filters` is Some exactly when the block has a list under that key. */
  datatype Analyzer = Analyzer(filters: Option<seq<Filter>>, filter: FilterEntry)

  datatype FieldType = FieldType(name: Text, analyzer: Option<Analyzer>, indexAnalyzer: Option<Analyzer>,
      queryAnalyzer: Option<Analyzer>)

  datatype Field = Field(name: Text, fieldType: Option<Text>, props: map<Text, Text>)

  datatype CopyRule = CopyRule(source: Text, dest: Text, maxChars: Option<int>)

  datatype Schema = Schema(fields: seq<Field>, dynamicFields: seq<Field>, fieldTypes: seq<FieldType>,
      copyFields: seq<CopyRule>)

  datatype Graph = Graph(
    fields: map<Text, Text>,
    dynamicFields: map<Text, Text>,
    copyFields: seq<CopyRule>,
    fieldsOfType: map<Text, seq<Text>>,
    dynamicFieldsOfType: map<Text, seq<Text>>)

  /** Name to type; of two definitions with the same name the later one counts. */
  function TypeMap(fields: seq<Field>): map<Text, Text> {
    if fields == [] then map[]
    else
      var before, last := TypeMap(fields[..|fields| - 1]), fields[|fields| - 1];
      if last.fieldType.Some? then before[last.name := last.fieldType.value] else before
  }

  function NamesOfType(types: map<Text, Text>, t: Text): set<Text> {
    set n | n in types && types[n] == t
  }

  /** Type to the names that have it, in ascending order. */
  function Inverse(types: map<Text, Text>): map<Text, seq<Text>> {
    map t | t in types.Values :: SortedTexts(NamesOfType(types, t))
  }

  function GraphOf(s: Schema): Graph {
    Graph(TypeMap(s.fields), TypeMap(s.dynamicFields), s.copyFields, Inverse(TypeMap(s.fields)),
      Inverse(TypeMap(s.dynamicFields)))
  }

  // ----- build_schema_graph -----

  /** Fills a forward map; `names` are its keys in the order in which they first appeared. */
  method FillTypes(fields: seq<Field>) returns (types: map<Text, Text>, names: seq<Text>)
    ensures types == TypeMap(fields)
    ensures Distinct(names) && forall n :: n in names <==> n in types
  {
    types, names := map[], [];
    for i := 0 to |fields|
      invariant types == TypeMap(fields[..i])
      invariant Distinct(names) && forall n :: n in names <==> n in types
    {
      TakeOneMore(fields, i);
      if fields[i].fieldType.Some? {
        if fields[i].name !in types {
          names := names + [fields[i].name];
        }
        types := types[fields[i].name := fields[i].fieldType.value];
      }
    }
    TakeAll(fields);
  }

  /** group lists, without repetition, the names among `seen` that have type t. */
  ghost predicate Groups(group: seq<Text>, types: map<Text, Text>, seen: seq<Text>, t: Text) {
    Distinct(group) && forall n :: n in group <==> n in seen && n in types && types[n] == t
  }

  /** The inverse index of the names seen so far, lists in order of appearance. */
  ghost predicate Grouped(inverse: map<Text, seq<Text>>, types: map<Text, Text>, seen: seq<Text>) {
    && (forall t :: t in inverse ==> inverse[t] != [] && Groups(inverse[t], types, seen, t))
    && (forall n :: n in seen && n in types ==> types[n] in inverse)
  }

  lemma OneMoreGrouped(inverse: map<Text, seq<Text>>, types: map<Text, Text>, seen: seq<Text>, n: Text)
    requires Grouped(inverse, types, seen) && n in types && n !in seen
    ensures var t := types[n];
            Grouped(inverse[t := (if t in inverse then inverse[t] else []) + [n]], types, seen + [n])
  {
    var t := types[n];
    var group := if t in inverse then inverse[t] else [];
    assert Groups(group, types, seen, t);
    var after := inverse[t := group + [n]];
    forall u | u in after ensures after[u] != [] && Groups(after[u], types, seen + [n], u) {
      if u != t { assert Groups(inverse[u], types, seen, u); }
    }
  }

  method GroupByType(types: map<Text, Text>, names: seq<Text>) returns (inverse: map<Text, seq<Text>>)
    requires Distinct(names) && forall n :: n in names ==> n in types
    ensures Grouped(inverse, types, names)
  {
    inverse := map[];
    for i := 0 to |names|
      invariant Grouped(inverse, types, names[..i])
    {
      TakeOneMore(names, i);
      var t := types[names[i]];
      OneMoreGrouped(inverse, types, names[..i], names[i]);
      inverse := inverse[t := (if t in inverse then inverse[t] else []) + [names[i]]];
    }
    TakeAll(names);
  }

  /** Sorts every list of the index in place. */
  method SortGroups(groups: map<Text, seq<Text>>) returns (sorted: map<Text, seq<Text>>)
    ensures sorted == map t | t in groups :: StableSort(groups[t], TextLess)
  {
    sorted := groups;
    var todo := groups.Keys;
    while todo != {}
      invariant todo <= groups.Keys == sorted.Keys
      invariant forall t :: t in groups ==>
                sorted[t] == if t in todo then groups[t] else StableSort(groups[t], TextLess)
      decreases todo
    {
      var t :| t in todo;
      sorted := sorted[t := StableSort(sorted[t], TextLess)];
      todo := todo - {t};
    }
  }

  /** Fills an inverse index and sorts its lists. */
  method Invert(types: map<Text, Text>, names: seq<Text>) returns (inverse: map<Text, seq<Text>>)
    requires Distinct(names) && forall n :: n in names <==> n in types
    ensures inverse == Inverse(types)
  {
    var groups := GroupByType(types, names);
    inverse := SortGroups(groups);
    KeysAreTypes(types, names, groups);
    forall t | t in groups ensures StableSort(groups[t], TextLess) == SortedTexts(NamesOfType(types, t)) {
      assert Groups(groups[t], types, names, t);
      SortOfDistinct(groups[t], NamesOfType(types, t));
    }
  }

  lemma KeysAreTypes(types: map<Text, Text>, names: seq<Text>, inverse: map<Text, seq<Text>>)
    requires Grouped(inverse, types, names) && forall n :: n in names <==> n in types
    ensures inverse.Keys == types.Values
  {
    forall t | t in inverse ensures t in types.Values {
      assert Groups(inverse[t], types, names, t) && inverse[t][0] in inverse[t];
    }
    forall t | t in types.Values ensures t in inverse {
      var n :| n in types && types[n] == t;
      assert n in names;
    }
  }

  /** Sorting a duplicate-free list of names is the sorted list of the set. */
  lemma SortOfDistinct(list: seq<Text>, names: set<Text>)
    requires Distinct(list) && forall n :: n in list <==> n in names
    ensures StableSort(list, TextLess) == SortedTexts(names)
  {
    TextOrder();
    SortedTextsLists(names);
    StableSortElements(list, TextLess);
    var a, b := StableSort(list, TextLess), SortedTexts(names);
    forall i, j | 0 <= i < j < |a| ensures TextLess(a[i], a[j]) {
      StableSortAscends(list, TextLess, i, j);
    }
    DistinctSameMultiset(a, b);
    OrderedUnique(a, b, TextLess);
  }

  method BuildSchemaGraph(s: Schema) returns (g: Graph)
    ensures g == GraphOf(s)
    ensures GraphExplained(s, g)
  {
    GraphExactly(s);
    var fields, fieldNames := FillTypes(s.fields);
    var dynamicFields, dynamicNames := FillTypes(s.dynamicFields);
    var fieldsOfType := Invert(fields, fieldNames);
    var dynamicFieldsOfType := Invert(dynamicFields, dynamicNames);
    g := Graph(fields, dynamicFields, s.copyFields, fieldsOfType, dynamicFieldsOfType);
  }

  // ----- what the graph says -----

  /** The inverse index is the forward map read backwards, each list in strictly ascending order. */
  lemma InverseInverts(types: map<Text, Text>, t: Text, n: Text)
    ensures t in Inverse(types) && n in Inverse(types)[t] <==> n in types && types[n] == t
    ensures t in Inverse(types) ==> InOrder(Inverse(types)[t], TextLess) && Inverse(types)[t] != []
  {
    if t in Inverse(types) {
      SortedTextsLists(NamesOfType(types, t));
      var m :| m in types && types[m] == t;
      assert m in NamesOfType(types, t);
    }
  }

  ghost predicate UniqueNames(fields: seq<Field>) {
    forall i, j :: 0 <= i < j < |fields| ==> fields[i].name != fields[j].name
  }

  /** With unique names the forward map records each typed field's own type, and nothing else. */
  lemma {:induction false} TypeMapRecords(fields: seq<Field>, n: Text)
    requires UniqueNames(fields)
    ensures n in TypeMap(fields) <==> exists i :: 0 <= i < |fields| && fields[i].name == n && fields[i].fieldType.Some?
    ensures forall i :: 0 <= i < |fields| && fields[i].name == n && fields[i].fieldType.Some? ==>
            TypeMap(fields)[n] == fields[i].fieldType.value
  {
    if fields != [] {
      TypeMapRecords(fields[..|fields| - 1], n);
    }
  }

  /** t is the type of the last typed definition of n. */
  ghost predicate HasType(fields: seq<Field>, n: Text, t: Text) {
    exists i :: 0 <= i < |fields| && DefinesLast(fields, i, n, t)
  }

  ghost predicate DefinesLast(fields: seq<Field>, i: nat, n: Text, t: Text) {
    && i < |fields| && fields[i].name == n && fields[i].fieldType == Some(t)
    && forall j :: i < j < |fields| ==> fields[j].name != n || fields[j].fieldType.None?
  }

  /** The forward map, whatever the names: of several typed definitions the last one counts. */
  lemma {:induction false} TypeMapExactly(fields: seq<Field>, n: Text, t: Text)
    ensures n in TypeMap(fields) && TypeMap(fields)[n] == t <==> HasType(fields, n, t)
  {
    if fields != [] {
      var k := |fields| - 1;
      var init, last := fields[..k], fields[k];
      TypeMapExactly(init, n, t);
      if last.name == n && last.fieldType.Some? {
        if last.fieldType == Some(t) {
          assert DefinesLast(fields, k, n, t);
        }
      } else {
        if HasType(init, n, t) {
          var i :| 0 <= i < |init| && DefinesLast(init, i, n, t);
          forall j | i < j < |fields| ensures fields[j].name != n || fields[j].fieldType.None? {
            assert j < k ==> init[j] == fields[j];
          }
          assert DefinesLast(fields, i, n, t);
        }
        if HasType(fields, n, t) {
          var i :| 0 <= i < |fields| && DefinesLast(fields, i, n, t);
          assert i < k && DefinesLast(init, i, n, t) by {
            forall j | i < j < |init| ensures init[j].name != n || init[j].fieldType.None? {
              assert init[j] == fields[j];
            }
          }
        }
      }
    }
  }

  /** The graph in terms of the definitions. */
  ghost predicate GraphExplained(s: Schema, g: Graph) {
    && (forall n, t :: n in g.fields && g.fields[n] == t <==> HasType(s.fields, n, t))
    && (forall n, t :: n in g.dynamicFields && g.dynamicFields[n] == t <==> HasType(s.dynamicFields, n, t))
    && g.copyFields == s.copyFields
    && (forall n, t :: t in g.fieldsOfType && n in g.fieldsOfType[t] <==> HasType(s.fields, n, t))
    && (forall n, t :: t in g.dynamicFieldsOfType && n in g.dynamicFieldsOfType[t] <==> HasType(s.dynamicFields, n, t))
    && (forall t :: t in g.fieldsOfType ==> g.fieldsOfType[t] != [] && InOrder(g.fieldsOfType[t], TextLess))
    && (forall t :: t in g.dynamicFieldsOfType ==>
          g.dynamicFieldsOfType[t] != [] && InOrder(g.dynamicFieldsOfType[t], TextLess))
  }

  lemma GraphExactly(s: Schema)
    ensures GraphExplained(s, GraphOf(s))
  {
    var g := GraphOf(s);
    forall n, t
      ensures n in g.fields && g.fields[n] == t <==> HasType(s.fields, n, t)
      ensures t in g.fieldsOfType && n in g.fieldsOfType[t] <==> HasType(s.fields, n, t)
    {
      TypeMapExactly(s.fields, n, t);
      InverseInverts(g.fields, t, n);
    }
    forall n, t
      ensures n in g.dynamicFields && g.dynamicFields[n] == t <==> HasType(s.dynamicFields, n, t)
      ensures t in g.dynamicFieldsOfType && n in g.dynamicFieldsOfType[t] <==> HasType(s.dynamicFields, n, t)
    {
      TypeMapExactly(s.dynamicFields, n, t);
      InverseInverts(g.dynamicFields, t, n);
    }
    forall t | t in g.fieldsOfType ensures g.fieldsOfType[t] != [] && InOrder(g.fieldsOfType[t], TextLess) {
      InverseInverts(g.fields, t, t);
    }
    forall t | t in g.dynamicFieldsOfType
      ensures g.dynamicFieldsOfType[t] != [] && InOrder(g.dynamicFieldsOfType[t], TextLess)
    {
      InverseInverts(g.dynamicFields, t, t);
    }
  }
}
