/**
 * The recipe builder: the recursive walk over a decoded YAML tree that emits
 * one struct per mapping level, typing each field and naming nested structs
 * after their parent and field.
 */
module Walker {
  import opened Wrappers
  import opened GoStrings
  import opened YamlNode
  import opened Recipe
  import opened Infer
  import opened Comments

  /** The parser's setting and the identifier-casing function it uses for
      field names (`strcase.ToCamel`, not modelled). */
  datatype Parser = Parser(advancedTypesEnabled: bool, toCamel: string -> string)

  /** The node whose keys describe the struct nested under a value, if any:
      a non-empty mapping itself, or the first element of a sequence when
      that element has children. */
  function Target(v: Node): Option<Node> {
    match v
    case Mapping(pairs, _) => if |pairs| == 0 then None else Some(v)
    case Sequence(items, _) => if |items| == 0 || ContentLength(items[0]) == 0 then None else Some(items[0])
    case _ => None
  }

  lemma TargetSmaller(v: Node)
    requires Target(v).Some? && v.Sequence?
    ensures Target(v).value < v
  {
  }

  /** The name of the struct nested under field `fieldName` of struct `parent`. */
  function NestedName(parent: string, fieldName: string, v: Node): string {
    if v.Sequence? then parent + "_" + fieldName + "Item" else parent + "_" + fieldName
  }

  /** The field type that refers to the nested struct `nested`. */
  function ReferenceTo(v: Node, nested: string): string {
    (if v.Sequence? then "*[]" else "*") + nested
  }

  /** The type of a field whose value has no nested struct. */
  function LeafType(p: Parser, v: Node): string {
    if v.Other? then "" else InferType(v, p.advancedTypesEnabled, false)
  }

  /** The type of the field `fieldName` of struct `parent` whose value is `value`. */
  function FieldType(p: Parser, parent: string, fieldName: string, value: Node): string {
    match Target(value)
    case Some(_) => ReferenceTo(value, NestedName(parent, fieldName, value))
    case None => LeafType(p, value)
  }

  /** The doc string of a field: its doc lines joined by newlines. */
  function FieldDoc(key: Node, value: Node): string {
    Join(ExtractComments(key, value), "\n")
  }

  /** The field a key/value pair yields. */
  function FieldOf(p: Parser, parent: string, key: Node, value: Node): (r: FieldMeta)
    ensures r.originalName == Value(key) && r.name == p.toCamel(Value(key))
    ensures '_' in r.fieldType <==> Target(value).Some?
  {
    var fieldName := p.toCamel(Value(key));
    FieldTypeNamesStruct(p, parent, fieldName, value);
    FieldMeta(fieldName, Value(key), FieldDoc(key, value), FieldType(p, parent, fieldName, value))
  }

  /** A field type contains `_` exactly when it refers to a nested struct:
      inferred types never do, and a reference always does. */
  lemma FieldTypeNamesStruct(p: Parser, parent: string, fieldName: string, value: Node)
    ensures '_' in FieldType(p, parent, fieldName, value) <==> Target(value).Some?
  {
    var t := FieldType(p, parent, fieldName, value);
    if Target(value).Some? {
      var rest := if value.Sequence? then fieldName + "Item" else fieldName;
      assert NestedName(parent, fieldName, value) == parent + "_" + rest;
      var prefix := if value.Sequence? then "*[]" else "*";
      assert t == prefix + parent + "_" + rest;
      assert t[|prefix| + |parent|] == '_';
    }
  }

  /** The pairs that become fields: all but merge keys, in order. */
  function Kept(pairs: seq<(Node, Node)>): (r: seq<(Node, Node)>)
    ensures |r| <= |pairs|
    ensures forall i :: 0 <= i < |r| ==> Value(r[i].0) != MergeKey
  {
    if pairs == [] then []
    else (if Value(pairs[0].0) == MergeKey then [] else [pairs[0]]) + Kept(pairs[1..])
  }

  /** Exactly the pairs with other keys are kept. */
  lemma {:induction false} KeptMembers(pairs: seq<(Node, Node)>)
    ensures forall x :: x in Kept(pairs) <==> x in pairs && Value(x.0) != MergeKey
  {
    if pairs != [] {
      KeptMembers(pairs[1..]);
      assert pairs == [pairs[0]] + pairs[1..];
    }
  }

  /** The fields of kept pairs, one per pair, in order. */
  function Fields(p: Parser, parent: string, kept: seq<(Node, Node)>): (r: seq<FieldMeta>)
    ensures |r| == |kept|
  {
    seq(|kept|, i requires 0 <= i < |kept| => FieldOf(p, parent, kept[i].0, kept[i].1))
  }

  /** The fields of the struct for a node with these pairs: one per kept pair, in order. */
  function FieldList(p: Parser, parent: string, pairs: seq<(Node, Node)>): seq<FieldMeta> {
    Fields(p, parent, Kept(pairs))
  }

  /** A document whose only key is a merge key is walked whatever the merged
      value holds, even one the walk could not enter: it yields one struct
      without fields. */
  lemma MergeValueNotEntered(p: Parser, name: string, doc: string, v: Node, c: YamlNode.Comments)
    ensures var n := Mapping([(Scalar("!!merge", MergeKey, c), v)], c);
      Walkable(n) && Walk(p, name, n, doc, true) == [StructMeta(true, name, doc, [])]
  {
    var n := Mapping([(Scalar("!!merge", MergeKey, c), v)], c);
    assert Walkable(n);
    WalkFromUnfold(p, name, n, 0);
    assert WalkFrom(p, name, n, 1) == ([], []);
  }

  /** A node the walk can handle: its child list has even length, and so has
      that of every node the walk descends into. The decoder never produces an
      odd mapping, but a sequence walked as a struct (the first element of a
      sequence of sequences) may be odd, and the walk then fails. The value of
      a merge key is never entered, so nothing is asked of it. */
  predicate Walkable(n: Node)
    decreases n, 0
  {
    && ContentLength(n) % 2 == 0
    && match n
    case Mapping(pairs, _) =>
      forall j | 0 <= j < |pairs| :: Value(pairs[j].0) != MergeKey ==> ValueWalkable(pairs[j].1)
    case Sequence(items, _) =>
      forall k | 0 <= k < |items| && k % 2 == 1 :: Value(items[k - 1]) != MergeKey ==> ValueWalkable(items[k])
    case _ => true
  }

  /** A value whose nested struct, if any, can be walked. */
  predicate ValueWalkable(v: Node)
    decreases v, 1
  {
    match v
    case Mapping(_, _) => Walkable(v)
    case Sequence(items, _) => |items| > 0 && ContentLength(items[0]) > 0 ==> Walkable(items[0])
    case _ => true
  }

  lemma WalkableEven(n: Node)
    requires Walkable(n)
    ensures ContentLength(n) % 2 == 0
  {
  }

  /** The values of a walkable node are smaller than it, and those of keys
      other than the merge key are walkable. */
  lemma {:induction false} WalkableValue(n: Node, j: nat)
    requires Walkable(n) && j < |Pairs(n)|
    ensures Pairs(n)[j].1 < n
    ensures Value(Pairs(n)[j].0) != MergeKey ==> ValueWalkable(Pairs(n)[j].1)
  {
    PairSmaller(n, j);
    if n.Mapping? {
      MappingValueWalkable(n, j);
    } else {
      SequencePair(n, j);
      OddValueWalkable(n, j);
    }
  }

  lemma {:induction false} MappingValueWalkable(n: Node, j: nat)
    requires n.Mapping? && Walkable(n) && j < |n.pairs|
    ensures Pairs(n)[j] == n.pairs[j]
    ensures Value(n.pairs[j].0) != MergeKey ==> ValueWalkable(n.pairs[j].1)
  {
  }

  /** The values of a sequence walked as a struct sit at odd positions. */
  lemma {:induction false} OddValueWalkable(n: Node, j: nat)
    requires n.Sequence? && Walkable(n) && 2 * j + 1 < |n.items|
    ensures Value(n.items[2 * j]) != MergeKey ==> ValueWalkable(n.items[2 * j + 1])
  {
    var k := 2 * j + 1;
    assert k % 2 == 1 && k - 1 == 2 * j;
  }

  lemma TargetWalkable(v: Node)
    requires ValueWalkable(v) && Target(v).Some?
    ensures Walkable(Target(v).value)
  {
  }

  /** A field of type `fieldType` documented by `docString` refers to struct
      `s`, which is a nested struct documented the same way. */
  predicate RefersTo(fieldType: string, docString: string, s: StructMeta) {
    (fieldType == "*" + s.name || fieldType == "*[]" + s.name) && !s.isRoot && s.docString == docString
  }

  predicate Refers(f: FieldMeta, s: StructMeta) {
    RefersTo(f.fieldType, f.docString, s)
  }

  /** Every field type naming a struct (only those contain `_`) refers to a
      struct defined earlier in the list. */
  predicate DefinedBeforeUse(structs: seq<StructMeta>) {
    forall i, k | 0 <= i < |structs| && 0 <= k < |structs[i].fields| ::
      '_' in structs[i].fields[k].fieldType ==> exists j :: 0 <= j < i && Refers(structs[i].fields[k], structs[j])
  }

  /** All structs of the list are nested ones named under `parent`. */
  predicate NestedUnder(structs: seq<StructMeta>, parent: string) {
    forall i | 0 <= i < |structs| :: !structs[i].isRoot && HasPrefix(structs[i].name, parent + "_")
  }

  /**
   * The walk of one mapping level: the structs nested under `node`, in the
   * order they are completed, followed by the struct for `node` itself.
   */
  function Walk(p: Parser, structName: string, node: Node, docString: string, isRoot: bool): (r: seq<StructMeta>)
    requires Walkable(node)
    decreases node, 2
    ensures |r| >= 1
    ensures r[|r| - 1] == StructMeta(isRoot, structName, docString, FieldList(p, structName, Pairs(node)))
  {
    WalkableEven(node);
    var (fields, nested) := WalkFrom(p, structName, node, 0);
    var me := StructMeta(isRoot, structName, docString, fields);
    nested + [me]
  }

  /** The fields of `node` from its `j`-th pair on, and the structs nested under them. */
  function WalkFrom(p: Parser, parent: string, n: Node, j: nat): (r: (seq<FieldMeta>, seq<StructMeta>))
    requires Walkable(n)
    requires j <= |Pairs(n)|
    decreases n, 1, |Pairs(n)| - j
    ensures r.0 == FieldList(p, parent, Pairs(n)[j..])
  {
    if j == |Pairs(n)| then ([], [])
    else
      WalkableValue(n, j);
      var key := Pairs(n)[j].0;
      var value := Pairs(n)[j].1;
      var fieldName := p.toCamel(Value(key));
      var docString := FieldDoc(key, value);
      var rest := WalkFrom(p, parent, n, j + 1);
      FieldListStep(p, parent, Pairs(n), j);
      if Value(key) == MergeKey then rest
      else
        var kind := TypeAndNested(p, parent, fieldName, docString, value);
        var field := FieldMeta(fieldName, Value(key), docString, kind.0);
        ([field] + rest.0, kind.1 + rest.1)
  }

  /**
   * The type of a field from its value's kind, and the structs nested under
   * it: a non-empty mapping, or a sequence whose first element has children,
   * is walked as a struct named after the field; other values are typed by
   * inference, except kinds other than scalars and collections, which stay
   * untyped.
   */
  function TypeAndNested(p: Parser, parent: string, fieldName: string, docString: string, value: Node): (r: (string, seq<StructMeta>))
    requires ValueWalkable(value)
    decreases value, 3
    ensures r.0 == FieldType(p, parent, fieldName, value)
    ensures r.1 == [] <==> Target(value).None?
    ensures Target(value).Some? ==> (
      TargetWalkable(value);
      var nested := NestedName(parent, fieldName, value);
      r.1[|r.1| - 1] == StructMeta(false, nested, docString, FieldList(p, nested, Pairs(Target(value).value))))
  {
    match value
    case Mapping(pairs, _) =>
      if |pairs| == 0 then (InferType(value, p.advancedTypesEnabled, false), [])
      else
        var nestedStructName := parent + "_" + fieldName;
        var nested := Walk(p, nestedStructName, value, docString, false);
        ("*" + nestedStructName, nested)
    case Sequence(items, _) =>
      if |items| == 0 || ContentLength(items[0]) == 0 then (InferType(value, p.advancedTypesEnabled, false), [])
      else
        var nestedListName := parent + "_" + fieldName + "Item";
        var nested := Walk(p, nestedListName, items[0], docString, false);
        ("*[]" + nestedListName, nested)
    case Scalar(_, _, _) => (InferType(value, p.advancedTypesEnabled, false), [])
    case Other(_, _) => ("", [])
  }

  /** Every field type naming a struct refers to one of `structs`. */
  predicate Resolved(fields: seq<FieldMeta>, structs: seq<StructMeta>) {
    forall i | 0 <= i < |fields| :: '_' in fields[i].fieldType ==>
      exists k :: 0 <= k < |structs| && Refers(fields[i], structs[k])
  }

  /** The walk of a level emits its nested structs first, all named under the
      level's struct and none of them root, and every struct a field refers to
      is emitted before the struct that has the field. */
  lemma {:induction false} WalkWellFormed(p: Parser, structName: string, node: Node, docString: string, isRoot: bool)
    requires Walkable(node)
    decreases node, 2
    ensures var r := Walk(p, structName, node, docString, isRoot);
      NestedUnder(r[..|r| - 1], structName) && DefinedBeforeUse(r)
  {
    WalkFromWellFormed(p, structName, node, 0);
    var w := WalkFrom(p, structName, node, 0);
    var me := StructMeta(isRoot, structName, docString, w.0);
    DefinedBeforeUseAppend(w.1, me);
    var r := Walk(p, structName, node, docString, isRoot);
    assert r == w.1 + [me];
    assert r[..|r| - 1] == w.1;
  }

  lemma {:induction false} WalkFromWellFormed(p: Parser, parent: string, n: Node, j: nat)
    requires Walkable(n) && j <= |Pairs(n)|
    decreases n, 1, |Pairs(n)| - j
    ensures var r := WalkFrom(p, parent, n, j);
      NestedUnder(r.1, parent) && DefinedBeforeUse(r.1) && Resolved(r.0, r.1)
  {
    if j < |Pairs(n)| {
      WalkableValue(n, j);
      var key := Pairs(n)[j].0;
      var value := Pairs(n)[j].1;
      WalkFromWellFormed(p, parent, n, j + 1);
      WalkFromUnfold(p, parent, n, j);
      if Value(key) != MergeKey {
        KeptFieldWellFormed(p, parent, p.toCamel(Value(key)), Value(key), FieldDoc(key, value), value,
                            WalkFrom(p, parent, n, j + 1));
      }
    }
  }

  /** A kept key's field and nested structs, put in front of a well-formed
      rest of the level, keep it well-formed. */
  lemma {:induction false} KeptFieldWellFormed(p: Parser, parent: string, fieldName: string, originalName: string,
                                               docString: string, value: Node, rest: (seq<FieldMeta>, seq<StructMeta>))
    requires ValueWalkable(value)
    requires NestedUnder(rest.1, parent) && DefinedBeforeUse(rest.1) && Resolved(rest.0, rest.1)
    decreases value, 5
    ensures var kind := TypeAndNested(p, parent, fieldName, docString, value);
      var fields := [FieldMeta(fieldName, originalName, docString, kind.0)] + rest.0;
      NestedUnder(kind.1 + rest.1, parent) && DefinedBeforeUse(kind.1 + rest.1) && Resolved(fields, kind.1 + rest.1)
  {
    TypeAndNestedWellFormed(p, parent, fieldName, docString, value);
    var kind := TypeAndNested(p, parent, fieldName, docString, value);
    WalkFromStep(parent, FieldMeta(fieldName, originalName, docString, kind.0), kind.1, rest.0, rest.1);
  }

  /** One step of the walk over a level's pairs: a merge key adds nothing,
      any other key adds its field in front and its nested structs before
      the rest's. */
  lemma WalkFromUnfold(p: Parser, parent: string, n: Node, j: nat)
    requires Walkable(n) && j < |Pairs(n)|
    requires Value(Pairs(n)[j].0) != MergeKey ==> ValueWalkable(Pairs(n)[j].1)
    ensures var key := Pairs(n)[j].0;
      var value := Pairs(n)[j].1;
      var rest := WalkFrom(p, parent, n, j + 1);
      Value(key) == MergeKey ==> WalkFrom(p, parent, n, j) == rest
    ensures var key := Pairs(n)[j].0;
      Value(key) != MergeKey ==>
        var value := Pairs(n)[j].1;
        var rest := WalkFrom(p, parent, n, j + 1);
        var fieldName := p.toCamel(Value(key));
        var docString := FieldDoc(key, value);
        var kind := TypeAndNested(p, parent, fieldName, docString, value);
        WalkFrom(p, parent, n, j) == ([FieldMeta(fieldName, Value(key), docString, kind.0)] + rest.0, kind.1 + rest.1)
  {
    if Value(Pairs(n)[j].0) == MergeKey {
      assert WalkFrom(p, parent, n, j) == WalkFrom(p, parent, n, j + 1);
    }
  }

  lemma {:induction false} TypeAndNestedWellFormed(p: Parser, parent: string, fieldName: string, docString: string, value: Node)
    requires ValueWalkable(value)
    decreases value, 4
    ensures var r := TypeAndNested(p, parent, fieldName, docString, value);
      && NestedUnder(r.1, parent) && DefinedBeforeUse(r.1)
      && ('_' in r.0 ==> |r.1| > 0 && RefersTo(r.0, docString, r.1[|r.1| - 1]))
  {
    if Target(value).Some? {
      NestedWellFormed(p, parent, fieldName, docString, value);
    } else {
      assert TypeAndNested(p, parent, fieldName, docString, value).1 == [];
    }
  }

  /** A value with a nested struct: the walk of that struct, under the field's name. */
  lemma {:induction false} NestedWellFormed(p: Parser, parent: string, fieldName: string, docString: string, value: Node)
    requires ValueWalkable(value) && Target(value).Some?
    decreases value, 3
    ensures var r := TypeAndNested(p, parent, fieldName, docString, value);
      && NestedUnder(r.1, parent) && DefinedBeforeUse(r.1)
      && r.0 == ReferenceTo(value, r.1[|r.1| - 1].name) && !r.1[|r.1| - 1].isRoot
      && r.1[|r.1| - 1].docString == docString
  {
    var t := Target(value).value;
    TargetWalkable(value);
    var rest := if value.Sequence? then fieldName + "Item" else fieldName;
    var name := parent + "_" + rest;
    assert NestedName(parent, fieldName, value) == name;
    var w := Walk(p, name, t, docString, false);
    assert TypeAndNested(p, parent, fieldName, docString, value) == (ReferenceTo(value, name), w);
    WalkWellFormed(p, name, t, docString, false);
    NestedUnderWider(w, parent, rest);
  }

  /** The leaf types of permissive mode. */
  const PermissiveTypes: set<string> := {"", "any", "*[]any", "*map[string]any"}

  /** A field the walk can emit: never one for a merge key and, in permissive
      mode, either untyped or a reference to a nested struct. */
  predicate Emitted(p: Parser, f: FieldMeta) {
    && f.originalName != MergeKey
    && (!p.advancedTypesEnabled ==> f.fieldType in PermissiveTypes || '_' in f.fieldType)
  }

  predicate AllEmitted(p: Parser, structs: seq<StructMeta>) {
    forall i, k | 0 <= i < |structs| && 0 <= k < |structs[i].fields| :: Emitted(p, structs[i].fields[k])
  }

  /** In permissive mode a value without a nested struct gets an untyped type. */
  lemma LeafTypePermissive(p: Parser, v: Node)
    requires !p.advancedTypesEnabled
    ensures LeafType(p, v) in PermissiveTypes
  {
  }

  lemma FieldTypePermissive(p: Parser, parent: string, fieldName: string, value: Node)
    requires !p.advancedTypesEnabled
    ensures var t := FieldType(p, parent, fieldName, value); t in PermissiveTypes || '_' in t
  {
    var t := FieldType(p, parent, fieldName, value);
    if Target(value).Some? {
      var rest := if value.Sequence? then fieldName + "Item" else fieldName;
      assert NestedName(parent, fieldName, value) == parent + "_" + rest;
      var prefix := if value.Sequence? then "*[]" else "*";
      assert t == prefix + parent + "_" + rest;
      assert t[|prefix| + |parent|] == '_';
    } else {
      LeafTypePermissive(p, value);
    }
  }

  /** The fields of a level are all emitted fields. */
  lemma FieldListEmitted(p: Parser, parent: string, pairs: seq<(Node, Node)>)
    ensures forall i | 0 <= i < |FieldList(p, parent, pairs)| :: Emitted(p, FieldList(p, parent, pairs)[i])
  {
    var kept := Kept(pairs);
    forall i | 0 <= i < |kept|
      ensures Emitted(p, FieldList(p, parent, pairs)[i])
    {
      if !p.advancedTypesEnabled {
        FieldTypePermissive(p, parent, p.toCamel(Value(kept[i].0)), kept[i].1);
      }
    }
  }

  lemma {:induction false} WalkEmitted(p: Parser, structName: string, node: Node, docString: string, isRoot: bool)
    requires Walkable(node)
    decreases node, 2
    ensures AllEmitted(p, Walk(p, structName, node, docString, isRoot))
  {
    WalkFromEmitted(p, structName, node, 0);
    var w := WalkFrom(p, structName, node, 0);
    FieldListEmitted(p, structName, Pairs(node));
    AllEmittedConcat(p, w.1, [StructMeta(isRoot, structName, docString, w.0)]);
  }

  lemma {:induction false} WalkFromEmitted(p: Parser, parent: string, n: Node, j: nat)
    requires Walkable(n) && j <= |Pairs(n)|
    decreases n, 1, |Pairs(n)| - j
    ensures AllEmitted(p, WalkFrom(p, parent, n, j).1)
  {
    if j < |Pairs(n)| {
      WalkableValue(n, j);
      var key := Pairs(n)[j].0;
      var value := Pairs(n)[j].1;
      WalkFromEmitted(p, parent, n, j + 1);
      if Value(key) != MergeKey {
        var fieldName := p.toCamel(Value(key));
        var docString := FieldDoc(key, value);
        TypeAndNestedEmitted(p, parent, fieldName, docString, value);
        var nested := TypeAndNested(p, parent, fieldName, docString, value).1;
        var rest := WalkFrom(p, parent, n, j + 1).1;
        AllEmittedConcat(p, nested, rest);
      }
      WalkFromUnfold(p, parent, n, j);
    }
  }

  lemma {:induction false} TypeAndNestedEmitted(p: Parser, parent: string, fieldName: string, docString: string, value: Node)
    requires ValueWalkable(value)
    decreases value, 3
    ensures AllEmitted(p, TypeAndNested(p, parent, fieldName, docString, value).1)
  {
    match Target(value)
    case None =>
    case Some(t) =>
      TargetWalkable(value);
      var name := NestedName(parent, fieldName, value);
      assert TypeAndNested(p, parent, fieldName, docString, value).1 == Walk(p, name, t, docString, false);
      WalkEmitted(p, name, t, docString, false);
  }

  lemma AllEmittedConcat(p: Parser, a: seq<StructMeta>, b: seq<StructMeta>)
    requires AllEmitted(p, a) && AllEmitted(p, b)
    ensures AllEmitted(p, a + b)
  {
    var s := a + b;
    forall i, k | 0 <= i < |s| && 0 <= k < |s[i].fields|
      ensures Emitted(p, s[i].fields[k])
    {
      if i < |a| {
        assert s[i] == a[i];
      } else {
        assert s[i] == b[i - |a|];
      }
    }
  }

  /** A value's nested struct is the value itself or a part of it. */
  lemma TargetWithin(v: Node)
    requires Target(v).Some?
    ensures Target(v).value == v || Target(v).value < v
  {
  }

  /** How many nested structs lie under a walkable node: for every kept value
      that has a nested struct, that struct and those under it in turn. */
  function Descents(n: Node): nat
    requires Walkable(n)
    decreases n, 1
  {
    DescentsFrom(n, 0)
  }

  function DescentsFrom(n: Node, j: nat): nat
    requires Walkable(n) && j <= |Pairs(n)|
    decreases n, 0, |Pairs(n)| - j
  {
    if j == |Pairs(n)| then 0
    else
      WalkableValue(n, j);
      var key := Pairs(n)[j].0;
      (if Value(key) == MergeKey then 0 else ValueDescents(Pairs(n)[j].1)) + DescentsFrom(n, j + 1)
  }

  function ValueDescents(v: Node): nat
    requires ValueWalkable(v)
    decreases v, 2
  {
    match Target(v)
    case None => 0
    case Some(t) =>
      TargetWithin(v);
      TargetWalkable(v);
      1 + Descents(t)
  }

  /** The walk emits one struct for its level and one per nested level. */
  lemma {:induction false} WalkCount(p: Parser, structName: string, node: Node, docString: string, isRoot: bool)
    requires Walkable(node)
    decreases node, 2
    ensures |Walk(p, structName, node, docString, isRoot)| == 1 + Descents(node)
  {
    WalkFromCount(p, structName, node, 0);
  }

  lemma {:induction false} WalkFromCount(p: Parser, parent: string, n: Node, j: nat)
    requires Walkable(n) && j <= |Pairs(n)|
    decreases n, 1, |Pairs(n)| - j
    ensures |WalkFrom(p, parent, n, j).1| == DescentsFrom(n, j)
  {
    if j < |Pairs(n)| {
      WalkableValue(n, j);
      var key := Pairs(n)[j].0;
      var value := Pairs(n)[j].1;
      WalkFromCount(p, parent, n, j + 1);
      WalkFromUnfold(p, parent, n, j);
      if Value(key) != MergeKey {
        var fieldName := p.toCamel(Value(key));
        var docString := FieldDoc(key, value);
        TypeAndNestedCount(p, parent, fieldName, docString, value);
      }
    }
  }

  lemma {:induction false} TypeAndNestedCount(p: Parser, parent: string, fieldName: string, docString: string, value: Node)
    requires ValueWalkable(value)
    decreases value, 3
    ensures |TypeAndNested(p, parent, fieldName, docString, value).1| == ValueDescents(value)
  {
    match Target(value)
    case None =>
    case Some(t) =>
      TargetWalkable(value);
      var name := NestedName(parent, fieldName, value);
      assert TypeAndNested(p, parent, fieldName, docString, value).1 == Walk(p, name, t, docString, false);
      WalkCount(p, name, t, docString, false);
  }

  /** The mode, the casing function and the names decide the types and the
      names, never how many structs there are. */
  lemma StructCountIndependent(p: Parser, q: Parser, name1: string, name2: string, node: Node,
                               doc1: string, doc2: string, root1: bool, root2: bool)
    requires Walkable(node)
    ensures |Walk(p, name1, node, doc1, root1)| == |Walk(q, name2, node, doc2, root2)|
  {
    WalkCount(p, name1, node, doc1, root1);
    WalkCount(q, name2, node, doc2, root2);
  }

  /** Dropping the first pair of a suffix of pairs. */
  lemma FieldListStep(p: Parser, parent: string, pairs: seq<(Node, Node)>, j: nat)
    requires j < |pairs|
    ensures FieldList(p, parent, pairs[j..]) ==
      (if Value(pairs[j].0) == MergeKey then [] else [FieldOf(p, parent, pairs[j].0, pairs[j].1)])
      + FieldList(p, parent, pairs[j + 1..])
  {
    var s := pairs[j..];
    assert s[0] == pairs[j] && s[1..] == pairs[j + 1..];
    var head := if Value(pairs[j].0) == MergeKey then [] else [pairs[j]];
    var tail := Kept(pairs[j + 1..]);
    assert Kept(s) == head + tail;
    FieldsConcat(p, parent, head, tail);
    var f := Fields(p, parent, head);
    if head == [] {
      assert f == [];
    } else {
      assert f[0] == FieldOf(p, parent, pairs[j].0, pairs[j].1);
      assert f == [FieldOf(p, parent, pairs[j].0, pairs[j].1)];
    }
  }

  lemma FieldsConcat(p: Parser, parent: string, a: seq<(Node, Node)>, b: seq<(Node, Node)>)
    ensures Fields(p, parent, a + b) == Fields(p, parent, a) + Fields(p, parent, b)
  {
    var l := Fields(p, parent, a + b);
    var r := Fields(p, parent, a) + Fields(p, parent, b);
    forall i | 0 <= i < |l|
      ensures l[i] == r[i]
    {
      if i < |a| {
        assert (a + b)[i] == a[i];
      } else {
        assert (a + b)[i] == b[i - |a|];
      }
    }
  }

  /** Structs named under `parent + "_" + rest` are named under `parent`. */
  lemma NestedUnderWider(structs: seq<StructMeta>, parent: string, rest: string)
    requires |structs| >= 1
    requires structs[|structs| - 1].name == parent + "_" + rest && !structs[|structs| - 1].isRoot
    requires NestedUnder(structs[..|structs| - 1], parent + "_" + rest)
    ensures NestedUnder(structs, parent)
  {
    var name := parent + "_" + rest;
    var pre := parent + "_";
    assert name[..|pre|] == pre;
    forall i | 0 <= i < |structs|
      ensures !structs[i].isRoot && HasPrefix(structs[i].name, pre)
    {
      if i < |structs| - 1 {
        assert structs[i] == structs[..|structs| - 1][i];
        assert structs[i].name[..|name|] == name;
        assert structs[i].name[..|pre|] == name[..|pre|];
      }
    }
  }

  /** Adding one field and its nested structs in front of the rest. */
  lemma WalkFromStep(parent: string, field: FieldMeta, nested: seq<StructMeta>, fields: seq<FieldMeta>, structs: seq<StructMeta>)
    requires NestedUnder(nested, parent) && NestedUnder(structs, parent)
    requires DefinedBeforeUse(nested) && DefinedBeforeUse(structs)
    requires '_' in field.fieldType ==> |nested| > 0 && RefersTo(field.fieldType, field.docString, nested[|nested| - 1])
    requires Resolved(fields, structs)
    ensures NestedUnder(nested + structs, parent)
    ensures DefinedBeforeUse(nested + structs)
    ensures Resolved([field] + fields, nested + structs)
  {
    DefinedBeforeUseConcat(nested, structs);
    var all := nested + structs;
    forall i | 0 <= i < |all|
      ensures !all[i].isRoot && HasPrefix(all[i].name, parent + "_")
    {
      if i < |nested| {
        assert all[i] == nested[i];
      } else {
        assert all[i] == structs[i - |nested|];
      }
    }
    forall i | 0 <= i < |[field] + fields| && '_' in ([field] + fields)[i].fieldType
      ensures exists k :: 0 <= k < |all| && Refers(([field] + fields)[i], all[k])
    {
      if i == 0 {
        assert all[|nested| - 1] == nested[|nested| - 1];
      } else {
        assert ([field] + fields)[i] == fields[i - 1];
        var k :| 0 <= k < |structs| && Refers(fields[i - 1], structs[k]);
        assert all[|nested| + k] == structs[k];
      }
    }
  }

  lemma DefinedBeforeUseConcat(a: seq<StructMeta>, b: seq<StructMeta>)
    requires DefinedBeforeUse(a) && DefinedBeforeUse(b)
    ensures DefinedBeforeUse(a + b)
  {
    var s := a + b;
    forall i, k | 0 <= i < |s| && 0 <= k < |s[i].fields| && '_' in s[i].fields[k].fieldType
      ensures exists j :: 0 <= j < i && Refers(s[i].fields[k], s[j])
    {
      if i >= |a| {
        assert s[i] == b[i - |a|];
        var j :| 0 <= j < i - |a| && Refers(b[i - |a|].fields[k], b[j]);
        assert s[j + |a|] == b[j];
      } else {
        assert s[i] == a[i];
        var j :| 0 <= j < i && Refers(a[i].fields[k], a[j]);
        assert s[j] == a[j];
      }
    }
  }

  lemma DefinedBeforeUseAppend(nested: seq<StructMeta>, me: StructMeta)
    requires DefinedBeforeUse(nested)
    requires Resolved(me.fields, nested)
    ensures DefinedBeforeUse(nested + [me])
  {
    var s := nested + [me];
    forall i, k | 0 <= i < |s| && 0 <= k < |s[i].fields| && '_' in s[i].fields[k].fieldType
      ensures exists j :: 0 <= j < i && Refers(s[i].fields[k], s[j])
    {
      if i == |nested| {
        var j :| 0 <= j < |nested| && Refers(me.fields[k], nested[j]);
        assert s[j] == nested[j];
      } else {
        assert s[i] == nested[i];
        var j :| 0 <= j < i && Refers(nested[i].fields[k], nested[j]);
        assert s[j] == nested[j];
      }
    }
  }
}
