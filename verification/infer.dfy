/**
 * Type inference for one YAML node: the Go type string a field (or a
 * sequence element) gets from the node's kind, tag and literal value.
 */
module Infer {
  import opened Wrappers
  import opened YamlNode

  /** The literal YAML uses for null; no other spelling is recognised. */
  const NullValue: string := "~"

  /** The bare Go type a scalar tag stands for; unknown tags are strings. */
  function ScalarGoType(tag: string): string {
    if tag == "!!bool" then "bool"
    else if tag == "!!int" then "int"
    else if tag == "!!float" then "float64"
    else "string"
  }

  /**
   * The Go type of `n`. `advanced` selects narrow scalar types instead of
   * `any`; `isNested` marks an element inside a sequence, which gets the bare
   * type, whereas a struct field gets the pointer form. Sequences are typed
   * from their first element, always in advanced nested mode.
   */
  function InferType(n: Node, advanced: bool, isNested: bool): (r: string)
    ensures r != []
    ensures '_' !in r
    ensures !isNested ==> r == "any" || r[0] == '*'
    ensures n.Scalar? && isNested ==> r[0] != '*'
    ensures r == "any" <==> n.Other? || (n.Scalar? && (!advanced || n.value == NullValue))
  {
    match n
    case Scalar(tag, value, _) =>
      if !advanced then "any"
      else if value == NullValue then "any"
      else (if isNested then "" else "*") + ScalarGoType(tag)
    case Sequence(items, _) =>
      if |items| == 0 || !advanced then "*[]any"
      else "*[]" + InferType(items[0], true, true)
    case Mapping(_, _) => "*map[string]any"
    case Other(_, _) => "any"
  }

  /** Scalars: `any` in permissive mode and for the null literal, otherwise the
      tag's type, as a pointer exactly when the scalar is a direct field. */
  lemma ScalarTypes(tag: string, value: string, c: Comments, advanced: bool, isNested: bool)
    ensures var r := InferType(Scalar(tag, value, c), advanced, isNested);
      && (!advanced || value == NullValue ==> r == "any")
      && (advanced && value != NullValue && tag == "!!bool" ==> r == if isNested then "bool" else "*bool")
      && (advanced && value != NullValue && tag == "!!int" ==> r == if isNested then "int" else "*int")
      && (advanced && value != NullValue && tag == "!!float" ==> r == if isNested then "float64" else "*float64")
      && (advanced && value != NullValue && tag !in {"!!bool", "!!int", "!!float"} ==>
            r == if isNested then "string" else "*string")
  {
  }

  /** Collections: a mapping is always a map of `any`; a sequence is a slice of
      `any` when empty or in permissive mode, and otherwise a slice of its first
      element's advanced nested type. Other kinds are `any`. */
  lemma CollectionTypes(n: Node, advanced: bool, isNested: bool)
    ensures n.Mapping? ==> InferType(n, advanced, isNested) == "*map[string]any"
    ensures n.Sequence? && (|n.items| == 0 || !advanced) ==> InferType(n, advanced, isNested) == "*[]any"
    ensures n.Sequence? && |n.items| > 0 && advanced ==>
              InferType(n, advanced, isNested) == "*[]" + InferType(n.items[0], true, true)
    ensures n.Other? ==> InferType(n, advanced, isNested) == "any"
  {
  }

  /** Only the first element of a sequence matters: sequences that agree on it
      get the same type whatever their other elements. */
  lemma SequenceTypedByFirst(a: seq<Node>, b: seq<Node>, ca: Comments, cb: Comments, advanced: bool, isNested: bool)
    requires |a| > 0 && |b| > 0 && a[0] == b[0]
    ensures InferType(Sequence(a, ca), advanced, isNested) == InferType(Sequence(b, cb), advanced, isNested)
  {
  }

  /** The `null` spelling is not the null literal: a `!!null` scalar written
      `null` is typed as a string in advanced mode. */
  lemma NullWordIsString(c: Comments)
    ensures InferType(Scalar("!!null", "null", c), true, false) == "*string"
    ensures InferType(Scalar("!!null", "~", c), true, false) == "any"
  {
  }

  /** The Go types inference can produce. */
  datatype GoType = Any | Bool | Int | Float64 | String | MapOfAny | Pointer(elem: GoType) | Slice(elem: GoType)

  /** Go syntax for a type. */
  function Render(t: GoType): string {
    match t
    case Any => "any"
    case Bool => "bool"
    case Int => "int"
    case Float64 => "float64"
    case String => "string"
    case MapOfAny => "map[string]any"
    case Pointer(e) => "*" + Render(e)
    case Slice(e) => "[]" + Render(e)
  }

  /** Reads a type written in the syntax `Render` produces. */
  function ParseGoType(s: string): Option<GoType>
    decreases |s|
  {
    if s == "any" then Some(Any)
    else if s == "bool" then Some(Bool)
    else if s == "int" then Some(Int)
    else if s == "float64" then Some(Float64)
    else if s == "string" then Some(String)
    else if s == "map[string]any" then Some(MapOfAny)
    else if |s| >= 1 && s[0] == '*' then
      match ParseGoType(s[1..])
      case Some(e) => Some(Pointer(e))
      case None => None
    else if |s| >= 2 && s[..2] == "[]" then
      match ParseGoType(s[2..])
      case Some(e) => Some(Slice(e))
      case None => None
    else None
  }

  /** Rendering is unambiguous: parsing a rendered type gives the type back. */
  lemma {:induction false} ParseRender(t: GoType)
    ensures ParseGoType(Render(t)) == Some(t)
  {
    match t
    case Pointer(e) =>
      ParseRender(e);
      assert Render(t)[1..] == Render(e);
    case Slice(e) =>
      ParseRender(e);
      assert Render(t)[2..] == Render(e);
    case _ =>
  }

  /** The type a scalar tag stands for. */
  function ScalarType(tag: string): (t: GoType)
    ensures Render(t) == ScalarGoType(tag)
  {
    if tag == "!!bool" then Bool
    else if tag == "!!int" then Int
    else if tag == "!!float" then Float64
    else String
  }

  /** Every inferred type string is the rendering of a Go type; a direct
      field's type is `any` or a pointer, and a scalar element's type
      is not a pointer. */
  lemma {:induction false} InferTypeRenders(n: Node, advanced: bool, isNested: bool) returns (t: GoType)
    ensures Render(t) == InferType(n, advanced, isNested)
    ensures !isNested ==> t == Any || t.Pointer?
    ensures n.Scalar? && isNested ==> !t.Pointer?
  {
    match n
    case Sequence(items, c) =>
      if |items| == 0 || !advanced {
        t := Pointer(Slice(Any));
        assert Render(t) == "*[]any";
      } else {
        var e := InferTypeRenders(items[0], true, true);
        t := ElementRenders(items, c, e);
      }
    case Mapping(_, _) =>
      t := Pointer(MapOfAny);
      assert Render(t) == "*map[string]any";
    case Scalar(tag, value, c) =>
      t := ScalarRenders(tag, value, c, advanced, isNested);
    case Other(_, _) =>
      t := Any;
  }

  /** A typed sequence renders as a pointer to a slice of its first element's type. */
  lemma ElementRenders(items: seq<Node>, c: Comments, e: GoType) returns (t: GoType)
    requires |items| > 0 && Render(e) == InferType(items[0], true, true)
    ensures t == Pointer(Slice(e))
    ensures forall isNested :: Render(t) == InferType(Sequence(items, c), true, isNested)
  {
    t := Pointer(Slice(e));
    assert Render(t) == "*" + ("[]" + Render(e)) == "*[]" + Render(e);
  }

  /** The type of a scalar as a Go type. */
  lemma ScalarRenders(tag: string, value: string, c: Comments, advanced: bool, isNested: bool) returns (t: GoType)
    ensures Render(t) == InferType(Scalar(tag, value, c), advanced, isNested)
    ensures !isNested ==> t == Any || t.Pointer?
    ensures isNested ==> !t.Pointer?
  {
    if !advanced || value == NullValue {
      t := Any;
    } else if isNested {
      t := ScalarType(tag);
      assert "" + ScalarGoType(tag) == ScalarGoType(tag);
    } else {
      t := Pointer(ScalarType(tag));
    }
  }

  /** Every inferred type string parses as a Go type. */
  lemma InferTypeIsGoType(n: Node, advanced: bool, isNested: bool)
    ensures ParseGoType(InferType(n, advanced, isNested)).Some?
  {
    var t := InferTypeRenders(n, advanced, isNested);
    ParseRender(t);
  }
}
