/**
 * The YAML front end's entry point: it names the output after the input
 * file, reports why an input cannot be used, and otherwise walks the
 * document's top-level node as the root struct.
 */
module Frontend {
  import opened Wrappers
  import opened GoStrings
  import opened GoPaths
  import opened YamlNode
  import opened Recipe
  import opened Walker

  /** The generator's name as recorded in every recipe. */
  const ToolName: string := "CHART_VALUES_STRUCT_GENERATOR"

  /** The packages every generated file imports, without aliases. */
  const StandardImports: seq<Import> :=
    [Import("", "fmt"), Import("", "encoding/json"), Import("", "reflect"), Import("", "strings")]

  /** The options of one parse call. */
  datatype ParseOptions = ParseOptions(advancedTypesEnabled: bool, generateCmd: string)

  /** The options in force: the first ones passed, or all-zero options when none are. */
  function Options(opts: seq<ParseOptions>): (r: ParseOptions)
    ensures opts != [] ==> r == opts[0]
    ensures opts == [] ==> !r.advancedTypesEnabled && r.generateCmd == []
  {
    if |opts| > 0 then opts[0] else ParseOptions(false, "")
  }

  /** What opening and decoding the input file gave: the file does not exist,
      cannot be opened for another reason, does not decode, or decodes into a
      document whose top-level nodes are `content`. */
  datatype Input =
    | Missing
    | Unreadable(cause: string)
    | Undecodable(cause: string)
    | Decoded(content: seq<Node>)

  /** The input file's name without its directory and extension. */
  function BaseName(filePath: string): (r: string)
    ensures HasPrefix(Base(filePath), r)
    ensures (exists i :: 0 <= i < |filePath| && filePath[i] != '/') ==> '/' !in r
  {
    var base := Base(filePath);
    var r := TrimSuffix(base, Ext(filePath));
    assert r == base[..|r|];
    if '/' !in base then
      NotInSlice(base, '/', 0, |r|);
      r
    else r
  }

  /** The base name with dots and dashes turned into underscores, ready for
      identifier casing. */
  function Sanitized(baseName: string): (r: string)
    ensures |r| == |baseName|
    ensures '.' !in r && '-' !in r
    ensures forall i :: 0 <= i < |r| && baseName[i] != '.' && baseName[i] != '-' ==> r[i] == baseName[i]
    ensures forall i :: 0 <= i < |r| && (baseName[i] == '.' || baseName[i] == '-') ==> r[i] == '_'
  {
    ReplaceAll(ReplaceAll(baseName, '.', '_'), '-', '_')
  }

  /** A file-name character as it enters an identifier: dots and dashes
      become underscores. */
  function IdentifierChar(c: char): char {
    if c == '.' || c == '-' then '_' else c
  }

  /** The root struct's name: the identifier casing of the base name read
      character by character with dots and dashes as underscores. */
  function RootStructName(toCamel: string -> string, baseName: string): (r: string)
    ensures r == toCamel(seq(|baseName|, i requires 0 <= i < |baseName| => IdentifierChar(baseName[i])))
  {
    var s := Sanitized(baseName);
    assert s == seq(|baseName|, i requires 0 <= i < |baseName| => IdentifierChar(baseName[i]));
    toCamel(s)
  }

  /** Base names that differ only in which of `.`, `-` and `_` separate
      their words give the same root struct name. */
  lemma RootNameIgnoresSeparators(toCamel: string -> string, a: string, b: string)
    requires |a| == |b|
    requires forall i :: 0 <= i < |a| ==> IdentifierChar(a[i]) == IdentifierChar(b[i])
    ensures RootStructName(toCamel, a) == RootStructName(toCamel, b)
  {
    assert seq(|a|, i requires 0 <= i < |a| => IdentifierChar(a[i]))
        == seq(|b|, i requires 0 <= i < |b| => IdentifierChar(b[i]));
  }

  /** The generated file: `<base name>.go` in the output directory. */
  function OutputFilePath(outDir: string, baseName: string): (r: string)
    ensures r != []
    ensures PlainElement(baseName + ".go") ==> Base(r) == baseName + ".go"
    ensures PlainElement(baseName + ".go") ==> (r[0] == '/' <==> outDir != [] && outDir[0] == '/')
  {
    var name := baseName + ".go";
    var r := JoinPath(outDir, name);
    if PlainElement(name) then
      BaseOfLastElement(r, name);
      r
    else r
  }

  /** The root struct's documentation, naming the struct and the input file. */
  function RootDocString(rootStructName: string, filePath: string): (r: string)
    ensures HasPrefix(r, "// " + rootStructName + " ")
    ensures '\n' !in rootStructName && '\n' !in filePath ==> '\n' !in r
  {
    var head := "// " + rootStructName + " ";
    var r := head + "represents the values of the " + filePath + " chart";
    assert r[..|head|] == head;
    r
  }

  /** The input is a decoded non-empty document. */
  predicate Usable(input: Input) {
    input.Decoded? && |input.content| > 0
  }

  /**
   * A parse: the recipe for the input file, or the reason it cannot be
   * produced. `toCamel` is the identifier-casing function and `today` the
   * generation date, both supplied from outside.
   */
  function Parse(input: Input, filePath: string, outDir: string, pkgName: string, opts: seq<ParseOptions>,
                 toCamel: string -> string, today: string): (r: Result<StructsRecipe, string>)
    requires Usable(input) ==> Walkable(input.content[0])
    ensures r.Success? <==> Usable(input)
    ensures input.Missing? ==> r == Failure("file " + filePath + " does not exist")
    ensures input.Unreadable? ==> r == Failure("error reading file " + filePath + ": " + input.cause)
    ensures input.Undecodable? ==> r == Failure("error decoding yaml value from file " + filePath + ": " + input.cause)
    ensures input == Decoded([]) ==> r == Failure("empty file " + filePath)
    ensures r.Success? ==>
      && r.value.rootStructName == RootStructName(toCamel, BaseName(filePath))
      && r.value.outputFilePath == OutputFilePath(outDir, BaseName(filePath))
      && r.value.pkgName == pkgName && r.value.generateCmd == Options(opts).generateCmd
      && r.value.generateDate == today && r.value.toolName == ToolName && r.value.imports == StandardImports
    ensures r.Success? ==>
      r.value.structs == Walk(Parser(Options(opts).advancedTypesEnabled, toCamel), r.value.rootStructName, input.content[0],
                              RootDocString(r.value.rootStructName, filePath), true)
  {
    var opt := Options(opts);
    var p := Parser(opt.advancedTypesEnabled, toCamel);
    match input
    case Missing => Failure("file " + filePath + " does not exist")
    case Unreadable(cause) => Failure("error reading file " + filePath + ": " + cause)
    case Undecodable(cause) => Failure("error decoding yaml value from file " + filePath + ": " + cause)
    case Decoded(content) =>
      if |content| == 0 then Failure("empty file " + filePath)
      else
        var baseName := BaseName(filePath);
        var rootStructName := RootStructName(toCamel, baseName);
        var docString := RootDocString(rootStructName, filePath);
        Success(StructsRecipe(
          OutputFilePath(outDir, baseName), rootStructName, opt.generateCmd, today, ToolName, pkgName,
          StandardImports, Walk(p, rootStructName, content[0], docString, true)))
  }

  /** The structs of a recipe: the root struct last, named after the file and
      documented with its path, holding the fields of the document's top-level
      mapping; before it the nested structs, named under the root, each
      emitted before any struct referring to it. */
  lemma ParseStructs(input: Input, filePath: string, outDir: string, pkgName: string, opts: seq<ParseOptions>,
                     toCamel: string -> string, today: string)
    requires Usable(input) && Walkable(input.content[0])
    ensures var rcp := Parse(input, filePath, outDir, pkgName, opts, toCamel, today).value;
      var structs := rcp.structs;
      var p := Parser(Options(opts).advancedTypesEnabled, toCamel);
      && |structs| >= 1
      && structs[|structs| - 1] == StructMeta(true, rcp.rootStructName, RootDocString(rcp.rootStructName, filePath),
           FieldList(p, rcp.rootStructName, Pairs(input.content[0])))
      && NestedUnder(structs[..|structs| - 1], rcp.rootStructName)
      && DefinedBeforeUse(structs)
      && AllEmitted(p, structs)
  {
    var rcp := Parse(input, filePath, outDir, pkgName, opts, toCamel, today).value;
    var p := Parser(Options(opts).advancedTypesEnabled, toCamel);
    var doc := RootDocString(rcp.rootStructName, filePath);
    WalkWellFormed(p, rcp.rootStructName, input.content[0], doc, true);
    WalkEmitted(p, rcp.rootStructName, input.content[0], doc, true);
  }

  /** Exactly one struct of a recipe is the root, and it comes last. */
  lemma OneRoot(input: Input, filePath: string, outDir: string, pkgName: string, opts: seq<ParseOptions>,
                toCamel: string -> string, today: string)
    requires Usable(input) && Walkable(input.content[0])
    ensures var structs := Parse(input, filePath, outDir, pkgName, opts, toCamel, today).value.structs;
      forall i :: 0 <= i < |structs| ==> (structs[i].isRoot <==> i == |structs| - 1)
  {
    var structs := Parse(input, filePath, outDir, pkgName, opts, toCamel, today).value.structs;
    ParseStructs(input, filePath, outDir, pkgName, opts, toCamel, today);
    forall i | 0 <= i < |structs| - 1
      ensures !structs[i].isRoot
    {
      assert structs[i] == structs[..|structs| - 1][i];
    }
  }

  /** The options only change field types: the recipe has the same number of
      structs whichever options are passed. */
  lemma OptionsKeepShape(input: Input, filePath: string, outDir: string, pkgName: string,
                         opts1: seq<ParseOptions>, opts2: seq<ParseOptions>, toCamel: string -> string, today: string)
    requires Usable(input) && Walkable(input.content[0])
    ensures |Parse(input, filePath, outDir, pkgName, opts1, toCamel, today).value.structs|
         == |Parse(input, filePath, outDir, pkgName, opts2, toCamel, today).value.structs|
  {
    var baseName := BaseName(filePath);
    var name := RootStructName(toCamel, baseName);
    var doc := RootDocString(name, filePath);
    StructCountIndependent(Parser(Options(opts1).advancedTypesEnabled, toCamel), Parser(Options(opts2).advancedTypesEnabled, toCamel),
                           name, name, input.content[0], doc, doc, true, true);
  }

  /** The base name of `dir/stem.ext` is `stem`: the directory and the last
      extension are dropped, earlier dots stay. */
  lemma BaseNameWithExt(dir: string, stem: string, ext: string)
    requires DirPrefix(dir) && '/' !in stem && '/' !in ext && '.' !in ext
    ensures BaseName(dir + stem + "." + ext) == stem
  {
    var path := dir + stem + "." + ext;
    var name := stem + "." + ext;
    var dotExt := "." + ext;
    assert name == stem + dotExt && path == dir + name && path == (dir + stem) + dotExt;
    assert '/' !in name by {
      assert forall c :: c in name ==> c in stem || c in dotExt;
    }
    BaseOfName(dir, name);
    ExtOfName(dir + stem, ext);
    assert HasSuffix(name, dotExt) && name[..|name| - |dotExt|] == stem;
  }

  /** A file name without a dot is its own base name. */
  lemma BaseNameWithoutExt(dir: string, name: string)
    requires DirPrefix(dir) && name != [] && '/' !in name && '.' !in name
    ensures BaseName(dir + name) == name
  {
    BaseOfName(dir, name);
    AfterLastSlashOfName(dir, name);
  }

  /** The output file lies directly in a plain output directory, or in the
      working directory when the output directory is empty or `.`. */
  lemma OutputLocation(outDir: string, baseName: string)
    requires PlainElement(baseName + ".go")
    ensures outDir == [] ==> OutputFilePath(outDir, baseName) == baseName + ".go"
    ensures outDir == "." ==> OutputFilePath(outDir, baseName) == baseName + ".go"
    ensures PlainRelative(outDir) ==> OutputFilePath(outDir, baseName) == outDir + "/" + baseName + ".go"
  {
    if outDir == [] {
      assert !PlainElement(Split(outDir, '/')[0]);
      JoinEmpty(baseName + ".go");
    } else if outDir == "." {
      assert !PlainRelative(outDir) by {
        SplitWithoutSep(".", '/');
        assert !PlainElement(Split(".", '/')[0]);
      }
      JoinDot(baseName + ".go");
    } else if PlainRelative(outDir) {
      JoinPlain(outDir, baseName + ".go");
    }
  }
}
