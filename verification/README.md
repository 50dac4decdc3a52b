# structgen YAML front end in Dafny

structgen turns a Helm chart's `values.yaml` into Go struct definitions. Its
YAML front end decodes the file and walks the document tree. It produces a
*recipe*: one struct per mapping level, with the key's comments and the
literal default as each field's documentation, and a Go type inferred from
each value. This project models that front end as pure functions and proves
what the walk promises about the recipe.

Modules, in dependency order:

- `Wrappers` (`wrappers.dfy`): `Option` and `Result`.
- `GoStrings` (`gostrings.dfy`) models the parts of Go's `strings` package the
  front end calls: `Split`, `Join`, `TrimSpace`, `TrimLeft(s, "#")`,
  `ReplaceAll`, `TrimSuffix`. Each is specialised to a one-character
  separator, as it is called.
- `GoPaths` (`gopaths.dfy`) models `filepath.Base`, `filepath.Ext`,
  `path.Clean` and `path.Join`, which name the output file.
- `YamlNode` (`yamlnode.dfy`) is the decoded tree:
  - scalars, sequences, mappings, and the alias kind (`Other`);
  - the head, line and foot comments of every node;
  - the flat child list read two at a time (`Pairs`).
- `Recipe` (`recipe.dfy`) holds the records the front end fills: `FieldMeta`,
  `StructMeta`, `Import` and `StructsRecipe`.
- `Infer` (`infer.dfy`) is `infereTypeString`. It is related to an
  independent `GoType` datatype, its rendering, and a parser for that
  rendering.
- `Comments` (`comments.dfy`) is `extractComments`: the `//` doc lines from
  a key's comments and the value's default.
- `Walker` (`walker.dfy`) is the recursive `parse`. The walk over one level
  is `Walk`/`WalkFrom`, and the per-kind `switch`, which gives a field its type and nested structs, is `TypeAndNested`. It is
  related to a reference definition of the fields of a level (`FieldList`)
  and to structural invariants of the emitted struct list.
- `Frontend` (`frontend.dfy`) is `Parse`:
  - naming of the root struct and the output file;
  - the four error results;
  - the recipe header.

## Model

| member | source | states |
|---|---|---|
| Infer.InferType | parser/yaml/yaml.go:158-202 | The type is never empty and never contains `_`. A direct field's type is `any` or a pointer, and a nested scalar's is not a pointer. The type is `any` exactly for the alias kind and for scalars in permissive mode or written `~`. |
| Infer.ScalarTypes | parser/yaml/yaml.go:160-190 | Scalars are `any` when not advanced or null. Otherwise `!!bool`, `!!int` and `!!float` give bool, int and float64, and any other tag gives string. The pointer form is used exactly for a direct field. |
| Infer.CollectionTypes | parser/yaml/yaml.go:191-201 | A mapping is `*map[string]any`. A sequence is `*[]any` when empty or not advanced, and otherwise a slice of its first element typed advanced and nested. The alias kind is `any`. |
| Infer.SequenceTypedByFirst | parser/yaml/yaml.go:195 | Two sequences with the same first element get the same type, whatever their other elements. |
| Infer.NullWordIsString | parser/yaml/yaml.go:165-167 | Only the literal `~` counts as null: a `!!null` scalar written `null` is typed `*string`. |
| Infer.ParseRender | parser/yaml/yaml.go:158-202 | The type rendering is unambiguous: parsing a rendered Go type gives it back. |
| Infer.ScalarType | parser/yaml/yaml.go:169-190 | The Go type chosen for a tag renders as that tag's type name. |
| Infer.InferTypeRenders | parser/yaml/yaml.go:158-202 | Every inferred string is the rendering of a Go type. For a direct field that type is `any` or a pointer; for a nested scalar it is not a pointer. |
| Infer.ScalarRenders | parser/yaml/yaml.go:160-190 | The scalar case of the above. |
| Infer.ElementRenders | parser/yaml/yaml.go:195 | A typed sequence is a pointer to a slice of its first element's type. |
| Infer.InferTypeIsGoType | parser/yaml/yaml.go:158-202 | Every inferred type string parses as a Go type. |
| Comments.DocLine | parser/yaml/yaml.go:211-213 | A comment line becomes a doc line starting with `// `. |
| Comments.DocLineSingle | parser/yaml/yaml.go:209-213 | A doc line made from one line of a comment contains no newline. |
| Comments.CommentLines | parser/yaml/yaml.go:208-215 | A non-empty comment yields one doc line per newline-separated piece and an empty one yields none. Every such line starts with `// ` and has no newline. |
| Comments.CommentLinesPieces | parser/yaml/yaml.go:209-214 | The i-th doc line of a comment is the doc line of its i-th piece. |
| Comments.DefaultLines | parser/yaml/yaml.go:235-250 | Every default-value line starts with `//`. |
| Comments.ExtractComments | parser/yaml/yaml.go:205-253 | There are at least as many lines as comment pieces. Every line starts with `//`, and the comment lines start with `// ` and hold no newline. |
| Comments.CommentOrder | parser/yaml/yaml.go:208-233 | The head comment's lines come first, then the line comment's, then the foot comment's. |
| Comments.DefaultValueLines | parser/yaml/yaml.go:235-250 | After the comment lines, three cases. A value with a literal adds a `//` separator (only after comments) and the `Default value in yaml` line. A non-empty sequence whose first element has no children adds the separator, the header and one `// - ` line per element, in order. Anything else adds nothing. |
| Comments.LiteralDefault | parser/yaml/yaml.go:235-239 | The literal case of the above. |
| Comments.ElementDefaults | parser/yaml/yaml.go:240-249 | The sequence-of-leaves case of the above. |
| Comments.AfterComments | parser/yaml/yaml.go:235-252 | The default lines are exactly what follows the comment lines. |
| Comments.StripDocPrefix | parser/yaml/yaml.go:213 | Removing `// ` is undone by putting it back. |
| Comments.Texts | parser/yaml/yaml.go:213 | Each doc line is `// ` in front of its text. |
| Comments.DocLineOfClean | parser/yaml/yaml.go:211-213 | A comment line with no surrounding white space and no leading `#` is copied verbatim behind `// `. |
| Comments.TextsOfClean | parser/yaml/yaml.go:208-215 | The texts of a clean comment's doc lines are its lines. |
| Comments.CommentRoundTrip | parser/yaml/yaml.go:208-215 | Nothing of a clean comment is lost: stripping `// ` from its doc lines and joining them with newlines gives the comment back. |
| Comments.HashThenSpace | parser/yaml/yaml.go:211-213 | Trimming happens before `#` is removed, so `# x` becomes `//  x` with two spaces. |
| Comments.DefaultLinesSingle | parser/yaml/yaml.go:235-250 | Default lines quoting single-line literals contain no newline. |
| Comments.DocStringLines | parser/yaml/yaml.go:112 | When a field has at least one doc line and no quoted literal spans lines, splitting its doc string at newlines gives back its doc lines. |
| Comments.MultiLineDefault | parser/yaml/yaml.go:112 | A two-line default breaks that: the doc string splits into the default line and a bare second line without `//`. |
| Walker.Kept | parser/yaml/yaml.go:118-120 | No kept pair has the merge key `<<`, and there are never more kept pairs than pairs. |
| Walker.KeptMembers | parser/yaml/yaml.go:118-120 | A pair is kept exactly when it is among the input pairs and its key is not `<<`. |
| Walker.Fields | parser/yaml/yaml.go:104-148 | One field per kept pair. |
| Walker.FieldOf | parser/yaml/yaml.go:107-145 | A pair's field keeps the key's literal as its original name and takes the key's casing as its name. Its type contains `_` exactly when the value has a nested struct, so only references name a struct. |
| Walker.FieldTypeNamesStruct | parser/yaml/yaml.go:122-145 | Inferred types and the untyped alias never contain `_`; a reference to a nested struct always does. |
| Walker.Walk | parser/yaml/yaml.go:97-151 | The walk of a level emits at least one struct. The last one is the level's own, with the given root flag, name and doc string. Its fields are `FieldList` of the level's pairs: one per non-merge key, in order. Each has the identifier-cased name, the original key, the joined doc lines, and the type `FieldType` assigns. |
| Walker.WalkFrom | parser/yaml/yaml.go:104-148 | The fields collected from pair `j` on are `FieldList` of those pairs. |
| Walker.TypeAndNested | parser/yaml/yaml.go:122-145 | The type is `FieldType`: a reference `*Parent_Field` or `*[]Parent_FieldItem` when the value has a nested struct, otherwise the inferred type or, for the alias kind, none. Nested structs are emitted exactly when the value has a nested struct, and the last one is that struct: not a root, named as referenced, carrying the field's doc string, holding its own level's fields. |
| Walker.WalkFromUnfold | parser/yaml/yaml.go:104-148 | A merge key adds nothing. Any other key puts its field in front of the rest and its nested structs before the rest's. |
| Walker.WalkWellFormed | parser/yaml/yaml.go:97-151 | Every struct before a level's own is a non-root struct whose name starts with the level's name and `_`. Every field type naming a struct refers to one emitted earlier. |
| Walker.WalkFromWellFormed | parser/yaml/yaml.go:104-148 | The same for the nested structs of a level, and every reference among the level's fields is resolved by one of them. |
| Walker.KeptFieldWellFormed | parser/yaml/yaml.go:109-147 | Putting one kept field and its nested structs in front of a well-formed rest keeps it well-formed. |
| Walker.TypeAndNestedWellFormed | parser/yaml/yaml.go:122-145 | A value's nested structs are well-formed and named under the parent. A field type that names a struct refers to the last of them. |
| Walker.NestedWellFormed | parser/yaml/yaml.go:123-141 | For a value with a nested struct, the field type is the pointer or slice reference to the last nested struct, which is not a root and has the field's doc string. |
| Walker.WalkFromStep | parser/yaml/yaml.go:147 | Adding a field whose reference is resolved, with its nested structs, to a well-formed rest keeps prefixes, order and resolution. |
| Walker.LeafTypePermissive | parser/yaml/yaml.go:122-145 | In permissive mode a value without a nested struct is `any`, `*[]any`, `*map[string]any` or untyped. |
| Walker.FieldTypePermissive | parser/yaml/yaml.go:122-145 | In permissive mode every field type is one of those or a reference to a nested struct. |
| Walker.FieldListEmitted | parser/yaml/yaml.go:109-147 | Every field of a level is emitted: it is not a merge key, and its type is as above in permissive mode. |
| Walker.WalkEmitted | parser/yaml/yaml.go:97-151 | Every field of every struct the walk emits has that property. |
| Walker.WalkFromEmitted | parser/yaml/yaml.go:104-148 | The same for the nested structs of a level. |
| Walker.TypeAndNestedEmitted | parser/yaml/yaml.go:122-145 | The same for a value's nested structs. |
| Walker.WalkCount | parser/yaml/yaml.go:97-151 | A walk emits one struct for its level plus one per nested level under a non-merge key. |
| Walker.WalkFromCount | parser/yaml/yaml.go:104-148 | The nested structs of a level number the descents of its kept values. |
| Walker.TypeAndNestedCount | parser/yaml/yaml.go:122-145 | A value contributes its nested struct and all structs under it, or nothing. |
| Walker.StructCountIndependent | parser/yaml/yaml.go:97-151 | The mode, the casing function, the names and the doc strings never change how many structs a walk emits. |
| Walker.MergeValueNotEntered | parser/yaml/yaml.go:118-120 | A mapping whose only key is `<<` is walkable whatever its value is, even one the walk could not enter, and its walk is one struct with no fields. |
| Walker.WalkableValue | parser/yaml/yaml.go:104-120 | Each value read from a walkable node is smaller than the node. The value of a key other than `<<` is walkable; the value of a merge key is skipped, so nothing is asked of it. |
| YamlNode.Pairs | parser/yaml/yaml.go:104-106 | Reading the child list two at a time gives half as many pairs as children. |
| YamlNode.PairSmaller | parser/yaml/yaml.go:105-106 | Keys and values are proper parts of their node. |
| Frontend.Parse | parser/yaml/yaml.go:37-94 | The result succeeds exactly when the input decodes to a non-empty document. Otherwise it carries the source's error message for a missing file, an unreadable file, an undecodable file or an empty document. On success it has the header fields: root struct name, output path, package, generate command, date, tool name and the four imports. Its structs are the walk of the first top-level node as the root, documented with the root doc string. |
| Frontend.ParseStructs | parser/yaml/yaml.go:90-91 | The recipe's last struct is the root, named after the file, documented with its path, holding the top level's fields. Every other struct is named under the root. Every reference is defined earlier, and every field is emitted. |
| Frontend.OneRoot | parser/yaml/yaml.go:91-140 | Exactly one struct is the root: the last. |
| Frontend.Options | parser/yaml/yaml.go:38-42 | The first options passed are in force and later ones are ignored. With none, advanced types are off and there is no generate command. |
| Frontend.OptionsKeepShape | parser/yaml/yaml.go:38-42 | The options never change the number of structs. |
| Frontend.BaseName | parser/yaml/yaml.go:54 | The base name is a prefix of the path's last element. It holds no `/` unless the path is slashes only. |
| Frontend.Sanitized | parser/yaml/yaml.go:55 | The base name keeps its length. Every `.` and `-` becomes `_`, and other characters stay in place. |
| Frontend.RootStructName | parser/yaml/yaml.go:55 | The root struct's name is the casing of the base name read character by character, with each `.` and `-` read as `_`. |
| Frontend.RootNameIgnoresSeparators | parser/yaml/yaml.go:55 | Base names that differ only in which of `.`, `-` and `_` separate their words give the same root struct name. |
| Frontend.RootDocString | parser/yaml/yaml.go:90 | The root doc string starts with `// ` and the struct's name, as a Go doc comment does. It is one line when the name and path are. |
| Frontend.BaseNameWithExt | parser/yaml/yaml.go:54 | The base name of `dir/stem.ext` is `stem`: the directory and only the last extension are dropped. |
| Frontend.BaseNameWithoutExt | parser/yaml/yaml.go:54 | A file name without a dot is its own base name. |
| Frontend.OutputFilePath | parser/yaml/yaml.go:56 | The output path is never empty. For a plain file name, `filepath.Base` of it is `<base>.go`, and it is absolute exactly when the output directory is. |
| Frontend.OutputLocation | parser/yaml/yaml.go:56 | The output file is `<base>.go` for an empty or `.` output directory, and `dir/<base>.go` for a plain relative one. |
| GoStrings.TrimSpace | parser/yaml/yaml.go:211 | The result has no white space at either end. It is a slice of the input with only white space around it. |
| GoStrings.TrimLeftHash | parser/yaml/yaml.go:212 | The result is a suffix of the input that does not start with `#`, and everything removed is `#`. |
| GoStrings.ReplaceAll | parser/yaml/yaml.go:55 | The same length. Every occurrence is replaced and every other character is kept. |
| GoStrings.TrimSuffix | parser/yaml/yaml.go:54 | The suffix is removed exactly when present. |
| GoStrings.Split | parser/yaml/yaml.go:209 | At least one piece and no piece contains the separator. |
| GoStrings.JoinEnds | parser/yaml/yaml.go:112 | `strings.Join` of at least one part starts with the first part and ends with the last. |
| GoStrings.JoinSnoc | parser/yaml/yaml.go:112 | Joining one more part adds the separator and that part at the end. |
| GoStrings.SplitJoin | parser/yaml/yaml.go:209 | Joining the pieces with the separator gives back the string. |
| GoStrings.JoinSplit | parser/yaml/yaml.go:112 | Splitting separator-free pieces joined by the separator gives back the pieces. |
| GoStrings.SplitAround | parser/yaml/yaml.go:209 | A separator in the middle splits into the pieces of each side. |
| GoPaths.Base | parser/yaml/yaml.go:54 | `.` for the empty path and `/` for slashes only. Otherwise the last element once trailing slashes are dropped: it ends at the last non-slash character, holds no `/`, and starts after a slash or at the start of the path. |
| GoPaths.Ext | parser/yaml/yaml.go:54 | A suffix of the path that is empty or starts with its only dot and has no `/`. It is empty exactly when the last element has no dot. |
| GoPaths.JoinPath | parser/yaml/yaml.go:56 | The result is empty only when both arguments are. A plain element joined on is the result's last element, and the result is absolute exactly when the directory is. |
| GoPaths.Clean | parser/yaml/yaml.go:56 | The cleaned path is never empty and is rooted exactly when the input is. A plain last element stays the last element. |
| GoPaths.JoinPlain | parser/yaml/yaml.go:56 | Joining a plain name onto a plain relative directory is concatenation with `/`. |
| GoPaths.JoinDot | parser/yaml/yaml.go:56 | Joining onto `.` gives the name itself. |
| GoPaths.CleanPlain | parser/yaml/yaml.go:56 | Cleaning a plain relative path changes nothing. |

## Left out

- Reading and decoding the file is not modelled. The `Input` datatype stands
  for what `os.Open` and the YAML decoder give: a missing file, another open
  error with its message, a decoding error with its message, or the
  document's top-level nodes.
- `strcase.ToCamel` is a parameter of the parser (`toCamel`). Its casing
  rules belong to a library that is not part of this model.
- `time.Now().Format(time.DateOnly)` is the `today` parameter.
- `New`, the parser factory, the command line, the options setters and the
  template rendering of the recipe (`parser/recipe/recipe.go`,
  `generator.go`, `flags.go`) are not part of this model.
- `handleParseOptions` mutates the parser. It is modelled by building the
  parser value from the first options, which is its whole effect.
- Walker.Walk: requires the child list of every node the walk enters to
  have even length (`Walkable`). The walk never enters the value of a `<<`
  key, so the requirement says nothing about such values. A sequence walked
  as a struct (the first element of a sequence of sequences) may have odd
  length, and the source then indexes past the end and panics. The model
  excludes that input rather than modelling the panic.
- Frontend.Parse: carries the same requirement for the document's first
  node.
- Walker.WalkWellFormed: does not state that nested struct names are
  distinct. Two keys that case to the same identifier produce duplicate
  names in the source too.
- GoPaths.JoinPath: `path.Clean` is modelled by its element rules
  (drop empty and `.` elements, cancel `..`). Its exact result is stated
  for plain relative directories, `.` and the empty directory only; for
  other directories only the last element and rootedness are stated.
- GoPaths.Base: `filepath.Base` and `filepath.Ext` are modelled for hosts
  whose only separator is `/`, without volume names. On Windows they also
  split at `\` and drop a volume name, so `BaseName`, `RootStructName` and
  `OutputFilePath` can differ there.
- Comments.DocStringLines: requires a non-empty list of doc lines, because
  a field with none has the doc string `""`, which splits into one empty
  piece. It also requires single-line literals. Doc strings of
  multi-line defaults are left as the source builds them, and
  Comments.MultiLineDefault shows what happens then.
- The `StructsRecipe` record in `parser/recipe/recipe.go` has no
  `GenerateCmd` field, although the front end sets one. The model keeps the
  field, as the front end writes it.
