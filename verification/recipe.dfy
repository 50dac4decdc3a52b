/**
 * The recipe: the language-neutral description of the structs to generate,
 * as the parser hands it to the template renderer.
 */
module Recipe {

  /** One field of a generated struct. */
  datatype FieldMeta = FieldMeta(
    name: string,          // the generated (identifier-cased) field name
    originalName: string,  // the key as written in the input file
    docString: string,     // documentation lines separated by "\n"
    fieldType: string      // the Go type of the field
  )

  /** One generated struct. */
  datatype StructMeta = StructMeta(
    isRoot: bool,          // true for the struct of the whole file
    name: string,
    docString: string,     // documentation lines separated by "\n"
    fields: seq<FieldMeta>
  )

  /** An import of the generated file. */
  datatype Import = Import(alias: string, path: string)

  /** Everything needed to render one output file. `generateCmd` is set by
      the YAML front end although the Go record it fills does not declare it. */
  datatype StructsRecipe = StructsRecipe(
    outputFilePath: string,
    rootStructName: string,
    generateCmd: string,
    generateDate: string,
    toolName: string,
    pkgName: string,
    imports: seq<Import>,
    structs: seq<StructMeta>
  )
}
