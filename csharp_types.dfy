/** The intermediate representation shared by the C# parser and the TypeScript
    generator: classes (or records) with their auto-properties, and enums with
    their member names. */
module CsharpTypes {

  /** One auto-property: its name as written, its raw type token, and whether
      that token carries the nullable marker `?`. */
  datatype CsProperty = CsProperty(name: string, typeToken: string, nullable: bool)

  /** A class or record, with its properties in declaration order. */
  datatype CsClass = CsClass(name: string, properties: seq<CsProperty>)

  /** An enum, with its member names in declaration order. */
  datatype CsEnum = CsEnum(name: string, values: seq<string>)
}
