/** Values of the decoded JSON documents the catalog returns. */
module Json {

  /** A decoded JSON value. Only strings, integers and arrays of strings are
      ever inspected; every other value (floats such as `orPerCopyNum`,
      booleans, null, nested objects, mixed arrays) is an opaque `Other`,
      told apart from its peers by a tag and never looked into. */
  datatype Value =
    | Str(s: string)
    | Int(i: int)
    | StrList(strs: seq<string>)
    | Other(tag: nat)

  /** One association record: a JSON object, field name to value. */
  type Record = map<string, Value>
}
