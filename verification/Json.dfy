/** JSON values, and the argument accessors of the tool layer. */
module Json {

  import opened Base

  datatype Json =
    | Null
    | Bool(truth: bool)
    | Number(number: int)
    | Str(text: Text)
    | Array(items: seq<Json>)
    | Object(members: map<string, Json>)

  /** What a tool call throws, by cause. */
  datatype ToolError =
    | MustBeObject
    | MustBeArray
    | MissingString(key: string)
    | MustBeString(key: string)
    | MustBeBoolean(key: string)
    | UnsupportedOperation(kind: Text)
    | EmptyFindText
    | NoMatch(kind: Text)

  function RequireString(members: map<string, Json>, key: string): Result<Text, ToolError> {
    if key in members && members[key].Str? then Ok(members[key].text) else Err(MissingString(key))
  }

  function OptionalString(members: map<string, Json>, key: string, fallback: Text): Result<Text, ToolError> {
    if key !in members then Ok(fallback)
    else if members[key].Str? then Ok(members[key].text)
    else Err(MustBeString(key))
  }

  function OptionalBool(members: map<string, Json>, key: string, fallback: bool): Result<bool, ToolError> {
    if key !in members then Ok(fallback)
    else if members[key].Bool? then Ok(members[key].truth)
    else Err(MustBeBoolean(key))
  }
}
