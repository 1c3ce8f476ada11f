/** The part of Jackson's tree model that the response extractor walks:
    a parsed JSON value, the `path` lookup, `isArray`/`size`/`get` on arrays,
    and `asText`. The missing node that `path` returns for an absent step is
    `None`. */
module Json {
  import opened Wrappers

  /** A JSON value as Jackson's `readTree` builds it. An object keeps one
      value per key. A number keeps the text that `asText` renders for it. */
  datatype Json =
    | Null
    | Bool(b: bool)
    | Num(rendering: string)
    | Str(s: string)
    | Arr(elems: seq<Json>)
    | Obj(fields: map<string, Json>)

  /** `JsonNode.path(key)`: the member value of an object node; the missing
      node when the key is absent, when the node is not an object, or when the
      node is itself missing. */
  function Path(node: Option<Json>, key: string): Option<Json> {
    if node.Some? && node.value.Obj? && key in node.value.fields then
      Some(node.value.fields[key])
    else
      None
  }

  /** `isArray() && size() > 0`. */
  predicate IsNonEmptyArray(node: Option<Json>) {
    node.Some? && node.value.Arr? && |node.value.elems| > 0
  }

  /** `get(0)` on a non-empty array node. */
  function First(node: Option<Json>): Option<Json>
    requires IsNonEmptyArray(node)
  {
    Some(node.value.elems[0])
  }

  /** `asText()` on a node that is not missing: the string of a text node, the
      rendering of a number, "true"/"false", "null" for the null node, and the
      empty string for arrays and objects. */
  function AsText(node: Json): string {
    match node
    case Str(s) => s
    case Num(rendering) => rendering
    case Bool(b) => if b then "true" else "false"
    case Null => "null"
    case Arr(_) => ""
    case Obj(_) => ""
  }

  /** Outcome of `ObjectMapper.readTree` on the response body: the root node
      (the missing node for a body with no content) or the message of the
      exception it threw. */
  datatype ParseOutcome = Parsed(root: Option<Json>) | ParseFailed(message: string)
}
