/**
 * JSON documents and their serialized text, as used for the Tags and Metadata
 * columns. The text is kept abstract: it records the document it was produced
 * from, so `Loads(Dumps(d)) == d` holds and two texts are equal exactly when the
 * documents they serialize are equal.
 */
module Json {

  /** A JSON value. Numbers are integers here. */
  datatype Value =
    | Null
    | Bool(b: bool)
    | Number(n: int)
    | Str(s: string)
    | Array(items: seq<Value>)
    | Object(members: map<string, Value>)

  /** A Python `Dict[str, Any]` holding JSON-compatible data. */
  type Dict = map<string, Value>

  /** The serialized text of a document, as stored in a TEXT column. */
  datatype Text = Serialized(doc: Dict)

  /** `json.dumps` on a dictionary. */
  function Dumps(d: Dict): (t: Text)
    ensures Loads(t) == d
  {
    Serialized(d)
  }

  /** `json.loads` on text that holds a JSON object. */
  function Loads(t: Text): Dict
  {
    t.doc
  }
}
