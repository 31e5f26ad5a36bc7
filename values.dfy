/**
 * The dynamically typed values the source stores in its dictionaries: Airtable
 * fields, GitHub results and the data handed to the prompt templates.
 */
module Values {
  import opened Wrappers
  import opened Strings

  /** A scalar Python value: None, a bool, an int or a str. */
  datatype Value = Null | Bool(flag: bool) | Int(num: int) | Str(text: string)

  /** A Python dict from field names to scalar values. */
  type Dict = map<string, Value>

  /** dict.get(key, default) */
  function Get(d: Dict, key: string, default: Value): Value {
    if key in d then d[key] else default
  }

  /** Python truthiness: None, False, 0 and "" are false. */
  predicate Truthy(v: Value) {
    match v
    case Null => false
    case Bool(b) => b
    case Int(n) => n != 0
    case Str(s) => s != ""
  }

  /** str(v), which an f-string placeholder renders. */
  function Render(v: Value): string {
    match v
    case Null => "None"
    case Bool(b) => if b then "True" else "False"
    case Int(n) => IntToString(n)
    case Str(s) => s
  }

  /** The team_data dict handed to the team prompt; each key may be absent. */
  datatype TeamData = TeamData(teamName: Option<Value>, chosenTrack: Option<Value>, members: Option<seq<Dict>>)

  /** An HTTP response as the GitHub helpers use it: the status code, the body decoded as a JSON
      object (body), and, for a body that is a JSON list, the result of looking up each element's
      ['commit']['committer']['date'] (Err holding the text of the exception a failed lookup raises). */
  datatype Response = Response(status: int, body: Dict, items: seq<Result<Value, string>>)

  /** A dict of the single key "error", the shape every failure in the GitHub helpers takes. */
  function ErrorDict(message: string): (d: Dict)
    ensures d.Keys == {"error"} && d["error"] == Str(message)
  {
    map["error" := Str(message)]
  }
}
