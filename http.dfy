/** What the two Flask handlers see of a request and hand back as a response, as values.
    Routing, headers and serialisation are not modelled. */
module Http {
  import Text
  import opened Wrappers

  /** A decoded JSON value. Numbers are kept as integers. */
  datatype Json =
    | JNull
    | JBool(b: bool)
    | JNumber(n: int)
    | JString(s: string)
    | JArray(items: seq<Json>)
    | JObject(fields: map<string, Json>)

  /** The three outcomes of `request.is_json` followed by `request.get_json()`. */
  datatype Request =
    | NotJson                  // `request.is_json` is false
    | MalformedJson            // JSON content type, but a body Flask cannot parse
    | JsonBody(data: Json)     // the parsed body

  /** A handler's reply: a status with a JSON payload, an error with its message, or an
      uncaught Python exception, which Flask turns into a 500 response. */
  datatype Response<T> =
    | Success(status: int, body: T)
    | Failure(status: int, error: string)
    | InternalError

  const OK := 200
  const CREATED := 201
  const BAD_REQUEST := 400
  const NOT_FOUND := 404

  const MissingJson := "Missing JSON in request"
  const MissingName := "Missing 'name' in request"
  /** The message of the 400 response Flask raises itself when the body does not parse. */
  const UnparsableJson := "Bad Request"

  /** Python's `key in data` on a parsed JSON body: key membership for an object, element
      membership for a list, substring test for a string, and a `TypeError` (None) for
      `None`, booleans and numbers. */
  function Contains(data: Json, key: string): (r: Option<bool>)
    ensures data.JObject? ==> r == Some(key in data.fields)
    ensures data.JArray? ==> r == Some(JString(key) in data.items)
    ensures data.JString? ==> r.Some? && (r.value <==> exists i :: OccursAt(key, data.s, i))
    ensures r.None? <==> data.JNull? || data.JBool? || data.JNumber?
  {
    match data
    case JObject(fields) => Some(key in fields)
    case JArray(items) => Some(JString(key) in items)
    case JString(s) => Some(IsSubstring(key, s))
    case _ => None
  }

  /** `key` occurs in `s` starting at position `i`. */
  predicate OccursAt(key: string, s: string, i: int)
  {
    0 <= i && i + |key| <= |s| && s[i..i + |key|] == key
  }

  /** Python's `key in s` for two strings. */
  function IsSubstring(key: string, s: string): (r: bool)
    ensures r <==> exists i :: OccursAt(key, s, i)
    decreases |s|
  {
    if Text.StartsWith(s, key) then
      assert OccursAt(key, s, 0);
      true
    else if |s| <= |key| then
      assert forall i :: OccursAt(key, s, i) ==> i == 0;
      false
    else
      var r := IsSubstring(key, s[1..]);
      assert forall i :: OccursAt(key, s[1..], i) <==> OccursAt(key, s, i + 1) by {
        forall i ensures OccursAt(key, s[1..], i) <==> OccursAt(key, s, i + 1) {
          if 0 <= i && i + |key| <= |s| - 1 {
            assert s[1..][i..i + |key|] == s[i + 1..i + 1 + |key|];
          }
        }
      }
      assert forall i :: OccursAt(key, s, i) ==> i == 0 || OccursAt(key, s[1..], i - 1);
      r
  }
}
