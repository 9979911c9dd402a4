/** An already-tokenised JSON document, as org.json hands it to the service,
    and the typed getters of `JSONObject` that the face parser calls. */
module Json {
  import opened Results

  /** A JSON value. Object members are kept in a map: org.json stores them in a
      hash map, so member order is not observable. */
  datatype JValue =
    | JNull
    | JBool(b: bool)
    | JNum(n: real)
    | JStr(s: string)
    | JArr(items: seq<JValue>)
    | JObj(fields: map<string, JValue>)

  type JObject = map<string, JValue>

  /** The `JSONException` a typed getter throws, with the key it was asked for. */
  datatype JsonError =
    | NotFound(key: string)
    | NotAJSONObject(key: string)
    | NotANumber(key: string)

  /** The error names a real defect of `obj`: the key is absent, or holds a value of the wrong kind. */
  predicate Reports(obj: JObject, e: JsonError) {
    match e
    case NotFound(key) => key !in obj
    case NotAJSONObject(key) => key in obj && !obj[key].JObj?
    case NotANumber(key) => key in obj && !obj[key].JNum?
  }

  /** `Number.intValue()`: the integer part, truncated toward zero. */
  function IntValue(n: real): (r: int)
    ensures 0.0 <= n ==> 0 <= r && r as real <= n < r as real + 1.0
    ensures n < 0.0 ==> r <= 0 && r as real - 1.0 < n <= r as real
  {
    if n >= 0.0 then n.Floor else -((-n).Floor)
  }

  /** `JSONObject.getJSONObject(key)`. */
  function GetJSONObject(obj: JObject, key: string): (r: Result<JObject, JsonError>)
    ensures r.Ok? <==> key in obj && obj[key].JObj?
    ensures r.Ok? ==> JObj(r.value) == obj[key]
    ensures r.Err? ==> r.error.key == key && !r.error.NotANumber? && Reports(obj, r.error)
  {
    if key !in obj then Err(NotFound(key))
    else if obj[key].JObj? then Ok(obj[key].fields)
    else Err(NotAJSONObject(key))
  }

  /** `JSONObject.getInt(key)`. */
  function GetInt(obj: JObject, key: string): (r: Result<int, JsonError>)
    ensures r.Ok? <==> key in obj && obj[key].JNum?
    ensures r.Ok? ==> r.value == IntValue(obj[key].n)
    ensures r.Err? ==> r.error.key == key && !r.error.NotAJSONObject? && Reports(obj, r.error)
  {
    if key !in obj then Err(NotFound(key))
    else if obj[key].JNum? then Ok(IntValue(obj[key].n))
    else Err(NotANumber(key))
  }

  /** `JSONObject.getDouble(key)`. */
  function GetDouble(obj: JObject, key: string): (r: Result<real, JsonError>)
    ensures r.Ok? <==> key in obj && obj[key].JNum?
    ensures r.Ok? ==> obj[key] == JNum(r.value)
    ensures r.Err? ==> r.error.key == key && !r.error.NotAJSONObject? && Reports(obj, r.error)
  {
    if key !in obj then Err(NotFound(key))
    else if obj[key].JNum? then Ok(obj[key].n)
    else Err(NotANumber(key))
  }
}
