/**
 * Decoding of a generative-text (Bedrock) response body. The page code parses the body
 * with `json.loads` and then picks the text with a fixed three-branch precedence; the
 * same block appears for the request summary and for the corrective message.
 */
module Bedrock {
  import opened Wrappers
  import Text

  /** A parsed JSON value. Numbers are integers here. */
  datatype Json =
    | JNull
    | JBool(b: bool)
    | JNumber(n: int)
    | JString(s: string)
    | JArray(items: seq<Json>)
    | JObject(fields: map<string, Json>)

  /** A response body: the decoded UTF-8 text and what `json.loads` made of it. */
  datatype Response = Response(raw: string, body: Json)

  /** The Python exceptions the decode block can raise on an unexpected body shape. */
  datatype DecodeError =
    | TypeError    // `in` on a number, bool or null; a string or list indexed by a key; `[0]` on a number or bool
    | KeyError     // `[0]` on an object
    | AttributeError  // `.get` on something that is not an object

  /** Python truthiness of a JSON value. */
  predicate Truthy(j: Json) {
    match j
    case JNull => false
    case JBool(b) => b
    case JNumber(n) => n != 0
    case JString(s) => s != ""
    case JArray(items) => items != []
    case JObject(fields) => fields != map[]
  }

  /** `d.get(key)`: the value, or `None` (here JNull) when the key is absent. */
  function Get(fields: map<string, Json>, key: string): Json {
    if key in fields then fields[key] else JNull
  }

  /** `a or b or c or d`: the first truthy operand, else the last one whatever it is. */
  function FirstTruthy(a: Json, b: Json, c: Json, d: Json): Json {
    if Truthy(a) then a else if Truthy(b) then b else if Truthy(c) then c else d
  }

  /** `result0.get("outputText") or result0.get("output") or result0.get("generatedText") or raw`. */
  function FromFirstResult(result0: Json, raw: string): Result<Json, DecodeError> {
    match result0
    case JObject(r0) =>
      Success(FirstTruthy(Get(r0, "outputText"), Get(r0, "output"), Get(r0, "generatedText"), JString(raw)))
    case _ => Failure(AttributeError)
  }

  /**
   * The decode block: `"outputText" in body` wins, else a truthy `body["results"]` gives
   * `results[0]`'s first truthy text field, else the raw body text.
   */
  function Decode(resp: Response): (r: Result<Json, DecodeError>)
    ensures resp.body.JObject? && "outputText" in resp.body.fields ==> r == Success(resp.body.fields["outputText"])
    ensures resp.body.JObject? && "outputText" !in resp.body.fields
            && ("results" !in resp.body.fields || !Truthy(resp.body.fields["results"]))
            ==> r == Success(JString(resp.raw))
  {
    match resp.body
    case JObject(m) =>
      if "outputText" in m then Success(m["outputText"])
      else if "results" in m && Truthy(m["results"]) then
        match m["results"]
        case JArray(items) => FromFirstResult(items[0], resp.raw)
        case JString(_) => Failure(AttributeError)
        case JObject(_) => Failure(KeyError)
        case _ => Failure(TypeError)
      else Success(JString(resp.raw))
    case JString(s) =>
      if Text.Contains(s, "outputText") then Failure(TypeError)
      else if Text.Contains(s, "results") && s != "" then Failure(TypeError)
      else Success(JString(resp.raw))
    case JArray(items) =>
      if JString("outputText") in items then Failure(TypeError)
      else if JString("results") in items && items != [] then Failure(TypeError)
      else Success(JString(resp.raw))
    case _ => Failure(TypeError)
  }

  /**
   * The middle branch: with no top-level `outputText` and a non-empty `results` list whose
   * first element is an object, the text is that object's first truthy field of
   * `outputText`, `output`, `generatedText`, in that order, and otherwise the raw body.
   */
  lemma DecodeFromResults(resp: Response, r0: map<string, Json>, more: seq<Json>)
    requires resp.body.JObject? && "outputText" !in resp.body.fields
    requires "results" in resp.body.fields && resp.body.fields["results"] == JArray([JObject(r0)] + more)
    ensures Decode(resp).Success?
    ensures var v := Decode(resp).value;
      if Truthy(Get(r0, "outputText")) then v == r0["outputText"]
      else if Truthy(Get(r0, "output")) then v == r0["output"]
      else if Truthy(Get(r0, "generatedText")) then v == r0["generatedText"]
      else v == JString(resp.raw)
  {
  }

  /** Which fields of the body the decode looks at: only `outputText` and `results`. */
  predicate AgreeOnDecodedFields(m1: map<string, Json>, m2: map<string, Json>) {
    && ("outputText" in m1 <==> "outputText" in m2)
    && ("outputText" in m1 ==> m1["outputText"] == m2["outputText"])
    && ("results" in m1 <==> "results" in m2)
    && ("results" in m1 ==> m1["results"] == m2["results"])
  }

  /** No other top-level field is consulted: bodies that agree on the two fields decode alike. */
  lemma DecodeConsultsOnlyTwoFields(raw: string, m1: map<string, Json>, m2: map<string, Json>)
    requires AgreeOnDecodedFields(m1, m2)
    ensures Decode(Response(raw, JObject(m1))) == Decode(Response(raw, JObject(m2)))
  {
  }

  /** A successful decode yields the top-level `outputText`, a truthy text field of `results[0]`, or the raw body. */
  lemma DecodeOrigin(resp: Response)
    requires Decode(resp).Success?
    ensures var v := Decode(resp).value;
      || v == JString(resp.raw)
      || (resp.body.JObject? && "outputText" in resp.body.fields && v == resp.body.fields["outputText"])
      || (resp.body.JObject? && "results" in resp.body.fields && resp.body.fields["results"].JArray?
          && |resp.body.fields["results"].items| > 0 && resp.body.fields["results"].items[0].JObject?
          && Truthy(v)
          && exists k :: k in ["outputText", "output", "generatedText"] && Get(resp.body.fields["results"].items[0].fields, k) == v)
  {
    var v := Decode(resp).value;
    if resp.body.JObject? && "outputText" !in resp.body.fields && "results" in resp.body.fields
       && Truthy(resp.body.fields["results"]) && resp.body.fields["results"].JArray? {
      var r0 := resp.body.fields["results"].items[0];
      if r0.JObject? {
        var f := r0.fields;
        if Truthy(Get(f, "outputText")) {
          assert Get(f, "outputText") == v;
        } else if Truthy(Get(f, "output")) {
          assert Get(f, "output") == v;
        } else if Truthy(Get(f, "generatedText")) {
          assert Get(f, "generatedText") == v;
        }
      }
    }
  }
}
