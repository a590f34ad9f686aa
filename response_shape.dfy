/** How the web front end turns the model's JSON answer into rows: a missing
    or empty answer is an error before any parsing; a parsed array is the
    answer; a parsed object yields its first array-valued property; anything
    else is an invalid structure. Errors reach the caller unchanged. */
module ResponseShape {
  import opened Wrappers

  /** A parsed JSON value; object members in property order. Numbers are integers here. */
  datatype Json =
    | JNull
    | JBool(b: bool)
    | JNumber(n: int)
    | JString(s: string)
    | JArray(items: seq<Json>)
    | JObject(members: seq<(string, Json)>)

  /** The errors the extraction raises: no answer text, the parser's own
      error, or a parsed value holding no array where one is looked for. */
  datatype ExtractError =
    | EmptyResponse
    | SyntaxError(message: string)
    | InvalidStructure
  {
    function Message(): string {
      match this
      case EmptyResponse => "Không nhận được phản hồi từ Gemini."
      case SyntaxError(m) => m
      case InvalidStructure => "Cấu trúc dữ liệu trả về không hợp lệ."
    }
  }

  /** `Object.values(data).find(v => Array.isArray(v))`: the items of the
      first property value that is an array. An empty array is found too, as
      every array is truthy. */
  function FirstArray(members: seq<(string, Json)>): (r: Option<seq<Json>>)
    ensures r.None? <==> forall i :: 0 <= i < |members| ==> !members[i].1.JArray?
    ensures r.Some? ==>
      exists i :: 0 <= i < |members| && members[i].1 == JArray(r.value) && forall j :: 0 <= j < i ==> !members[j].1.JArray?
    decreases |members|
  {
    if |members| == 0 then None
    else if members[0].1.JArray? then Some(members[0].1.items)
    else
      var r := FirstArray(members[1..]);
      assert forall i :: 1 <= i < |members| ==> members[i] == members[1..][i - 1];
      if r.Some? then
        var i :| 0 <= i < |members[1..]| && members[1..][i].1 == JArray(r.value)
          && forall j :: 0 <= j < i ==> !members[1..][j].1.JArray?;
        assert members[i + 1].1 == JArray(r.value);
        r
      else r
  }

  /** The decision taken after parsing. */
  function Unwrap(data: Json): (r: Result<seq<Json>, ExtractError>)
    ensures data.JArray? ==> r == Success(data.items)
    ensures data.JObject? ==> (r.Success? <==> exists i :: 0 <= i < |data.members| && data.members[i].1.JArray?)
    ensures data.JObject? && r.Success? ==> Some(r.value) == FirstArray(data.members)
    ensures !data.JArray? && !data.JObject? ==> r == Failure(InvalidStructure)
    ensures r.Failure? ==> r.error == InvalidStructure
  {
    match data
    case JArray(items) => Success(items)
    case JObject(members) =>
      (match FirstArray(members)
       case Some(items) => Success(items)
       case None => Failure(InvalidStructure))
    case _ => Failure(InvalidStructure)
  }

  /** The whole extraction, from the answer text (absent when the service
      returned none) through the `JSON.parse` stand-in `parse` to the rows. */
  function Extract(text: Option<string>, parse: string -> Result<Json, string>): (r: Result<seq<Json>, ExtractError>)
    ensures text.None? || text == Some([]) ==> r == Failure(EmptyResponse)
    ensures text.Some? && text.value != [] && parse(text.value).Failure? ==>
      r == Failure(SyntaxError(parse(text.value).error))
    ensures text.Some? && text.value != [] && parse(text.value).Success? ==> r == Unwrap(parse(text.value).value)
  {
    if text.None? || text.value == [] then Failure(EmptyResponse)
    else
      match parse(text.value)
      case Failure(message) => Failure(SyntaxError(message))
      case Success(data) => Unwrap(data)
  }

  // ---------------------------------------------------------------------
  // Properties

  /** An empty answer is rejected before parsing: which parser is used does not matter. */
  lemma EmptyBeforeParsing(text: Option<string>, p: string -> Result<Json, string>, q: string -> Result<Json, string>)
    requires text.None? || text == Some([])
    ensures Extract(text, p) == Extract(text, q) == Failure(EmptyResponse)
  {
  }

  /** Every row list returned is an array found in the parsed answer, either
      the answer itself or one of its top-level property values. */
  lemma ResultOccursAtTopLevel(data: Json)
    requires Unwrap(data).Success?
    ensures data == JArray(Unwrap(data).value)
      || (data.JObject? && exists i :: 0 <= i < |data.members| && data.members[i].1 == JArray(Unwrap(data).value))
  {
  }

  /** A wrapped array is found behind any number of non-array properties. */
  lemma {:induction false} SkipsNonArrays(before: seq<(string, Json)>, key: string, items: seq<Json>, after: seq<(string, Json)>)
    requires forall i :: 0 <= i < |before| ==> !before[i].1.JArray?
    ensures Unwrap(JObject(before + [(key, JArray(items))] + after)) == Success(items)
    decreases |before|
  {
    var members := before + [(key, JArray(items))] + after;
    if |before| > 0 {
      SkipsNonArrays(before[1..], key, items, after);
      assert members[1..] == before[1..] + [(key, JArray(items))] + after;
    }
  }

  /** Only top-level values are inspected: an array one level down is not found. */
  lemma NestedArrayNotFound(key: string, inner: string, items: seq<Json>)
    ensures Unwrap(JObject([(key, JObject([(inner, JArray(items))]))])) == Failure(InvalidStructure)
  {
    var members := [(key, JObject([(inner, JArray(items))]))];
    assert !members[0].1.JArray?;
  }

  /** A parsed array is handed back unchanged: no filtering, reordering or checking of its elements. */
  lemma ArrayUnchanged(text: string, parse: string -> Result<Json, string>, items: seq<Json>)
    requires text != [] && parse(text) == Success(JArray(items))
    ensures Extract(Some(text), parse) == Success(items)
  {
  }

  /** Normalising the rows once more, as an array, changes nothing. */
  lemma UnwrapStable(data: Json)
    requires Unwrap(data).Success?
    ensures Unwrap(JArray(Unwrap(data).value)) == Unwrap(data)
  {
  }

  /** The two errors the extraction raises itself have different texts, and
      a parse error carries the parser's own message unchanged. */
  lemma ErrorMessages(message: string)
    ensures EmptyResponse.Message() != InvalidStructure.Message()
    ensures SyntaxError(message).Message() == message
  {
  }
}
