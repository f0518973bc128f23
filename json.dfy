/** The values `JSONSerialization.jsonObject(with:)` produces, and the
    optional-chaining navigation the text decoder applies to each frame. The
    parser itself belongs to Foundation and is not modelled: decoders take it
    as a parameter of type `Parser`. */
module JsonModel {
  import opened Common

  datatype Json =
    | JNull
    | JBool(b: bool)
    | JNumber(n: real)
    | JString(s: string)
    | JArray(items: seq<Json>)
    | JObject(members: map<string, Json>)

  /** `JSONSerialization.jsonObject(with:)` under `try?`: the value the bytes
      denote, or `None` when they are not JSON. */
  type Parser = seq<byte> -> Option<Json>

  /** `value as? [String: Any]` */
  function AsObject(value: Json): Option<map<string, Json>> {
    if value.JObject? then Some(value.members) else None
  }

  /** `value as? [[String: Any]]`: the cast succeeds only for an array all of
      whose elements are objects. */
  function AsObjectArray(value: Json): (r: Option<seq<map<string, Json>>>)
    ensures r.Some? <==> value.JArray? && forall i :: 0 <= i < |value.items| ==> value.items[i].JObject?
    ensures r.Some? ==> |r.value| == |value.items|
    ensures r.Some? ==> forall i :: 0 <= i < |r.value| ==> value.items[i] == JObject(r.value[i])
  {
    if value.JArray? && forall i :: 0 <= i < |value.items| ==> value.items[i].JObject? then
      Some(seq(|value.items|, i requires 0 <= i < |value.items| => value.items[i].members))
    else
      None
  }

  /** `value as? String` */
  function AsString(value: Json): Option<string> {
    if value.JString? then Some(value.s) else None
  }

  /** `dictionary[key]` */
  function Lookup(members: map<string, Json>, key: string): Option<Json> {
    if key in members then Some(members[key]) else None
  }

  /** The chain `json as? [String: Any]`, `json["choices"] as? [[String: Any]]`,
      `choices.first?["delta"] as? [String: Any]`, `delta["content"] as? String`
      of OpenAIService.swift:73-76: the text of an incremental chat frame, or
      `None` when any link of the chain fails. */
  function DeltaContent(frame: Json): (r: Option<string>)
  {
    match AsObject(frame)
    case None => None
    case Some(json) =>
      match Lookup(json, "choices")
      case None => None
      case Some(choicesValue) =>
        match AsObjectArray(choicesValue)
        case None => None
        case Some(choices) =>
          if |choices| == 0 then None
          else
            match Lookup(choices[0], "delta")
            case None => None
            case Some(deltaValue) =>
              match AsObject(deltaValue)
              case None => None
              case Some(delta) =>
                match Lookup(delta, "content")
                case None => None
                case Some(content) => AsString(content)
  }

  /** The chain succeeds exactly when the frame is an object whose `choices`
      is a non-empty array of objects, the first of which has an object
      `delta` whose `content` is a string; the result is that string. */
  lemma DeltaContentSucceeds(frame: Json, text: string)
    ensures DeltaContent(frame) == Some(text) <==>
      frame.JObject? && "choices" in frame.members
      && frame.members["choices"].JArray?
      && (forall i :: 0 <= i < |frame.members["choices"].items| ==> frame.members["choices"].items[i].JObject?)
      && |frame.members["choices"].items| > 0
      && "delta" in frame.members["choices"].items[0].members
      && frame.members["choices"].items[0].members["delta"].JObject?
      && "content" in frame.members["choices"].items[0].members["delta"].members
      && frame.members["choices"].items[0].members["delta"].members["content"] == JString(text)
  {
  }

  /** The frame the vendor sends for one increment of text:
      `{"choices": [{"delta": {"content": text}}]}`. */
  function ContentFrame(text: string): Json {
    JObject(map["choices" := JArray([JObject(map["delta" := JObject(map["content" := JString(text)])])])])
  }

  /** The frame that opens a reply: `{"choices": [{"delta": {"role": "assistant"}}]}`. */
  function RoleFrame(role: string): Json {
    JObject(map["choices" := JArray([JObject(map["delta" := JObject(map["role" := JString(role)])])])])
  }

  lemma ContentFrameYieldsText(text: string)
    ensures DeltaContent(ContentFrame(text)) == Some(text)
  {
  }

  lemma RoleFrameYieldsNothing(role: string)
    ensures DeltaContent(RoleFrame(role)) == None
  {
  }

  /** A content value that is not a string, an empty `choices` array, or one
      non-object element anywhere in `choices` makes the chain fail. */
  lemma ChainFailures(text: string, content: Json, extra: Json)
    requires !content.JString?
    requires !extra.JObject?
    ensures DeltaContent(JObject(map["choices" := JArray([JObject(map["delta" := JObject(map["content" := content])])])])) == None
    ensures DeltaContent(JObject(map["choices" := JArray([])])) == None
    ensures DeltaContent(JObject(map["choices" := JArray([JObject(map["delta" := JObject(map["content" := JString(text)])]), extra])])) == None
  {
    var choices := [JObject(map["delta" := JObject(map["content" := JString(text)])]), extra];
    assert !choices[1].JObject?;
  }
}
