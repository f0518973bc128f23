/** The two requests `OpenAIService` sends (OpenAIService.swift:18-42 and
    :93-107): the endpoint, the method, the headers, and the body as the JSON
    value handed to `JSONSerialization.data(withJSONObject:)`. */
module Requests {
  import opened Common
  import opened JsonModel

  const ChatEndpoint: string := "https://api.openai.com/v1/chat/completions"
  const SpeechEndpoint: string := "https://api.openai.com/v1/audio/speech"

  /** The text put before the user's prompt (OpenAIService.swift:31). */
  const StoryPrefix: string := "Create a fairytale about: "

  /** The fixed system instruction (OpenAIService.swift:26). */
  const Storyteller: string :=
    "You are a creative storyteller who writes engaging fairytales for children. Keep the stories appropriate for all ages and include moral lessons. Keep the stories concise, around 200-300 words."

  datatype Request = Request(url: string, httpMethod: string, headers: map<string, string>, body: Json)

  /** The headers both requests carry: the API key as a bearer token, and a
      JSON content type. */
  function Headers(apiKey: string): map<string, string> {
    map["Authorization" := "Bearer " + apiKey, "Content-Type" := "application/json"]
  }

  function MessageJson(role: string, content: string): Json {
    JObject(map["role" := JString(role), "content" := JString(content)])
  }

  /** The chat-completion request for a story about `prompt`: the system
      instruction, then the prompt behind `StoryPrefix`, streamed, with a
      temperature of 0.7 and at most 500 tokens (OpenAIService.swift:18-40). */
  function TaleRequest(apiKey: string, prompt: string): Request {
    Request(ChatEndpoint, "POST", Headers(apiKey),
      JObject(map[
        "model" := JString("gpt-4-turbo-preview"),
        "messages" := JArray([MessageJson("system", Storyteller), MessageJson("user", StoryPrefix + prompt)]),
        "stream" := JBool(true),
        "temperature" := JNumber(0.7),
        "max_tokens" := JNumber(500.0)]))
  }

  /** The speech request reading `text` aloud: model `tts-1`, voice `alloy`,
      MP3 output at normal speed (OpenAIService.swift:93-105). */
  function SpeechRequest(apiKey: string, text: string): Request {
    Request(SpeechEndpoint, "POST", Headers(apiKey),
      JObject(map[
        "model" := JString("tts-1"),
        "input" := JString(text),
        "voice" := JString("alloy"),
        "response_format" := JString("mp3"),
        "speed" := JNumber(1.0)]))
  }

  /** The prompt a chat body carries: the content of the user message that
      follows the system message, without `StoryPrefix`; `None` when the body
      is not shaped that way. */
  function UserPrompt(body: Json): (prompt: Option<string>)
    ensures prompt.Some? ==> body.JObject? && "messages" in body.members
  {
    if !body.JObject? || "messages" !in body.members then None
    else
      var messages := body.members["messages"];
      if !messages.JArray? || |messages.items| != 2 then None
      else
        var user := messages.items[1];
        if !user.JObject? || "role" !in user.members || user.members["role"] != JString("user") then None
        else if "content" !in user.members || !user.members["content"].JString? then None
        else
          var content := user.members["content"].s;
          if StoryPrefix <= content then Some(content[|StoryPrefix|..]) else None
  }

  /** The text a speech body carries. */
  function SpeechInput(body: Json): Option<string> {
    if body.JObject? && "input" in body.members && body.members["input"].JString? then Some(body.members["input"].s)
    else None
  }

  /** The user's prompt travels unchanged behind `StoryPrefix`, after the
      system message, and the key travels as a bearer token: both can be read
      back from the request. */
  lemma TaleRequestCarriesPrompt(apiKey: string, prompt: string)
    ensures UserPrompt(TaleRequest(apiKey, prompt).body) == Some(prompt)
    ensures TaleRequest(apiKey, prompt).body.members["messages"].items[0] == MessageJson("system", Storyteller)
    ensures TaleRequest(apiKey, prompt).headers["Authorization"] == "Bearer " + apiKey
  {
    var content := StoryPrefix + prompt;
    assert content[..|StoryPrefix|] == StoryPrefix;
    assert content[|StoryPrefix|..] == prompt;
  }

  /** Different prompts make different requests. */
  lemma TaleRequestInjective(apiKey: string, prompt: string, other: string)
    requires TaleRequest(apiKey, prompt) == TaleRequest(apiKey, other)
    ensures prompt == other
  {
    TaleRequestCarriesPrompt(apiKey, prompt);
    TaleRequestCarriesPrompt(apiKey, other);
  }

  /** The story text travels unchanged as the speech request's input. */
  lemma SpeechRequestCarriesText(apiKey: string, text: string)
    ensures SpeechInput(SpeechRequest(apiKey, text).body) == Some(text)
    ensures SpeechRequest(apiKey, text).headers["Authorization"] == "Bearer " + apiKey
  {
  }
}
