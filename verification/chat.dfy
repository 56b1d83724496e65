/** The chat endpoint end to end: build the request forwarded to Ollama, then
    relay what Ollama answers. Ollama's answer is an input, given as a function
    of the request it receives. */
module Chat {
  import opened Schema
  import opened Payload
  import opened Relay

  /** `chat_stream(request)`: returns the forwarded request and the events the
      client receives. */
  method HandleChat(request: ChatRequest, defaultModel: string, baseUrl: string,
                    classify: string -> LineClass, respond: OllamaRequest -> Backend)
    returns (sent: OllamaRequest, out: seq<Event>)
    ensures sent.model == ResolveModel(request.model, defaultModel)
    ensures sent.stream == request.stream
    ensures |sent.messages| == |request.messages|
    ensures forall i :: 0 <= i < |sent.messages| ==> sent.messages[i] == PreparedAt(request.messages, i)
    ensures out == Outcome(classify, respond(sent), sent.model, baseUrl)
  {
    sent := BuildRequest(request, defaultModel);
    out := RelayStream(classify, respond(sent), sent.model, baseUrl);
  }
}
