/** What the chat endpoint sends to Ollama: the model name it settles on and
    the conversation with every user message passed through the normaliser. */
module Payload {
  import opened Text
  import opened Schema
  import opened Normalizer

  /** The placeholder name some clients send when no model was chosen. */
  const PLACEHOLDER_MODEL: string := "string"

  /** The role whose messages are normalised. */
  const USER_ROLE: string := "user"

  /** The body of the request forwarded to Ollama's chat endpoint. */
  datatype OllamaRequest = OllamaRequest(model: string, messages: seq<Message>, stream: bool)

  /** A requested model name is replaced by the default when it is empty,
      blank, or the placeholder in any letter case. The placeholder test looks
      at the name before trimming, so " string" is not replaced. */
  predicate UsesDefault(requested: string) {
    Blank(requested) || Lower(requested) == PLACEHOLDER_MODEL
  }

  /** The model name the request is forwarded with. */
  function ResolveModel(requested: string, defaultModel: string): (m: string)
    ensures UsesDefault(requested) ==> m == defaultModel
    ensures !UsesDefault(requested) ==> m != [] && !IsSpace(m[0]) && !IsSpace(m[|m| - 1])
    ensures !UsesDefault(requested) ==> NonSpace(m) == NonSpace(requested)
    ensures !UsesDefault(requested) ==> m == Strip(requested)
  {
    if UsesDefault(requested) then defaultModel
    else
      StripKeepsNonSpace(requested);
      Strip(requested)
  }

  /** A name that is kept is kept trimmed: resolving it again changes nothing. */
  lemma ResolveKeptNameIsStable(requested: string, defaultModel: string)
    requires !UsesDefault(requested)
    ensures var m := ResolveModel(requested, defaultModel);
      !UsesDefault(m) ==> ResolveModel(m, defaultModel) == m
  {
    var m := ResolveModel(requested, defaultModel);
    assert LeadingSpace(m) == 0;
    assert TrailingSpace(m) == 0;
    assert m[0..] == m;
    assert m[..|m|] == m;
  }

  /** The placeholder escapes replacement when padded: " string" is sent to
      Ollama as "string". */
  lemma PaddedPlaceholderIsKept(requested: string, defaultModel: string)
    requires requested == " " + PLACEHOLDER_MODEL
    ensures ResolveModel(requested, defaultModel) == PLACEHOLDER_MODEL
  {
    assert Lower(requested)[0] == ' ';
    assert !Blank(requested) by {
      assert !IsSpace(requested[1]);
    }
    assert LeadingSpace(requested) == 1 by {
      assert requested[1..] == PLACEHOLDER_MODEL;
    }
    var m := Strip(requested);
    assert m == requested[1..1 + |m|];
    assert !IsSpace(requested[6]);
  }

  /** More generally, a name that is the placeholder only once trimmed is
      forwarded, trimmed, and so still reads as the placeholder. */
  lemma PlaceholderAfterTrimmingIsForwarded(requested: string, defaultModel: string)
    requires Lower(requested) != PLACEHOLDER_MODEL
    requires Lower(Strip(requested)) == PLACEHOLDER_MODEL
    ensures ResolveModel(requested, defaultModel) == Strip(requested)
    ensures Lower(ResolveModel(requested, defaultModel)) == PLACEHOLDER_MODEL
  {
    assert Strip(requested) != [];
  }

  /** The conversation before message `i`, as the normaliser receives it:
      absent for the first message. */
  function ContextBefore(messages: seq<Message>, i: nat): (c: Option<seq<Message>>)
    requires i <= |messages|
    ensures c.Some? <==> i > 0
    ensures c.Some? ==> c.value == messages[..i] && c.value != []
  {
    if i > 0 then Some(messages[..i]) else None
  }

  /** Message `i` as it is forwarded: user messages normalised, every other
      role kept as it is. */
  function PreparedAt(messages: seq<Message>, i: nat): Message
    requires i < |messages|
  {
    var m := messages[i];
    if m.role == USER_ROLE then Message(m.role, FineTune(m.content, ContextBefore(messages, i)))
    else m
  }

  /** The loop of the chat endpoint that builds the forwarded conversation. */
  method PrepareMessages(messages: seq<Message>) returns (out: seq<Message>)
    ensures |out| == |messages|
    ensures forall i :: 0 <= i < |out| ==> out[i].role == messages[i].role
    ensures forall i :: 0 <= i < |out| && messages[i].role != USER_ROLE ==> out[i] == messages[i]
    ensures forall i :: 0 <= i < |out| && messages[i].role == USER_ROLE ==>
      out[i].content == FineTune(messages[i].content, ContextBefore(messages, i))
  {
    out := [];
    var i := 0;
    while i < |messages|
      invariant 0 <= i <= |messages|
      invariant |out| == i
      invariant forall k :: 0 <= k < i ==> out[k] == PreparedAt(messages, k)
    {
      out := out + [PreparedAt(messages, i)];
      i := i + 1;
    }
  }

  /** Every forwarded user message that had a visible character is tidy and
      does not start with a lower-case letter; a blank one is forwarded as it
      came. */
  lemma PreparedUserMessagesAreTidy(messages: seq<Message>, i: nat)
    requires i < |messages| && messages[i].role == USER_ROLE
    ensures Blank(messages[i].content) ==> PreparedAt(messages, i) == messages[i]
    ensures !Blank(messages[i].content) ==>
      Tidy(PreparedAt(messages, i).content) && !IsLower(PreparedAt(messages, i).content[0])
  {
  }

  /** The request forwarded for a chat request. */
  method BuildRequest(request: ChatRequest, defaultModel: string) returns (out: OllamaRequest)
    ensures out.model == ResolveModel(request.model, defaultModel)
    ensures out.stream == request.stream
    ensures |out.messages| == |request.messages|
    ensures forall i :: 0 <= i < |out.messages| ==> out.messages[i] == PreparedAt(request.messages, i)
  {
    var messages := PrepareMessages(request.messages);
    out := OllamaRequest(ResolveModel(request.model, defaultModel), messages, request.stream);
  }
}
