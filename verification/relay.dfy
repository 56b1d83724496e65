/** The streaming half of the chat endpoint: how Ollama's response is relayed
    to the client line by line, and how every failure becomes one final
    `{"error": ...}` line. Ollama itself is an input: a `Backend` value says
    what the connection delivered, and a classifier says what each line's JSON
    decodes to. */
module Relay {
  import opened Text
  import opened Schema

  /** What decoding one non-empty line of Ollama's stream gives:
      - `ErrorObj(msg)`: a JSON object with an `error` member whose value is a
        string. An `error` member that is a list holding the runner phrase
        `RUNNER_TIMEOUT`, or an object with that phrase as a key, passes the
        same first test and gets the same text, so it is `ErrorObj(RUNNER_TIMEOUT)`;
      - `Dropped`: JSON on which the relay's own handling raises, so the line
        is skipped: an object whose `error` member is any other non-string
        value; a JSON string containing "error"; a list containing the string
        "error"; a number, `true`, `false` or `null`;
      - `PassThrough`: anything else, including text that is not JSON. */
  datatype LineClass = ErrorObj(msg: string) | PassThrough | Dropped

  /** A transport failure. */
  datatype Fault =
    | Timeout                    // any timeout of the HTTP client
    | ConnectError               // the connection to Ollama could not be made
    | Unexpected(reason: string) // any other exception, with its text

  /** What the request to Ollama produced: a failure before any response, or a
      status code, the `error` member of a non-200 body when that body is a JSON
      object whose `error` is a string, the lines received, and the failure
      that ended the stream early, if any. */
  datatype Backend =
    | Unopened(fault: Fault)
    | Responded(status: int, errorField: Option<string>, lines: seq<string>, ending: Option<Fault>)

  /** One chunk sent to the client. */
  datatype Event = Data(line: string) | Error(text: string)

  /** How an error message from Ollama is explained to the client. */
  datatype Diagnosis = LoadTimeout | ModelMissing | Verbatim(text: string)

  const RUNNER_TIMEOUT: string := "timed out waiting for llama runner"

  /** Ollama reports that loading the model timed out: the runner phrase
      exactly as written, or "timeout" in any letter case. */
  predicate MentionsTimeout(msg: string) {
    Contains(msg, RUNNER_TIMEOUT) || Contains(Lower(msg), "timeout")
  }

  /** Ollama reports a missing model: "model" together with "not found" or
      "does not exist", in any letter case. */
  predicate MentionsMissingModel(msg: string) {
    Contains(Lower(msg), "model")
    && (Contains(Lower(msg), "not found") || Contains(Lower(msg), "does not exist"))
  }

  function Diagnose(msg: string): (d: Diagnosis)
    ensures d == LoadTimeout <==> MentionsTimeout(msg)
    ensures d == ModelMissing <==> !MentionsTimeout(msg) && MentionsMissingModel(msg)
    ensures d.Verbatim? ==> d.text == msg
  {
    if MentionsTimeout(msg) then LoadTimeout
    else if MentionsMissingModel(msg) then ModelMissing
    else Verbatim(msg)
  }

  /** A model name between backslash-escaped quotes, as the error texts
      quote it. */
  function Quoted(model: string): string {
    "\\\"" + model + "\\\""
  }

  const LOAD_TIMEOUT_HEAD: string :=
    "Model loading timeout. The model may be loading for the first time. Please try again in a moment, or check if the model "
  const LOAD_TIMEOUT_TAIL: string := " is properly installed in Ollama."
  const MISSING_HEAD: string := "Model "
  const MISSING_TAIL: string := " not found in Ollama. Please install it using: ollama pull "

  /** The client-facing text for an error Ollama reported mid-stream. */
  function DiagnosisText(d: Diagnosis, model: string): string {
    match d
    case LoadTimeout => LOAD_TIMEOUT_HEAD + Quoted(model) + LOAD_TIMEOUT_TAIL
    case ModelMissing => MISSING_HEAD + Quoted(model) + (MISSING_TAIL + model)
    case Verbatim(text) => text
  }

  /** The runner phrase on its own is explained as a load timeout; this is
      what an `error` list or object holding that phrase receives. */
  lemma RunnerPhraseIsLoadTimeout()
    ensures Diagnose(RUNNER_TIMEOUT) == LoadTimeout
  {
    ContainsMiddle([], RUNNER_TIMEOUT, []);
    assert [] + RUNNER_TIMEOUT + [] == RUNNER_TIMEOUT;
  }

  /** The explanations of a load timeout and of a missing model quote the
      model name the request was sent with; any other error is passed on as
      Ollama wrote it. */
  lemma DiagnosisNamesModel(msg: string, model: string)
    ensures !Diagnose(msg).Verbatim? ==> Contains(DiagnosisText(Diagnose(msg), model), Quoted(model))
    ensures Diagnose(msg).Verbatim? ==> DiagnosisText(Diagnose(msg), model) == msg
  {
    match Diagnose(msg)
    case LoadTimeout =>
      ContainsMiddle(LOAD_TIMEOUT_HEAD, Quoted(model), LOAD_TIMEOUT_TAIL);
    case ModelMissing =>
      ContainsMiddle(MISSING_HEAD, Quoted(model), MISSING_TAIL + model);
    case Verbatim(_) =>
  }

  /** The client-facing text for a transport failure. */
  function FaultText(f: Fault, baseUrl: string): string {
    match f
    case Timeout => "Request timeout to Ollama. Make sure Ollama is running and responsive."
    case ConnectError => "Cannot connect to Ollama server at " + baseUrl + ". Make sure Ollama is running."
    case Unexpected(reason) => "Internal server error: " + reason
  }

  /** The text for a non-200 response: the body's `error` member when there is
      one, otherwise the status code. */
  function StatusText(status: int, errorField: Option<string>): string {
    match errorField
    case Some(e) => e
    case None => "Ollama API error: " + IntToString(status)
  }

  /** The bytes of one event on the wire. The error text is inserted as it is,
      without JSON escaping. */
  function Wire(e: Event): (w: string)
    ensures w != [] && w[|w| - 1] == '\n'
    ensures e.Data? ==> w[..|w| - 1] == e.line
    ensures e.Error? ==> StartsWith(w, "{\"error\": \"") && EndsWith(w, "\"}\n")
    ensures e.Error? ==> |w| >= 14 && w[11..|w| - 3] == e.text
  {
    match e
    case Data(line) => line + "\n"
    case Error(text) => "{\"error\": \"" + text + "\"}\n"
  }

  // ---------------------------------------------------------------------------
  // Reference reading of a successful stream

  /** The line stops the relay: it is non-empty and decodes to an error object. */
  predicate Stops(classify: string -> LineClass, line: string) {
    line != [] && classify(line).ErrorObj?
  }

  /** The index of the first line that stops the relay, or `|lines|`. */
  function FirstStop(classify: string -> LineClass, lines: seq<string>): (p: nat)
    ensures p <= |lines|
    ensures forall k :: 0 <= k < p ==> !Stops(classify, lines[k])
    ensures p < |lines| ==> Stops(classify, lines[p])
    decreases |lines|
  {
    if lines == [] then 0
    else if Stops(classify, lines[0]) then 0
    else
      var p := FirstStop(classify, lines[1..]);
      assert forall k :: 1 <= k < 1 + p ==> lines[k] == lines[1..][k - 1];
      1 + p
  }

  /** The line is relayed: it is non-empty and decodes to nothing the relay
      acts on. */
  predicate Relayed(classify: string -> LineClass, line: string) {
    line != [] && classify(line).PassThrough?
  }

  /** The events for lines that stop nothing: the relayed lines, in order. */
  function Forwarded(classify: string -> LineClass, lines: seq<string>): (es: seq<Event>)
    ensures |es| <= |lines|
    ensures forall k :: 0 <= k < |es| ==> es[k].Data? && Relayed(classify, es[k].line)
    decreases |lines|
  {
    if lines == [] then []
    else
      var rest := Forwarded(classify, lines[1..]);
      if Relayed(classify, lines[0]) then [Data(lines[0])] + rest else rest
  }

  lemma {:induction false} ForwardedAppend(classify: string -> LineClass, a: seq<string>, b: seq<string>)
    ensures Forwarded(classify, a + b) == Forwarded(classify, a) + Forwarded(classify, b)
    decreases |a|
  {
    if a == [] {
      assert a + b == b;
    } else {
      assert (a + b)[0] == a[0];
      assert (a + b)[1..] == a[1..] + b;
      ForwardedAppend(classify, a[1..], b);
    }
  }

  /** What the client receives after the response opened with status 200: the
      relayed lines up to the first error object; then the explained error,
      or the failure that ended the stream, or nothing. */
  function StreamEvents(classify: string -> LineClass, lines: seq<string>, ending: Option<Fault>,
                        model: string, baseUrl: string): seq<Event>
  {
    var p := FirstStop(classify, lines);
    Forwarded(classify, lines[..p])
    + if p < |lines| then [Error(DiagnosisText(Diagnose(classify(lines[p]).msg), model))]
      else if ending.Some? then [Error(FaultText(ending.value, baseUrl))]
      else []
  }

  /** Everything the client receives, for every way the backend can behave:
      one error for a failed connection or a non-200 status, otherwise the
      events of the stream. */
  function Outcome(classify: string -> LineClass, backend: Backend, model: string, baseUrl: string)
    : seq<Event>
  {
    match backend
    case Unopened(fault) => [Error(FaultText(fault, baseUrl))]
    case Responded(status, errorField, lines, ending) =>
      if status != 200 then [Error(StatusText(status, errorField))]
      else StreamEvents(classify, lines, ending, model, baseUrl)
  }

  // ---------------------------------------------------------------------------
  // The relay

  /** The body of `stream_response` once the request has been built: relay
      Ollama's stream, stopping at the first error. */
  method RelayStream(classify: string -> LineClass, backend: Backend, model: string, baseUrl: string)
    returns (out: seq<Event>)
    ensures out == Outcome(classify, backend, model, baseUrl)
  {
    match backend
    case Unopened(fault) =>
      out := [Error(FaultText(fault, baseUrl))];
    case Responded(status, errorField, lines, ending) =>
      if status != 200 {
        out := [Error(StatusText(status, errorField))];
        return;
      }
      out := [];
      var i := 0;
      while i < |lines|
        invariant 0 <= i <= |lines|
        invariant forall k :: 0 <= k < i ==> !Stops(classify, lines[k])
        invariant out == Forwarded(classify, lines[..i])
      {
        var line := lines[i];
        if line != [] {
          match classify(line)
          case ErrorObj(msg) =>
            assert FirstStop(classify, lines) == i by {
              FirstStopAt(classify, lines, i);
            }
            out := out + [Error(DiagnosisText(Diagnose(msg), model))];
            return;
          case PassThrough =>
            ForwardedAppend(classify, lines[..i], [line]);
            assert lines[..i + 1] == lines[..i] + [line];
            out := out + [Data(line)];
          case Dropped =>
            ForwardedAppend(classify, lines[..i], [line]);
            assert lines[..i + 1] == lines[..i] + [line];
        } else {
          ForwardedAppend(classify, lines[..i], [line]);
          assert lines[..i + 1] == lines[..i] + [line];
        }
        i := i + 1;
      }
      assert FirstStop(classify, lines) == |lines| by {
        FirstStopAt(classify, lines, |lines|);
      }
      assert lines[..|lines|] == lines;
      if ending.Some? {
        out := out + [Error(FaultText(ending.value, baseUrl))];
      }
  }

  /** `FirstStop` is the first index whose line stops the relay. */
  lemma FirstStopAt(classify: string -> LineClass, lines: seq<string>, i: nat)
    requires i <= |lines|
    requires forall k :: 0 <= k < i ==> !Stops(classify, lines[k])
    requires i < |lines| ==> Stops(classify, lines[i])
    ensures FirstStop(classify, lines) == i
  {
  }

  // ---------------------------------------------------------------------------
  // Properties of the relayed stream

  /** Whatever Ollama does, the client receives at most one error, and only as
      the last event; every event before it is a relayed line, and there is at
      most one event per line received plus the error. */
  lemma ErrorOnlyLast(classify: string -> LineClass, backend: Backend, model: string, baseUrl: string)
    ensures var out := Outcome(classify, backend, model, baseUrl);
      forall k :: 0 <= k < |out| - 1 ==> out[k].Data? && Relayed(classify, out[k].line)
    ensures backend.Responded? ==> |Outcome(classify, backend, model, baseUrl)| <= |backend.lines| + 1
  {
    if backend.Responded? && backend.status == 200 {
      var lines := backend.lines;
      var p := FirstStop(classify, lines);
      var fwd := Forwarded(classify, lines[..p]);
      var out := Outcome(classify, backend, model, baseUrl);
      assert forall k :: 0 <= k < |fwd| ==> out[k] == fwd[k];
    }
  }

  /** The only events that are not relayed lines are errors, and an error
      appears exactly when the connection failed, the status was not 200, a
      line decoded to an error object, or the stream ended in a failure. */
  lemma ErrorExactlyWhenSomethingFailed(classify: string -> LineClass, backend: Backend, model: string,
                                        baseUrl: string)
    ensures var out := Outcome(classify, backend, model, baseUrl);
      (out != [] && out[|out| - 1].Error?)
      <==> (backend.Unopened? || backend.status != 200
            || FirstStop(classify, backend.lines) < |backend.lines| || backend.ending.Some?)
  {
    if backend.Responded? && backend.status == 200 {
      var out := Outcome(classify, backend, model, baseUrl);
      var p := FirstStop(classify, backend.lines);
      var fwd := Forwarded(classify, backend.lines[..p]);
      if p == |backend.lines| && backend.ending.None? {
        assert out == fwd;
      }
    }
  }

  /** Without an error object, the stream's events are the relayed lines and
      then the failure that ended the stream, if any. */
  lemma NoStopEvents(classify: string -> LineClass, lines: seq<string>, ending: Option<Fault>,
                     model: string, baseUrl: string)
    requires forall k :: 0 <= k < |lines| ==> !Stops(classify, lines[k])
    ensures StreamEvents(classify, lines, ending, model, baseUrl)
         == Forwarded(classify, lines)
            + if ending.Some? then [Error(FaultText(ending.value, baseUrl))] else []
  {
    assert lines[..|lines|] == lines;
    FirstStopAt(classify, lines, |lines|);
    assert Forwarded(classify, lines[..FirstStop(classify, lines)]) == Forwarded(classify, lines);
  }

  /** A stream with no error object and no failure is relayed line for line:
      every non-empty line that decodes to nothing the relay acts on, in order,
      and nothing else. */
  lemma CleanStreamIsRelayed(classify: string -> LineClass, lines: seq<string>, model: string,
                             baseUrl: string)
    requires forall k :: 0 <= k < |lines| ==> !Stops(classify, lines[k])
    ensures StreamEvents(classify, lines, None, model, baseUrl) == Forwarded(classify, lines)
  {
    NoStopEvents(classify, lines, None, model, baseUrl);
    assert Forwarded(classify, lines) + [] == Forwarded(classify, lines);
  }

  /** Lines after the first error object never reach the client. */
  lemma {:induction false} LinesAfterErrorAreIgnored(classify: string -> LineClass, lines: seq<string>,
                                                    more: seq<string>, ending: Option<Fault>,
                                                    model: string, baseUrl: string)
    requires FirstStop(classify, lines) < |lines|
    ensures StreamEvents(classify, lines + more, ending, model, baseUrl)
         == StreamEvents(classify, lines, None, model, baseUrl)
  {
    var p := FirstStop(classify, lines);
    var all := lines + more;
    assert forall k :: 0 <= k <= p ==> all[k] == lines[k];
    FirstStopAt(classify, all, p);
    assert all[..p] == lines[..p];
  }

  /** A failure that ends the stream is reported after the relayed lines only
      when no error object came first. */
  lemma EndingReportedAfterLines(classify: string -> LineClass, lines: seq<string>, f: Fault,
                                 model: string, baseUrl: string)
    requires forall k :: 0 <= k < |lines| ==> !Stops(classify, lines[k])
    ensures StreamEvents(classify, lines, Some(f), model, baseUrl)
         == Forwarded(classify, lines) + [Error(FaultText(f, baseUrl))]
  {
    NoStopEvents(classify, lines, Some(f), model, baseUrl);
  }
}
