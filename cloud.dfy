/**
  `CloudTranslator` of src/translators/cloud_translator.py: two cloud backends
  with automatic failover. The translator is in state PRIMARY or SECONDARY, keeps
  the last two translated segments as dialog context, and a background probe
  switches back to the primary backend once it answers again.
 */
module Cloud {
  import opened Wrappers
  import opened PyText
  import opened Mort
  import opened Backend

  datatype Api = Primary | Secondary

  /** The `RuntimeError`s `_send_request` raises, and a reply that cannot be navigated. */
  datatype ApiError =
    | Unauthorized
    | RateLimited
    | HttpFailure(code: nat, reason: string)
    | Network(reason: string)
    | Malformed

  /** Why `handle_request` raised. */
  datatype CloudFailure =
    | NoBackup(cause: ApiError)        // primary failed, no secondary key
    | BackupFailed(cause: ApiError)    // primary failed, then the secondary too
    | BackupKeyInvalid                 // in SECONDARY, a 401
    | SecondaryFailed(cause: ApiError) // in SECONDARY, any other failure

  /**
    What the chat messages of a POST are built from: a translation request
    (`_prepare_messages_primary` / `_prepare_messages_secondary`) or the probe's
    fixed test message.
   */
  datatype Prompt =
    | Translate(api: Api, contextEnabled: bool, history: seq<string>, text: string,
                source: Option<string>, target: Option<string>)
    | Hello

  /** One POST: the backend's settings and the prompt its messages are rendered from. */
  datatype Call = Call(config: ApiConfig, prompt: Prompt)

  // ---------------------------------------------------------------------------
  // Decimal rendering of status codes (`f"{status_code}"`)

  function Digit(d: nat): char
    requires d < 10
  {
    (48 + d) as char
  }

  function Decimal(n: nat): (r: string)
    ensures r != [] && forall k | 0 <= k < |r| :: '0' <= r[k] <= '9'
    decreases n
  {
    if n < 10 then [Digit(n)] else Decimal(n / 10) + [Digit(n % 10)]
  }

  /** The value of a string of decimal digits. */
  function DecimalValue(s: string): nat
    requires forall k | 0 <= k < |s| :: '0' <= s[k] <= '9'
  {
    if s == [] then 0 else DecimalValue(s[..|s| - 1]) * 10 + (s[|s| - 1] as int - 48)
  }

  /** The decimal text of a status code reads back as that code. */
  lemma {:induction false} DecimalRoundTrip(n: nat)
    ensures DecimalValue(Decimal(n)) == n
    decreases n
  {
    if n >= 10 {
      var d := Decimal(n / 10);
      DecimalRoundTrip(n / 10);
      assert Decimal(n)[..|Decimal(n)| - 1] == d;
    }
  }

  // ---------------------------------------------------------------------------
  // _send_request (cloud_translator.py:73-92)

  /** The outcome of `_send_request`: the decoded body, or the error it raises. */
  function SendRequest(reply: Reply): (r: Result<Json.Value, ApiError>)
    ensures r.Ok? <==> reply.Delivered?
    ensures reply.Delivered? ==> r.value == reply.body
  {
    match reply
    case Delivered(body) => Ok(body)
    case Undecodable => Err(Malformed)
    case HttpStatus(code, reason) =>
      if code == 401 then Err(Unauthorized)
      else if code == 429 then Err(RateLimited)
      else Err(HttpFailure(code, reason))
    case Transport(reason) => Err(Network(reason))
  }

  /** Status 401 and 429 get their own errors, any other status one that carries the code, a transport failure a network error. */
  lemma ClassifyReply(reply: Reply)
    ensures reply.HttpStatus? ==> (SendRequest(reply) == Err(Unauthorized) <==> reply.code == 401)
    ensures reply.HttpStatus? ==> (SendRequest(reply) == Err(RateLimited) <==> reply.code == 429)
    ensures reply.HttpStatus? && reply.code != 401 && reply.code != 429 ==>
      SendRequest(reply) == Err(HttpFailure(reply.code, reply.reason))
    ensures reply.Transport? ==> SendRequest(reply) == Err(Network(reply.reason))
    ensures reply.Undecodable? ==> SendRequest(reply) == Err(Malformed)
  {
  }

  const UnauthorizedText: string := "Error 401 Unauthorized: Invalid API key."
  const RateLimitedText: string := "Error 429 Too Many " + "Requests: Request " + "limit exceeded."
  /** Stands for the text of the exception a malformed reply raises (a `KeyError`, `AttributeError`, ...). */
  const MalformedText: string := "Malformed response"
  const Unauthorized401: string := "Error 401 Unauthorized"

  /** `str(e)` of the error. */
  function ErrorText(e: ApiError): string {
    match e
    case Unauthorized => UnauthorizedText
    case RateLimited => RateLimitedText
    case HttpFailure(code, reason) => "HTTP Error " + Decimal(code) + ": " + reason
    case Network(reason) => "Network error during Cloud API request: " + reason
    case Malformed => MalformedText
  }

  /** `"Error 401 Unauthorized" in str(e)` (cloud_translator.py:170, 200). */
  predicate Mentions401(e: ApiError) {
    Find(ErrorText(e), Unauthorized401) >= 0
  }

  lemma FreeOfChar(s: string, p: string, i: nat)
    requires i < |p| && p[i] !in s
    ensures Find(s, p) < 0
  {
    forall j | 0 <= j && j + |p| <= |s| ensures !At(s, j, p) {
      assert s[j + i] in s;
    }
  }

  /** Only the 401 error is recognised as an invalid key; the 429 and malformed-reply errors are not. */
  lemma Mentions401Cases()
    ensures Mentions401(Unauthorized)
    ensures !Mentions401(RateLimited) && !Mentions401(Malformed)
  {
    UnauthorizedMentions401();
    RateLimitedNot401();
    MalformedNot401();
  }

  lemma UnauthorizedMentions401()
    ensures Find(UnauthorizedText, Unauthorized401) >= 0
  {
    assert At(UnauthorizedText, 0, Unauthorized401);
  }

  lemma RateLimitedNot401()
    ensures Find(RateLimitedText, Unauthorized401) < 0
  {
    assert Unauthorized401[8] == '1';
    FreeOfChar(RateLimitedText, Unauthorized401, 8);
  }

  lemma MalformedNot401()
    ensures Find(MalformedText, Unauthorized401) < 0
  {
    FreeOfChar(MalformedText, Unauthorized401, 0);
  }

  // ---------------------------------------------------------------------------
  // _format_history (cloud_translator.py:26-35)

  const HistoryHeader: string := "\n*** PREVIOUS DIALOG CONTEXT (Target Language): ***\n"
  const HistoryFooter: string := "*** END OF CONTEXT ***"

  /** `h[-2:]`: the last two entries, or all of them when there are fewer. */
  function Last2(h: seq<string>): (r: seq<string>)
    ensures |r| == (if |h| < 2 then |h| else 2) && r == h[|h| - |r|..]
  {
    if |h| <= 2 then h else h[|h| - 2..]
  }

  /** `[i: "segment"]`. */
  function Entry(i: nat, segment: string): string {
    "[" + Decimal(i) + ": \"" + segment + "\"]"
  }

  /** The entries numbered from `start`, in order. */
  function Entries(h: seq<string>, start: nat): (r: seq<string>)
    ensures |r| == |h|
    ensures forall k | 0 <= k < |h| :: r[k] == Entry(start + k, h[k])
  {
    if h == [] then [] else [Entry(start, h[0])] + Entries(h[1..], start + 1)
  }

  function FormatHistory(h: seq<string>): string {
    if h == [] then "" else HistoryHeader + Join(Entries(Last2(h), 1), "\n") + "\n" + HistoryFooter
  }

  /**
    An empty history formats as nothing; otherwise only the last one or two entries
    appear, numbered 1 and 2 in chronological order, between header and footer.
   */
  lemma FormatHistoryShape(h: seq<string>)
    ensures h == [] ==> FormatHistory(h) == ""
    ensures |h| == 1 ==> FormatHistory(h) == HistoryHeader + Entry(1, h[0]) + "\n" + HistoryFooter
    ensures |h| >= 2 ==>
      FormatHistory(h) == HistoryHeader + Entry(1, h[|h| - 2]) + "\n" + Entry(2, h[|h| - 1]) + "\n" + HistoryFooter
  {
    if |h| >= 2 {
      var e := Entries(Last2(h), 1);
      assert e == [Entry(1, h[|h| - 2]), Entry(2, h[|h| - 1])];
      assert Join(e, "\n") == e[0] + "\n" + Join(e[1..], "\n");
    } else if |h| == 1 {
      assert Entries(Last2(h), 1) == [Entry(1, h[0])];
    }
  }

  // ---------------------------------------------------------------------------
  // _prepare_messages_primary / _prepare_messages_secondary (cloud_translator.py:37-71)

  /** Stand-ins for the two system prompts' fixed wording, which differ in one word. */
  const PromptIntro: string := "[localizer role]\n"
  const PrimaryDirectives: string := "[primary directives]"
  const SecondaryDirectives: string := "[secondary directives]"

  /** `f"{lang}"` of `data.get('source')` / `data.get('target')`. */
  function LangText(lang: Option<string>): string {
    match lang
    case None => "None"
    case Some(s) => s
  }

  function Instructions(api: Api, source: Option<string>, target: Option<string>): string {
    PromptIntro + "Translate the text from '" + LangText(source) + "' to '" + LangText(target) + "'.\n"
      + (if api == Primary then PrimaryDirectives else SecondaryDirectives)
  }

  /** The system prompt, trimmed; the history is appended when the backend has context enabled. */
  function SystemPrompt(api: Api, contextEnabled: bool, history: seq<string>,
                        source: Option<string>, target: Option<string>): string
  {
    if contextEnabled then Strip(Instructions(api, source, target) + FormatHistory(history))
    else Strip(Instructions(api, source, target))
  }

  /**
    The chat messages of a POST: for a translation, the trimmed system prompt then
    the text as the user message (cloud_translator.py:37-80); for the probe, a
    single user message "hello" (cloud_translator.py:118).
   */
  function Messages(p: Prompt): (r: seq<Message>)
    ensures p.Translate? ==> |r| == 2 && r[0].role == "system" && Trimmed(r[0].content) && r[1] == Message("user", p.text)
    ensures p.Hello? ==> |r| == 1 && r[0].role == "user"
  {
    match p
    case Translate(api, contextEnabled, history, text, source, target) =>
      [Message("system", SystemPrompt(api, contextEnabled, history, source, target)), Message("user", text)]
    case Hello => [Message("user", "hello")]
  }

  // ---------------------------------------------------------------------------
  // One attempt: _send_request, then _process_response (cloud_translator.py:160-161)

  function Attempt(reply: Reply, unescape: string -> string): (r: Result<string, ApiError>)
    ensures r.Ok? ==> Trimmed(r.value)
    ensures SendRequest(reply).Err? ==> r == Err(SendRequest(reply).error)
  {
    var sent := SendRequest(reply);
    if sent.Err? then Err(sent.error)
    else
      var t := ProcessResponse(sent.value, unescape);
      if t.Some? then Ok(t.value) else Err(Malformed)
  }

  /** The history after a successful translation (cloud_translator.py:212-221). */
  function NewHistory(sep: string, contextEnabled: bool, translation: string): (r: seq<string>)
    requires |sep| > 0
    ensures |r| <= 2
    ensures !contextEnabled ==> r == []
  {
    if contextEnabled then Last2(Segments(sep, translation)) else []
  }

  /**
    With context enabled the new history is, by replacement, the last one or two
    trimmed non-empty pieces of the translation: well-formed segments, in order.
   */
  lemma NewHistorySegments(sep: string, translation: string)
    requires ValidSeparator(sep)
    ensures AllSegments(sep, NewHistory(sep, true, translation))
    ensures |Segments(sep, translation)| <= 2 ==> NewHistory(sep, true, translation) == Segments(sep, translation)
  {
    SegmentsAreSegments(sep, translation);
  }

  // ---------------------------------------------------------------------------
  // handle_request as a transition (cloud_translator.py:128-227)

  /** The fixed settings of a translator: both backends and the separator. */
  datatype Setup = Setup(primary: ApiConfig, secondary: ApiConfig, sep: string)

  /** The mutable part of a translator. */
  datatype CloudState = CloudState(current: Api, history: seq<string>, isFirstSuccess: bool)

  /** What one request does: its result, the POSTs made, and the state afterwards. */
  datatype Outcome = Outcome(result: Result<Translation, CloudFailure>, calls: seq<Call>, state: CloudState)

  function ConfigOf(setup: Setup, api: Api): ApiConfig {
    if api == Primary then setup.primary else setup.secondary
  }

  /** The history a backend is sent: the kept one, or none when its context is disabled. */
  function KeptHistory(setup: Setup, api: Api, history: seq<string>): seq<string> {
    if ConfigOf(setup, api).contextEnabled then history else []
  }

  /** The POST to a backend: its settings and its prompt for the text. */
  function RequestCall(setup: Setup, api: Api, history: seq<string>, text: string,
                       source: Option<string>, target: Option<string>): Call
  {
    Call(ConfigOf(setup, api), Translate(api, ConfigOf(setup, api).contextEnabled, history, text, source, target))
  }

  /** The text returned for a raw translation: the repaired format, trimmed (cloud_translator.py:226). */
  function FinalText(sep: string, translation: string): string
    requires |sep| > 0
  {
    Strip(RepairBody(sep, translation))
  }

  /**
    How far a request gets before the shared tail: a raw translation from the
    backend `state.current` (or the error raised), the POSTs made, and the state.
   */
  datatype Routed = Routed(result: Result<string, CloudFailure>, calls: seq<Call>, state: CloudState)

  /**
    The branches of `handle_request` for the trimmed text `t` (cloud_translator.py:134-207):
    `first` is how the attempt on the active backend ends (`_send_request`, then
    `_process_response`), `second` how a retry on the secondary backend would end.
   */
  function Route(setup: Setup, s: CloudState, t: string, source: Option<string>, target: Option<string>,
                 first: Result<string, ApiError>, second: Result<string, ApiError>): Routed
  {
    var h1 := KeptHistory(setup, s.current, s.history);
    var calls1 := [RequestCall(setup, s.current, h1, t, source, target)];
    match first
    case Ok(translated) => Routed(Ok(translated), calls1, CloudState(s.current, h1, s.isFirstSuccess))
    case Err(e) =>
      if s.current == Secondary then
        Routed(Err(if Mentions401(e) then BackupKeyInvalid else SecondaryFailed(e)), calls1, CloudState(Secondary, h1, false))
      else if setup.secondary.key == "" then
        Routed(Err(NoBackup(e)), calls1, CloudState(Primary, h1, false))
      else
        var h2 := KeptHistory(setup, Secondary, h1);
        var calls2 := calls1 + [RequestCall(setup, Secondary, h2, t, source, target)];
        match second
        case Ok(translated) => Routed(Ok(translated), calls2, CloudState(Secondary, h2, false))
        case Err(e2) => Routed(Err(BackupFailed(e2)), calls2, CloudState(Secondary, h2, false))
  }

  /**
    The shared tail (cloud_translator.py:209-227): a raw translation is repaired and
    reported with the model of the backend that produced it, and the history is
    rebuilt from it when that backend has context enabled.
   */
  function Finish(setup: Setup, r: Routed): Outcome
    requires |setup.sep| > 0
  {
    match r.result
    case Err(f) => Outcome(Err(f), r.calls, r.state)
    case Ok(translated) =>
      Outcome(Ok(Translation(FinalText(setup.sep, translated), ConfigOf(setup, r.state.current).model)), r.calls,
              CloudState(r.state.current,
                         if ConfigOf(setup, r.state.current).contextEnabled then Last2(Segments(setup.sep, translated))
                         else r.state.history,
                         r.state.isFirstSuccess))
  }

  /** A translation that arrived: the repaired text, and the history its segments update. */
  lemma FinishOk(setup: Setup, translated: string, calls: seq<Call>, s: CloudState, text: string, kept: seq<string>)
    requires |setup.sep| > 0 && text == FinalText(setup.sep, translated)
    requires kept == if ConfigOf(setup, s.current).contextEnabled then Last2(Segments(setup.sep, translated)) else s.history
    ensures Finish(setup, Routed(Ok(translated), calls, s)) ==
      Outcome(Ok(Translation(text, ConfigOf(setup, s.current).model)), calls, CloudState(s.current, kept, s.isFirstSuccess))
  {
  }

  /** One `handle_request` from state `s` (cloud_translator.py:128-227). */
  function Handle(setup: Setup, s: CloudState, t: string, source: Option<string>, target: Option<string>,
                  first: Result<string, ApiError>, second: Result<string, ApiError>): Outcome
    requires |setup.sep| > 0
  {
    Finish(setup, Route(setup, s, t, source, target, first, second))
  }

  /** The tail changes only the result and, on success, the history. */
  lemma FinishFacts(setup: Setup, r: Routed, o: Outcome)
    requires |setup.sep| > 0 && o == Finish(setup, r)
    ensures o.calls == r.calls && o.state.current == r.state.current && o.state.isFirstSuccess == r.state.isFirstSuccess
    ensures r.result.Err? ==> o.result == Err(r.result.error) && o.state == r.state
    ensures r.result.Ok? ==>
      o.result == Ok(Translation(FinalText(setup.sep, r.result.value), ConfigOf(setup, r.state.current).model))
    ensures r.result.Ok? && ConfigOf(setup, r.state.current).contextEnabled ==>
      o.state.history == NewHistory(setup.sep, true, r.result.value)
    ensures !ConfigOf(setup, r.state.current).contextEnabled ==> o.state.history == r.state.history
  {
  }

  /** The first POST goes to the active backend with the kept history, or none when its context is disabled. */
  lemma HandleFirstCall(setup: Setup, s: CloudState, t: string, source: Option<string>, target: Option<string>,
                        first: Result<string, ApiError>, second: Result<string, ApiError>, o: Outcome)
    requires |setup.sep| > 0 && o == Handle(setup, s, t, source, target, first, second)
    ensures 1 <= |o.calls| <= 2 && o.calls[0].config == ConfigOf(setup, s.current)
    ensures o.calls[0].prompt == Translate(s.current, ConfigOf(setup, s.current).contextEnabled,
      if ConfigOf(setup, s.current).contextEnabled then s.history else [], t, source, target)
  {
    var r := Route(setup, s, t, source, target, first, second);
    RouteFirstCall(setup, s, t, source, target, first, second, r);
    FinishFacts(setup, r, o);
  }

  /** The outcomes of routing, case by case. */
  lemma RouteCases(setup: Setup, s: CloudState, t: string, source: Option<string>, target: Option<string>,
                   first: Result<string, ApiError>, second: Result<string, ApiError>)
    ensures var h1 := KeptHistory(setup, s.current, s.history);
      var calls1 := [RequestCall(setup, s.current, h1, t, source, target)];
      var r := Route(setup, s, t, source, target, first, second);
      && (first.Ok? ==> r == Routed(Ok(first.value), calls1, CloudState(s.current, h1, s.isFirstSuccess)))
      && (first.Err? && s.current == Secondary ==>
            r == Routed(Err(if Mentions401(first.error) then BackupKeyInvalid else SecondaryFailed(first.error)), calls1,
                        CloudState(Secondary, h1, false)))
      && (first.Err? && s.current == Primary && setup.secondary.key == "" ==>
            r == Routed(Err(NoBackup(first.error)), calls1, CloudState(Primary, h1, false)))
      && (first.Err? && s.current == Primary && setup.secondary.key != "" ==>
            var h2 := KeptHistory(setup, Secondary, h1);
            var calls2 := calls1 + [RequestCall(setup, Secondary, h2, t, source, target)];
            r == Routed(if second.Ok? then Ok(second.value) else Err(BackupFailed(second.error)), calls2, CloudState(Secondary, h2, false)))
  {
  }

  /** Routing makes one or two POSTs, the first to the active backend with its kept history. */
  lemma RouteFirstCall(setup: Setup, s: CloudState, t: string, source: Option<string>, target: Option<string>,
                       first: Result<string, ApiError>, second: Result<string, ApiError>, r: Routed)
    requires r == Route(setup, s, t, source, target, first, second)
    ensures 1 <= |r.calls| <= 2 && r.calls[0] == RequestCall(setup, s.current, KeptHistory(setup, s.current, s.history), t, source, target)
  {
  }

  /**
    Success on the first attempt: no switch and no second POST; the active backend's
    model is reported, the text is the repaired translation trimmed, and the history
    is rebuilt from the translation when context is enabled, emptied otherwise.
   */
  lemma HandleSuccess(setup: Setup, s: CloudState, t: string, source: Option<string>, target: Option<string>,
                      translated: string, second: Result<string, ApiError>, o: Outcome)
    requires |setup.sep| > 0 && o == Handle(setup, s, t, source, target, Ok(translated), second)
    ensures |o.calls| == 1 && o.state.current == s.current && o.state.isFirstSuccess == s.isFirstSuccess
    ensures o.result == Ok(Translation(FinalText(setup.sep, translated), ConfigOf(setup, s.current).model))
    ensures o.state.history == NewHistory(setup.sep, ConfigOf(setup, s.current).contextEnabled, translated)
  {
    FinishFacts(setup, Route(setup, s, t, source, target, Ok(translated), second), o);
  }

  /** Any failure of the first attempt clears `is_first_success` (cloud_translator.py:165). */
  lemma HandleFailureClearsFlag(setup: Setup, s: CloudState, t: string, source: Option<string>, target: Option<string>,
                                e: ApiError, second: Result<string, ApiError>, o: Outcome)
    requires |setup.sep| > 0 && o == Handle(setup, s, t, source, target, Err(e), second)
    ensures !o.state.isFirstSuccess
  {
    var r := Route(setup, s, t, source, target, Err(e), second);
    assert !r.state.isFirstSuccess;
    FinishFacts(setup, r, o);
  }

  /** PRIMARY fails and there is no secondary key: an error, no second POST, still PRIMARY. */
  lemma HandleNoBackup(setup: Setup, s: CloudState, t: string, source: Option<string>, target: Option<string>,
                       e: ApiError, second: Result<string, ApiError>, o: Outcome)
    requires |setup.sep| > 0 && s.current == Primary && setup.secondary.key == ""
    requires o == Handle(setup, s, t, source, target, Err(e), second)
    ensures |o.calls| == 1 && o.state.current == Primary && o.result == Err(NoBackup(e))
  {
    FinishFacts(setup, Route(setup, s, t, source, target, Err(e), second), o);
  }

  /**
    PRIMARY fails and a secondary key is present: the state becomes SECONDARY and
    exactly one POST goes to the secondary backend; on success its model is
    reported, on failure the backup error is raised and the state stays SECONDARY.
   */
  lemma HandleFailover(setup: Setup, s: CloudState, t: string, source: Option<string>, target: Option<string>,
                       e: ApiError, second: Result<string, ApiError>, o: Outcome)
    requires |setup.sep| > 0 && s.current == Primary && setup.secondary.key != ""
    requires o == Handle(setup, s, t, source, target, Err(e), second)
    ensures |o.calls| == 2 && o.calls[1].config == setup.secondary && o.state.current == Secondary
    ensures second.Ok? ==> o.result == Ok(Translation(FinalText(setup.sep, second.value), setup.secondary.model))
    ensures second.Err? ==> o.result == Err(BackupFailed(second.error))
  {
    FinishFacts(setup, Route(setup, s, t, source, target, Err(e), second), o);
  }

  /** A failure while SECONDARY raises without switching; a 401 raises the distinct backup-key error. */
  lemma HandleSecondaryFailure(setup: Setup, s: CloudState, t: string, source: Option<string>, target: Option<string>,
                               e: ApiError, second: Result<string, ApiError>, o: Outcome)
    requires |setup.sep| > 0 && s.current == Secondary
    requires o == Handle(setup, s, t, source, target, Err(e), second)
    ensures |o.calls| == 1 && o.state.current == Secondary
    ensures o.result == Err(if Mentions401(e) then BackupKeyInvalid else SecondaryFailed(e))
  {
    FinishFacts(setup, Route(setup, s, t, source, target, Err(e), second), o);
  }

  /** In SECONDARY, a 401 reply is the fatal backup-key error and a 429 is not. */
  lemma HandleSecondaryStatus(setup: Setup, s: CloudState, t: string, source: Option<string>, target: Option<string>,
                              reply: Reply, second: Result<string, ApiError>, unescape: string -> string, o: Outcome)
    requires |setup.sep| > 0 && s.current == Secondary && reply.HttpStatus?
    requires o == Handle(setup, s, t, source, target, Attempt(reply, unescape), second)
    ensures reply.code == 401 ==> o.result == Err(BackupKeyInvalid)
    ensures reply.code == 429 ==> o.result == Err(SecondaryFailed(RateLimited))
  {
    Mentions401Cases();
    FinishFacts(setup, Route(setup, s, t, source, target, Attempt(reply, unescape), second), o);
  }

  /** The history never holds more than two entries, and is empty whenever the backend in use has context disabled. */
  lemma HandleHistory(setup: Setup, s: CloudState, t: string, source: Option<string>, target: Option<string>,
                      first: Result<string, ApiError>, second: Result<string, ApiError>, o: Outcome)
    requires |setup.sep| > 0 && |s.history| <= 2 && o == Handle(setup, s, t, source, target, first, second)
    ensures |o.state.history| <= 2
    ensures !ConfigOf(setup, o.state.current).contextEnabled ==> o.state.history == []
  {
    FinishFacts(setup, Route(setup, s, t, source, target, first, second), o);
  }

  // ---------------------------------------------------------------------------
  // The translator

  class CloudTranslator {
    const primary: ApiConfig
    const secondary: ApiConfig
    const sep: string
    /** `html.unescape`, not modelled. */
    const unescape: string -> string

    var current: Api
    var history: seq<string>
    var isFirstSuccess: bool

    ghost predicate Valid()
      reads this
    {
      ValidSeparator(sep) && |history| <= 2
    }

    /** `__init__` (cloud_translator.py:17-24): PRIMARY, no history. */
    constructor (primary: ApiConfig, secondary: ApiConfig, sep: string, unescape: string -> string)
      requires ValidSeparator(sep)
      ensures Valid()
      ensures this.primary == primary && this.secondary == secondary && this.sep == sep && this.unescape == unescape
      ensures current == Primary && history == [] && !isFirstSuccess
    {
      this.primary := primary;
      this.secondary := secondary;
      this.sep := sep;
      this.unescape := unescape;
      current := Primary;
      history := [];
      isFirstSuccess := false;
    }

    function Settings(): Setup {
      Setup(primary, secondary, sep)
    }

    function State(): CloudState
      reads this
    {
      CloudState(current, history, isFirstSuccess)
    }

    /**
      `handle_request` (cloud_translator.py:128-227), step by step. `calls` lists
      the POSTs made; result, calls and new state are those of `Handle`.
     */
    method HandleRequest(text: string, source: Option<string>, target: Option<string>, first: Reply, second: Reply)
      returns (result: Result<Translation, CloudFailure>, calls: seq<Call>)
      requires Valid()
      modifies this
      ensures Valid()
      ensures Outcome(result, calls, State()) ==
        Handle(Settings(), old(State()), Strip(text), source, target, Attempt(first, unescape), Attempt(second, unescape))
    {
      var routed := TryBackends(Strip(text), source, target, first, second);
      calls := routed.calls;
      if routed.result.Err? {
        return Err(routed.result.error), calls;
      }
      result := Complete(routed.result.value, calls);
    }

    /**
      The branches of `handle_request` (cloud_translator.py:134-207): the attempt on
      the active backend, then on failure the error raised or the switch and the
      single retry. `routed` is the raw translation (or error), the POSTs made and
      the state reached.
     */
    method TryBackends(t: string, source: Option<string>, target: Option<string>, first: Reply, second: Reply)
      returns (routed: Routed)
      requires Valid()
      modifies this
      ensures Valid() && State() == routed.state
      ensures routed == Route(Settings(), old(State()), t, source, target, Attempt(first, unescape), Attempt(second, unescape))
    {
      var attempt := Attempt(first, unescape);
      RouteCases(Settings(), State(), t, source, target, attempt, Attempt(second, unescape));
      if !ConfigOf(Settings(), current).contextEnabled {
        history := [];
      }
      var calls := [RequestCall(Settings(), current, history, t, source, target)];
      if attempt.Ok? {
        return Routed(Ok(attempt.value), calls, State());
      }
      isFirstSuccess := false;
      if current == Secondary {
        if Mentions401(attempt.error) {
          return Routed(Err(BackupKeyInvalid), calls, State());
        }
        return Routed(Err(SecondaryFailed(attempt.error)), calls, State());
      }
      if secondary.key == "" {
        return Routed(Err(NoBackup(attempt.error)), calls, State());
      }
      calls := SwitchToSecondary(t, source, target, calls);
      var retry := Attempt(second, unescape);
      if retry.Err? {
        return Routed(Err(BackupFailed(retry.error)), calls, State());
      }
      routed := Routed(Ok(retry.value), calls, State());
    }

    /** The switch to SECONDARY and the preparation of the retry (cloud_translator.py:176-195). */
    method SwitchToSecondary(t: string, source: Option<string>, target: Option<string>, calls0: seq<Call>)
      returns (calls: seq<Call>)
      requires Valid()
      modifies this
      ensures Valid() && current == Secondary && isFirstSuccess == old(isFirstSuccess)
      ensures history == KeptHistory(Settings(), Secondary, old(history))
      ensures calls == calls0 + [RequestCall(Settings(), Secondary, history, t, source, target)]
    {
      current := Secondary;
      if !secondary.contextEnabled {
        history := [];
      }
      calls := calls0 + [RequestCall(Settings(), Secondary, history, t, source, target)];
    }

    /** A translation was obtained from the active backend: rebuild the history and report (cloud_translator.py:209-227). */
    method Complete(translated: string, calls: seq<Call>) returns (result: Result<Translation, CloudFailure>)
      requires Valid()
      modifies this
      ensures Valid()
      ensures Outcome(result, calls, State()) == Finish(Settings(), Routed(Ok(translated), calls, old(State())))
    {
      var config := ConfigOf(Settings(), current);
      var text := FinalText(sep, translated);
      var kept := if config.contextEnabled then Last2(Segments(sep, translated)) else history;
      FinishOk(Settings(), translated, calls, State(), text, kept);
      history := kept;
      result := Ok(Translation(text, config.model));
    }

    /**
      One tick of `_background_check_primary_api` (cloud_translator.py:113-126),
      after the sleep: `keepProbing` is false when the loop stops, `call` is the
      test POST made and `reply` how it ends.
     */
    method ProbeTick(reply: Reply) returns (keepProbing: bool, call: Option<Call>)
      requires Valid()
      modifies this
      ensures Valid()
      ensures history == old(history) && isFirstSuccess == old(isFirstSuccess)
      ensures primary.key == "" ==> !keepProbing && call == None && current == old(current)
      ensures primary.key != "" ==> keepProbing && call == Some(Call(primary, Hello))
      ensures primary.key != "" && SendRequest(reply).Ok? ==> current == Primary
      ensures primary.key != "" && SendRequest(reply).Err? ==> current == old(current)
    {
      if primary.key == "" {
        return false, None;
      }
      call := Some(Call(primary, Hello));
      keepProbing := true;
      if SendRequest(reply).Ok? {
        if current == Secondary {
          current := Primary;
        }
      }
    }
  }
}
