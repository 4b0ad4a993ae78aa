/**
  `LocalTranslator` of src/translators/local_translator.py: one local (Ollama-style)
  backend. Before each request the model may be warmed up once; the text is
  prepared with markers around its separators and, when context is enabled, framed
  by the previous request's last segment (the context slot); the reply is cleaned
  and put back into MORT format.
 */
module Local {
  import opened Wrappers
  import opened PyText
  import opened Json
  import opened Mort
  import opened Backend
  import opened Markers

  /** Why `handle_request` raised. */
  datatype LocalFailure =
    | TextNotText                  // `.strip()` of a text that is not a string (line 104)
    | TargetNotText                // `.lower()` of a missing or non-string target (lines 70, 113)
    | NetworkError(message: string) // the `RuntimeError` of `_send_request` (line 43)
    | NotJson                      // `response.json()` raises (line 44)
    | Malformed                    // `_process_response` raises (line 48)

  // ---------------------------------------------------------------------------
  // The warm-up (local_translator.py:80-98)

  const OllamaHost: string := "localhost:11434"

  /** Where the warm-up POST goes: the chat endpoint replaced by the generate endpoint. */
  function WarmupUrl(url: string): string {
    Replace(url, "/v1/chat/completions", "/api/generate")
  }

  /** What the warm-up does: the POST it makes, if any, and the new flag. */
  datatype Warmed = Warmed(post: Option<string>, done: bool)

  /**
    `_warmup_model`: nothing once done; for an Ollama host one POST, and the flag is
    set only when it did not raise (`posted`); for any other host the flag is set
    without a POST.
   */
  function WarmupStep(url: string, done: bool, posted: bool): (w: Warmed)
    ensures done ==> w == Warmed(None, true)
    ensures !done && Find(url, OllamaHost) >= 0 ==> w == Warmed(Some(WarmupUrl(url)), posted)
    ensures !done && Find(url, OllamaHost) < 0 ==> w == Warmed(None, true)
  {
    if done then Warmed(None, true)
    else if Find(url, OllamaHost) >= 0 then Warmed(Some(WarmupUrl(url)), posted)
    else Warmed(None, true)
  }

  /** Once the flag is set there is no further warm-up, whatever happens. */
  lemma WarmupOnce(url: string, done: bool, posted: bool, posted2: bool)
    ensures WarmupStep(url, done, posted).done ==> WarmupStep(url, WarmupStep(url, done, posted).done, posted2) == Warmed(None, true)
    ensures WarmupStep(url, done, posted).done || (Find(url, OllamaHost) >= 0 && !posted)
  {
  }

  // ---------------------------------------------------------------------------
  // The POST and its reply (local_translator.py:22-49)

  /** Stand-in for the system prompt's fixed wording. */
  const SystemIntro: string := "[translation API role]\n"
  const SystemRules: string := "[format rules]"

  /** `f"{value}"` for the values a language code can be; other values are shown by a placeholder. */
  function Shown(v: Value): string {
    match v
    case Str(s) => s
    case Null => "None"
    case _ => "[value]"
  }

  /** What the messages of the POST are built from: the two languages and the user message. */
  datatype Prompt = Prompt(source: Value, target: string, user: string)

  function SystemText(source: Value, target: string): string {
    SystemIntro + "Translate the following text from '" + Shown(source) + "' to '" + target + "'.\n" + SystemRules
  }

  /** `_prepare_messages`: the system prompt naming the languages, then the user message. */
  function Messages(p: Prompt): (r: seq<Message>)
    ensures |r| == 2 && r[0].role == "system" && r[1] == Message("user", p.user)
  {
    [Message("system", SystemText(p.source, p.target)), Message("user", p.user)]
  }

  const NetworkPrefix: string := "Network error during " + "Local API request: "

  /**
    `_send_request` then `_process_response`: the trimmed content, or what is raised.
    A failed POST or a failure status becomes the network `RuntimeError`; a body that
    is not JSON or cannot be navigated raises from outside the `try` of line 39.
   */
  function Exchange(reply: Reply, unescape: string -> string): (r: Result<string, LocalFailure>)
    ensures r.Ok? ==> Trimmed(r.value)
    ensures reply.HttpStatus? ==> r == Err(NetworkError(NetworkPrefix + reply.reason))
    ensures reply.Transport? ==> r == Err(NetworkError(NetworkPrefix + reply.reason))
    ensures reply.Undecodable? ==> r == Err(NotJson)
    ensures reply.Delivered? ==> (r.Ok? <==> ProcessResponse(reply.body, unescape).Some?)
  {
    match reply
    case Delivered(body) =>
      var t := ProcessResponse(body, unescape);
      if t.Some? then Ok(t.value) else Err(Malformed)
    case Undecodable => Err(NotJson)
    case HttpStatus(_, reason) => Err(NetworkError(NetworkPrefix + reason))
    case Transport(reason) => Err(NetworkError(NetworkPrefix + reason))
  }

  // ---------------------------------------------------------------------------
  // One request as a function of the state

  datatype Setup = Setup(config: ApiConfig, sep: string, unescape: string -> string, isWord: char -> bool)

  /** The mutable part of a translator: the context slot and the two flags. */
  datatype LocalState = LocalState(slot: string, warmupDone: bool, firstSuccess: bool)

  /** The fields `handle_request` reads from the request body, with the defaults of `data.get`. */
  datatype Request = Request(text: Value, source: Value, target: Value)

  function Fields(data: map<string, Value>): Request {
    Request(GetOr(data, "text", Str("")), GetOr(data, "source", Null), GetOr(data, "target", Null))
  }

  /** What one request does: its result, the warm-up POST, the chat POST and the state afterwards. */
  datatype Outcome = Outcome(result: Result<Translation, LocalFailure>, warmup: Option<string>, call: Option<Prompt>, state: LocalState)

  /** Lines 105-122 for a string target: the context, the injected text, and the slot afterwards. */
  datatype Outgoing = Outgoing(context: string, injected: string, slot: string)

  function Outgo(setup: Setup, slot: string, t: string, target: string): Outgoing
    requires ValidSeparator(setup.sep)
  {
    var sel := SelectContext(setup.config.contextEnabled, slot, t);
    var injected := Prepare(setup.sep, setup.isWord, sel.context, sel.text, target);
    Outgoing(sel.context, injected, if setup.config.contextEnabled then SlotOf(setup.sep, injected) else slot)
  }

  /**
    Lines 124-149 once the text is prepared: the POST, then the flag, and on success
    the reply put back into MORT format and reported with the model.
   */
  function Deliver(setup: Setup, done: bool, out: Outgoing, source: Value, target: string, reply: Reply,
                   warmup: Option<string>): Outcome
    requires ValidSeparator(setup.sep)
  {
    var prompt := Prompt(source, target, UserContent(out.context, out.injected));
    var raw := Exchange(reply, setup.unescape);
    if raw.Ok? then
      Outcome(Ok(Translation(Respond(setup.sep, out.context, raw.value), setup.config.model)), warmup, Some(prompt),
              LocalState(out.slot, done, true))
    else Outcome(Err(raw.error), warmup, Some(prompt), LocalState(out.slot, done, false))
  }

  /** `Deliver` as one outcome whose parts depend on the exchange. */
  lemma DeliverIs(setup: Setup, done: bool, out: Outgoing, source: Value, target: string, reply: Reply,
                  warmup: Option<string>, raw: Result<string, LocalFailure>)
    requires ValidSeparator(setup.sep) && raw == Exchange(reply, setup.unescape)
    ensures Deliver(setup, done, out, source, target, reply, warmup) ==
      Outcome(if raw.Ok? then Ok(Translation(Respond(setup.sep, out.context, raw.value), setup.config.model)) else Err(raw.error),
              warmup, Some(Prompt(source, target, UserContent(out.context, out.injected))), LocalState(out.slot, done, raw.Ok?))
  {
  }

  /**
    One `handle_request` from state `s` (local_translator.py:100-149): `req` holds the
    fields of the request body, `posted` whether a warm-up POST would return, `reply` how the chat
    POST ends.
   */
  function Handle(setup: Setup, s: LocalState, req: Request, posted: bool, reply: Reply): Outcome
    requires ValidSeparator(setup.sep)
  {
    var w := WarmupStep(setup.config.url, s.warmupDone, posted);
    var s1 := LocalState(s.slot, w.done, s.firstSuccess);
    match req.text
    case Str(text) =>
      (match req.target
       case Str(target) =>
         Deliver(setup, w.done, Outgo(setup, s.slot, Strip(text), target), req.source, target, reply, w.post)
       case _ => Outcome(Err(TargetNotText), w.post, None, s1))
    case _ => Outcome(Err(TextNotText), w.post, None, s1)
  }

  // ---------------------------------------------------------------------------
  // Properties of a request

  /** The POST is made and recorded, the slot is the prepared one, the flag is the reply's success. */
  lemma DeliverFacts(setup: Setup, done: bool, out: Outgoing, source: Value, target: string, reply: Reply,
                     warmup: Option<string>, o: Outcome)
    requires ValidSeparator(setup.sep) && o == Deliver(setup, done, out, source, target, reply, warmup)
    ensures o.warmup == warmup && o.call == Some(Prompt(source, target, UserContent(out.context, out.injected)))
    ensures o.state == LocalState(out.slot, done, Exchange(reply, setup.unescape).Ok?)
    ensures Exchange(reply, setup.unescape).Err? ==> o.result == Err(Exchange(reply, setup.unescape).error)
    ensures Exchange(reply, setup.unescape).Ok? ==>
      o.result == Ok(Translation(Respond(setup.sep, out.context, Exchange(reply, setup.unescape).value), setup.config.model))
  {
  }

  /**
    The three ways a request goes: the warm-up always runs first; a text that is not
    a string, or a target that is not one, raises before anything else changes;
    otherwise the text is prepared and sent.
   */
  lemma HandleCases(setup: Setup, s: LocalState, req: Request, posted: bool, reply: Reply, o: Outcome)
    requires ValidSeparator(setup.sep) && o == Handle(setup, s, req, posted, reply)
    ensures o.warmup == WarmupStep(setup.config.url, s.warmupDone, posted).post
    ensures o.state.warmupDone == WarmupStep(setup.config.url, s.warmupDone, posted).done
    ensures !req.text.Str? ==>
      o.result == Err(TextNotText) && o.call == None && o.state.slot == s.slot && o.state.firstSuccess == s.firstSuccess
    ensures req.text.Str? && !req.target.Str? ==>
      o.result == Err(TargetNotText) && o.call == None && o.state.slot == s.slot && o.state.firstSuccess == s.firstSuccess
    ensures req.text.Str? && req.target.Str? ==>
      o == Deliver(setup, WarmupStep(setup.config.url, s.warmupDone, posted).done,
                   Outgo(setup, s.slot, Strip(req.text.s), req.target.s),
                   req.source, req.target.s, reply, WarmupStep(setup.config.url, s.warmupDone, posted).post)
  {
    var w := WarmupStep(setup.config.url, s.warmupDone, posted);
    if req.text.Str? && req.target.Str? {
      DeliverFacts(setup, w.done,
                   Outgo(setup, s.slot, Strip(req.text.s), req.target.s),
                   req.source, req.target.s, reply, w.post, o);
    }
  }

  /**
    A missing or non-string target raises at the article step (line 113), after the
    warm-up and before the slot update: no POST, slot and success flag unchanged.
   */
  lemma HandleTargetNotText(setup: Setup, s: LocalState, req: Request, posted: bool, reply: Reply, o: Outcome)
    requires ValidSeparator(setup.sep) && o == Handle(setup, s, req, posted, reply)
    requires req.text.Str? && !req.target.Str?
    ensures o.result == Err(TargetNotText) && o.call == None
    ensures o.state.slot == s.slot && o.state.firstSuccess == s.firstSuccess
  {
  }

  /**
    With context enabled the slot is overwritten before the POST (line 122), so it is
    the same whether the POST succeeds or fails, and it is the last separator piece
    of the injected text, markers removed and trimmed.
   */
  lemma HandleSlotBeforeCall(setup: Setup, s: LocalState, req: Request, posted: bool,
                             reply: Reply, reply2: Reply, text: string, target: string)
    requires ValidSeparator(setup.sep) && setup.config.contextEnabled
    requires req.text == Str(text) && req.target == Str(target)
    ensures Handle(setup, s, req, posted, reply).state.slot == Handle(setup, s, req, posted, reply2).state.slot
    ensures Handle(setup, s, req, posted, reply).call.Some?
    ensures Handle(setup, s, req, posted, reply).state.slot ==
      SlotOf(setup.sep, Prepare(setup.sep, setup.isWord, SelectContext(true, s.slot, Strip(text)).context,
                                SelectContext(true, s.slot, Strip(text)).text, target))
  {
    var w := WarmupStep(setup.config.url, s.warmupDone, posted);
    var out := Outgo(setup, s.slot, Strip(text), target);
    HandleCases(setup, s, req, posted, reply, Handle(setup, s, req, posted, reply));
    HandleCases(setup, s, req, posted, reply2, Handle(setup, s, req, posted, reply2));
    DeliverFacts(setup, w.done, out, req.source, target, reply, w.post, Handle(setup, s, req, posted, reply));
    DeliverFacts(setup, w.done, out, req.source, target, reply2, w.post, Handle(setup, s, req, posted, reply2));
  }

  /** With context disabled the slot is kept and the text is sent without a frame. */
  lemma HandleContextDisabled(setup: Setup, s: LocalState, req: Request, posted: bool, reply: Reply,
                              text: string, target: string, o: Outcome)
    requires ValidSeparator(setup.sep) && !setup.config.contextEnabled && o == Handle(setup, s, req, posted, reply)
    requires req.text == Str(text) && req.target == Str(target)
    ensures o.state.slot == s.slot
    ensures o.call == Some(Prompt(req.source, target,
                                  Inject(setup.sep, StripArticles(setup.isWord, Strip(text), target)) + "~@"))
  {
    var w := WarmupStep(setup.config.url, s.warmupDone, posted);
    HandleCases(setup, s, req, posted, reply, o);
    DeliverFacts(setup, w.done, Outgo(setup, s.slot, Strip(text), target), req.source, target, reply, w.post, o);
  }

  /**
    A reply whose content can be read makes the request succeed: the flag is set and
    the reported text is the reply cleaned and repaired, with the model's name.
   */
  lemma HandleSuccess(setup: Setup, s: LocalState, req: Request, posted: bool, body: Value,
                      text: string, target: string, raw: string, o: Outcome)
    requires ValidSeparator(setup.sep) && o == Handle(setup, s, req, posted, Delivered(body))
    requires req.text == Str(text) && req.target == Str(target)
    requires ProcessResponse(body, setup.unescape) == Some(raw)
    ensures o.state.firstSuccess
    ensures o.result == Ok(Translation(Respond(setup.sep, Outgo(setup, s.slot, Strip(text), target).context, raw),
                                       setup.config.model))
  {
    var w := WarmupStep(setup.config.url, s.warmupDone, posted);
    HandleCases(setup, s, req, posted, Delivered(body), o);
    DeliverFacts(setup, w.done, Outgo(setup, s.slot, Strip(text), target), req.source, target, Delivered(body), w.post, o);
  }

  /** Any failure of the POST or of reading its reply raises and clears the flag (lines 133-136). */
  lemma HandleFailure(setup: Setup, s: LocalState, req: Request, posted: bool, reply: Reply,
                      text: string, target: string, o: Outcome)
    requires ValidSeparator(setup.sep) && o == Handle(setup, s, req, posted, reply)
    requires req.text == Str(text) && req.target == Str(target)
    requires Exchange(reply, setup.unescape).Err?
    ensures !o.state.firstSuccess && o.call.Some?
    ensures o.result == Err(Exchange(reply, setup.unescape).error)
  {
    var w := WarmupStep(setup.config.url, s.warmupDone, posted);
    HandleCases(setup, s, req, posted, reply, o);
    DeliverFacts(setup, w.done, Outgo(setup, s.slot, Strip(text), target), req.source, target, reply, w.post, o);
  }

  // ---------------------------------------------------------------------------
  // The translator

  class LocalTranslator {
    const config: ApiConfig
    const sep: string
    /** `html.unescape`, not modelled. */
    const unescape: string -> string
    /** The word-character test of `\b`. */
    const isWord: char -> bool

    var lastSourceSegment: string
    var isWarmupDone: bool
    var isFirstSuccess: bool

    /** `__init__` (local_translator.py:15-20): an empty slot, both flags clear. */
    constructor (config: ApiConfig, sep: string, unescape: string -> string, isWord: char -> bool)
      requires ValidSeparator(sep)
      ensures this.config == config && this.sep == sep && this.unescape == unescape && this.isWord == isWord
      ensures lastSourceSegment == "" && !isWarmupDone && !isFirstSuccess
    {
      this.config := config;
      this.sep := sep;
      this.unescape := unescape;
      this.isWord := isWord;
      lastSourceSegment := "";
      isWarmupDone := false;
      isFirstSuccess := false;
    }

    function Settings(): Setup {
      Setup(config, sep, unescape, isWord)
    }

    function State(): LocalState
      reads this
    {
      LocalState(lastSourceSegment, isWarmupDone, isFirstSuccess)
    }

    /** `_warmup_model` (local_translator.py:80-98); `post` is the warm-up POST made. */
    method WarmupModel(posted: bool) returns (post: Option<string>)
      modifies this
      ensures Warmed(post, isWarmupDone) == WarmupStep(config.url, old(isWarmupDone), posted)
      ensures lastSourceSegment == old(lastSourceSegment) && isFirstSuccess == old(isFirstSuccess)
    {
      post := None;
      if !isWarmupDone {
        if Find(config.url, OllamaHost) >= 0 {
          post := Some(WarmupUrl(config.url));
          if posted {
            isWarmupDone := true;
          }
        } else {
          isWarmupDone := true;
        }
      }
    }

    /** Lines 105-111: the context and the text to translate, from the trimmed text. */
    method SelectText(t: string) returns (context: string, text: string)
      ensures Selected(context, text) == SelectContext(config.contextEnabled, lastSourceSegment, t)
    {
      context, text := "", t;
      if config.contextEnabled {
        var i := Find(t, ContextTag);
        if i >= 0 {
          context, text := Strip(t[..i]), Strip(t[i + |ContextTag|..]);
          SelectFound(lastSourceSegment, t, i);
        } else if lastSourceSegment != "" {
          context := lastSourceSegment;
        }
      }
    }

    /** Lines 113-119: articles, injection, the trim when there is a context, the closing marker. */
    method PrepareText(context: string, text: string, target: string) returns (injected: string)
      requires ValidSeparator(sep)
      ensures injected == Prepare(sep, isWord, context, text, target)
    {
      var processed := StripArticles(isWord, text, target);
      injected := Inject(sep, processed);
      if context != "" && StartsWith(Strip(injected), sep + CRLF) {
        injected := Strip(LStripChars(Strip(injected), sep + CRLF));
      }
      injected := injected + "~@";
    }

    /** Lines 141-147: the part after the first `~@` when there is a context, cleaned and repaired. */
    method Postprocess(context: string, raw: string) returns (final: string)
      requires ValidSeparator(sep)
      ensures final == Respond(sep, context, raw)
    {
      var translated := raw;
      if context != "" {
        var markerIndex := Find(translated, "~@");
        if markerIndex != -1 {
          translated := Strip(translated[markerIndex + 2..]);
        }
        assert translated == AfterMarker(raw);
      }
      assert translated == if context != [] then AfterMarker(raw) else raw;
      var cleaned := CleanRestore(sep, translated);
      final := FinalText(sep, cleaned);
    }

    /**
      `handle_request` (local_translator.py:100-149), step by step: `warmup` is the
      warm-up POST made, `call` what the chat POST was built from; result, POSTs
      and new state are those of `Handle`.
     */
    method HandleRequest(data: map<string, Value>, posted: bool, reply: Reply)
      returns (result: Result<Translation, LocalFailure>, warmup: Option<string>, call: Option<Prompt>)
      requires ValidSeparator(sep)
      modifies this
      ensures Outcome(result, warmup, call, State()) == Handle(Settings(), old(State()), Fields(data), posted, reply)
    {
      ghost var o := Handle(Settings(), old(State()), Fields(data), posted, reply);
      HandleCases(Settings(), old(State()), Fields(data), posted, reply, o);
      warmup := WarmupModel(posted);
      var textValue := GetOr(data, "text", Str(""));
      if !textValue.Str? {
        return Err(TextNotText), warmup, None;
      }
      var targetValue := GetOr(data, "target", Null);
      if !targetValue.Str? {
        return Err(TargetNotText), warmup, None;
      }
      result, call := Proceed(textValue.s, targetValue.s, GetOr(data, "source", Null), reply, warmup);
    }

    /**
      Lines 104-149 for a string text and target: the context split, the prepared
      text, the slot, then the POST. The split has no effect of its own, so taking it
      after the target test changes nothing.
     */
    method Proceed(text: string, target: string, source: Value, reply: Reply, warmup: Option<string>)
      returns (result: Result<Translation, LocalFailure>, call: Option<Prompt>)
      requires ValidSeparator(sep)
      modifies this
      ensures Outcome(result, warmup, call, State())
           == Deliver(Settings(), old(isWarmupDone), Outgo(Settings(), old(lastSourceSegment), Strip(text), target), source, target, reply, warmup)
    {
      var context, t := SelectText(Strip(text));
      var injected := PrepareText(context, t, target);
      if config.contextEnabled {
        lastSourceSegment := SlotOf(sep, injected);
      }
      var out := Outgoing(context, injected, lastSourceSegment);
      assert out == Outgo(Settings(), old(lastSourceSegment), Strip(text), target);
      result, call := Send(out, source, target, reply, warmup);
    }

    /** Lines 124-149: the POST, the flag, and the reply cleaned and repaired. */
    method Send(out: Outgoing, source: Value, target: string, reply: Reply, warmup: Option<string>)
      returns (result: Result<Translation, LocalFailure>, call: Option<Prompt>)
      requires ValidSeparator(sep) && lastSourceSegment == out.slot
      modifies this
      ensures Outcome(result, warmup, call, State()) == Deliver(Settings(), old(isWarmupDone), out, source, target, reply, warmup)
    {
      call := Some(Prompt(source, target, UserContent(out.context, out.injected)));
      var raw := Exchange(reply, unescape);
      DeliverIs(Settings(), isWarmupDone, out, source, target, reply, warmup, raw);
      if raw.Err? {
        isFirstSuccess := false;
        result := Err(raw.error);
      } else {
        isFirstSuccess := true;
        var final := Postprocess(out.context, raw.value);
        result := Ok(Translation(final, config.model));
      }
    }
  }
}
