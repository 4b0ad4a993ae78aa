/**
  What both translators share about a chat-completion backend: the outcome of one
  HTTP exchange (an input of the model, since the network is not modelled), the
  chat messages sent, the configuration of one backend, and the navigation of a
  reply body down to its text (`_process_response`, identical in
  src/translators/cloud_translator.py and src/translators/local_translator.py).
 */
module Backend {
  import opened Wrappers
  import opened PyText
  import opened Json

  /**
    How one POST ended. `Delivered` carries the decoded JSON body of a 2xx/3xx reply;
    `Undecodable` is a reply whose body is not JSON (`response.json()` raises);
    `HttpStatus` is a 4xx/5xx reply (`raise_for_status` raises `HTTPError`), with
    the text of that exception; `Transport` is any other `RequestException`.
   */
  datatype Reply =
    | Delivered(body: Value)
    | Undecodable
    | HttpStatus(code: nat, reason: string)
    | Transport(reason: string)

  datatype Message = Message(role: string, content: string)

  /** One backend's settings; an empty `key` is a missing one. */
  datatype ApiConfig = ApiConfig(url: string, key: string, model: string, contextEnabled: bool)

  /** What `handle_request` returns: the final text and the model that produced it. */
  datatype Translation = Translation(text: string, model: string)

  /**
    `api_response.get('choices', [{}])[0].get('message', {}).get('content', '')`:
    the content string, or `None` where Python raises (a body that is not an
    object, `choices` that is not a non-empty list of objects, a `message` that is
    not an object, a `content` that is not a string).
   */
  function ResponseContent(body: Value): Option<string> {
    if !body.Obj? then None
    else match GetOr(body.fields, "choices", Arr([Obj(map[])]))
      case Arr(items) =>
        if items == [] || !items[0].Obj? then None
        else (match GetOr(items[0].fields, "message", Obj(map[]))
              case Obj(msg) =>
                (match GetOr(msg, "content", Str(""))
                 case Str(s) => Some(s)
                 case _ => None)
              case _ => None)
      case _ => None
  }

  /** `_process_response`: the unescaped content, trimmed; `None` where it raises. */
  function ProcessResponse(body: Value, unescape: string -> string): (r: Option<string>)
    ensures r.Some? ==> Trimmed(r.value)
  {
    match ResponseContent(body)
    case Some(s) => Some(Strip(unescape(s)))
    case None => None
  }

  /** A standard reply yields its first choice's message content, unescaped and trimmed. */
  lemma ProcessStandardReply(body: Value, unescape: string -> string, s: string)
    requires body.Obj? && "choices" in body.fields && body.fields["choices"].Arr?
    requires var items := body.fields["choices"].items;
      items != [] && items[0].Obj? && "message" in items[0].fields && items[0].fields["message"].Obj?
      && "content" in items[0].fields["message"].fields
      && items[0].fields["message"].fields["content"] == Str(s)
    ensures ProcessResponse(body, unescape) == Some(Strip(unescape(s)))
  {
  }

  /** Every missing level defaults: an object without `choices`, or a choice without `message` or `content`, yields the empty text. */
  lemma ProcessDefaults(fields: map<string, Value>, unescape: string -> string)
    requires unescape("") == ""
    requires "choices" !in fields
    ensures ProcessResponse(Obj(fields), unescape) == Some("")
  {
    assert Strip("") == "";
  }

  /** A body that is not an object, an empty `choices` list or a non-string `content` is a failure. */
  lemma ProcessRejects(body: Value, unescape: string -> string)
    ensures !body.Obj? ==> ProcessResponse(body, unescape).None?
    ensures body.Obj? && GetOr(body.fields, "choices", Null) == Arr([]) ==> ProcessResponse(body, unescape).None?
    ensures body.Obj? && GetOr(body.fields, "choices", Null).Str? ==> ProcessResponse(body, unescape).None?
  {
  }

  /** A non-string content is a failure, whatever else the reply holds. */
  lemma ProcessNonStringContent(item: map<string, Value>, msg: map<string, Value>, c: Value, unescape: string -> string)
    requires !c.Str?
    requires "message" in item && item["message"] == Obj(msg) && "content" in msg && msg["content"] == c
    ensures ProcessResponse(Obj(map["choices" := Arr([Obj(item)])]), unescape).None?
  {
  }
}
