/**
  The two request checks of src/utils/validators.py. Each builds a list of error
  messages step by step and returns whether that list is empty together with the
  list. The methods follow the source statement by statement. The functions beside
  them say what the result is, and the lemmas say when a request or a
  configuration is accepted. Where Python raises instead of returning, the
  result is `Err` with the exception's type.
 */
module Validators {
  import opened Wrappers
  import opened PyText
  import opened Json

  /**
    The errors the checks report. `Message` gives the text Python appends to its
    list; distinct errors have distinct texts (`MessagesDistinct`), so a list of
    errors and the list of their texts determine each other.
   */
  datatype Problem =
    | NotAnObject
    | MissingField(field: string)
    | NotAString(field: string)
    | BlankField(field: string)
    | TextTooLong
    | SourceTooLong
    | TargetTooLong
    | UrlRequired
    | UrlNotHttp
    | ModelRequired
    | TemperatureRange
    | TemperatureNotNumber

  function Message(p: Problem): string {
    match p
    case NotAnObject => "Request body must be JSON object"
    case MissingField(f) => "Missing required field: " + f
    case NotAString(f) => "Field " + f + " must be a string"
    case BlankField(f) => "Field " + f + " cannot be empty"
    case TextTooLong => "Text too long (max 10000 characters)"
    case SourceTooLong => "Source language code too long"
    case TargetTooLong => "Target language code too long"
    case UrlRequired => "API URL is required"
    case UrlNotHttp => "API URL must be a valid HTTP/HTTPS URL"
    case ModelRequired => "Model name is required"
    case TemperatureRange => "Temperature must be between 0.0 and 2.0"
    case TemperatureNotNumber => "Temperature must be a valid number"
  }

  /** Field-named messages determine their field, and the two "Field ..." messages differ in their last character. */
  lemma FieldMessages(f: string, g: string)
    ensures Message(MissingField(f)) == Message(MissingField(g)) ==> f == g
    ensures Message(NotAString(f)) == Message(NotAString(g)) ==> f == g
    ensures Message(BlankField(f)) == Message(BlankField(g)) ==> f == g
    ensures Message(NotAString(f)) != Message(BlankField(g))
  {
    var m := Message(NotAString(f));
    var b := Message(BlankField(g));
    assert m[|m| - 1] == 'g';
    assert b[|b| - 1] == 'y';
    if Message(MissingField(f)) == Message(MissingField(g)) {
      assert f == Message(MissingField(f))[24..];
    }
    if Message(NotAString(f)) == Message(NotAString(g)) {
      assert |f| == |g|;
      assert f == Message(NotAString(f))[6..6 + |f|];
    }
    if Message(BlankField(f)) == Message(BlankField(g)) {
      assert |f| == |g|;
      assert f == Message(BlankField(f))[6..6 + |f|];
    }
  }

  /** The errors whose message names a field. */
  predicate NamesField(p: Problem) { p.MissingField? || p.NotAString? || p.BlankField? }

  /** Distinct errors have distinct messages. */
  lemma MessagesDistinct(p: Problem, q: Problem)
    requires p != q
    ensures Message(p) != Message(q)
  {
    if !NamesField(p) && !NamesField(q) {
      FixedMessagesDistinct(p, q);
    } else if NamesField(p) && NamesField(q) && (p.NotAString? || p.BlankField?) && (q.NotAString? || q.BlankField?) {
      FieldMessages(p.field, q.field);
      FieldMessages(q.field, p.field);
    } else if p.MissingField? && q.MissingField? {
      FieldMessages(p.field, q.field);
    } else if NamesField(p) {
      OtherStart(p, q);
    } else {
      OtherStart(q, p);
    }
  }

  /** The messages that name no field are distinct literals. */
  lemma FixedMessagesDistinct(p: Problem, q: Problem)
    requires !NamesField(p) && !NamesField(q) && p != q
    ensures Message(p) != Message(q)
  {
  }

  /** A field-named message differs from every message of another kind in its first two characters. */
  lemma OtherStart(p: Problem, q: Problem)
    requires NamesField(p) && !(p.MissingField? && q.MissingField?)
    requires !((p.NotAString? || p.BlankField?) && (q.NotAString? || q.BlankField?))
    ensures Message(p) != Message(q)
  {
    var m, n := Message(p), Message(q);
    if p.MissingField? {
      assert m[1] == 'i';
      assert n[1] != 'i' || n[0] != 'M';
    } else {
      assert m[0] == 'F';
      assert n[0] != 'F';
    }
  }

  /** What both checks return: `(len(errors) == 0, errors)`. */
  datatype Validation = Validation(valid: bool, errors: seq<Problem>)

  /** The exceptions that escape a check: `len()` of a number, boolean or `None`, `.startswith` on a non-string. */
  datatype PyError = TypeError | AttributeError

  function Verdict(errors: seq<Problem>): (v: Validation)
    ensures v.errors == errors && (v.valid <==> errors == [])
  {
    Validation(|errors| == 0, errors)
  }

  /** `[x]` for a reported error, `[]` for none. */
  function Listed(e: Option<Problem>): (r: seq<Problem>)
    ensures |r| <= 1 && (r == [] <==> e.None?)
  {
    match e
    case Some(x) => [x]
    case None => []
  }

  // ---------------------------------------------------------------------------
  // validate_translation_request

  const Required: seq<string> := ["text", "source", "target"]

  /** Python's `len(v)`; `None` where it raises `TypeError`. */
  function Len(v: Value): (n: Option<nat>)
    ensures v.Str? ==> n == Some(|v.s|)
    ensures v.Null? || v.Bool? || v.Num? ==> n.None?
  {
    match v
    case Str(s) => Some(|s|)
    case Arr(items) => Some(|items|)
    case Obj(fields) => Some(|fields|)
    case _ => None
  }

  /** A field that is present, a string, and not blank once stripped. */
  predicate Filled(d: map<string, Value>, f: string) {
    f in d && d[f].Str? && Strip(d[f].s) != []
  }

  /** The one error the if-chain of lines 16-21 reports for field `f`, if any. */
  function FieldError(d: map<string, Value>, f: string): (r: Option<Problem>)
    ensures r == Some(MissingField(f)) <==> f !in d
    ensures r == Some(NotAString(f)) <==> f in d && !d[f].Str?
    ensures r == Some(BlankField(f)) <==> f in d && d[f].Str? && Strip(d[f].s) == []
    ensures r.None? <==> Filled(d, f)
  {
    if f !in d then Some(MissingField(f))
    else if !d[f].Str? then Some(NotAString(f))
    else if Strip(d[f].s) == [] then Some(BlankField(f))
    else None
  }

  /** The errors of the loop of lines 15-21 over the fields `fs`, in their order. */
  function FieldErrors(d: map<string, Value>, fs: seq<string>): (r: seq<Problem>)
    ensures |r| <= |fs|
  {
    if fs == [] then []
    else FieldErrors(d, fs[..|fs| - 1]) + Listed(FieldError(d, fs[|fs| - 1]))
  }

  /** `f in d and len(d[f]) > limit`, which raises when `d[f]` has no length. */
  function TooLong(d: map<string, Value>, f: string, limit: nat): (r: Result<bool, PyError>)
    ensures r.Err? <==> f in d && Len(d[f]).None?
    ensures r == Ok(true) <==> f in d && Len(d[f]).Some? && Len(d[f]).value > limit
  {
    if f !in d then Ok(false)
    else match Len(d[f])
      case None => Err(TypeError)
      case Some(n) => Ok(n > limit)
  }

  /** One length test of lines 24-31: append `message` when the field is too long. */
  function LengthCheck(d: map<string, Value>, f: string, limit: nat, message: Problem,
                       errors: Result<seq<Problem>, PyError>): Result<seq<Problem>, PyError>
  {
    match errors
    case Err(e) => Err(e)
    case Ok(es) =>
      match TooLong(d, f, limit)
      case Err(e) => Err(e)
      case Ok(long) => Ok(if long then es + [message] else es)
  }

  /** `validate_translation_request(body)` (validators.py:5-33). */
  function RequestVerdict(body: Value): (r: Result<Validation, PyError>)
    ensures r.Ok? ==> (r.value.valid <==> r.value.errors == [])
  {
    if !body.Obj? then Ok(Verdict([NotAnObject]))
    else
      var d := body.fields;
      var checked :=
        LengthCheck(d, "target", 10, TargetTooLong,
          LengthCheck(d, "source", 10, SourceTooLong,
            LengthCheck(d, "text", 10000, TextTooLong, Ok(FieldErrors(d, Required)))));
      match checked
      case Err(e) => Err(e)
      case Ok(errors) => Ok(Verdict(errors))
  }

  /** The loop and if-chains of validators.py:5-33, statement by statement. */
  method ValidateTranslationRequest(data: Value) returns (r: Result<Validation, PyError>)
    ensures r == RequestVerdict(data)
  {
    var errors: seq<Problem> := [];
    if !data.Obj? {
      errors := errors + [NotAnObject];
      assert errors == [NotAnObject];
      return Ok(Verdict(errors));
    }
    var d := data.fields;
    var fields := Required;
    for i := 0 to |fields|
      invariant errors == FieldErrors(d, fields[..i])
    {
      var field := fields[i];
      assert fields[..i + 1][..i] == fields[..i];
      if field !in d {
        errors := errors + [MissingField(field)];
      } else if !d[field].Str? {
        errors := errors + [NotAString(field)];
      } else if Strip(d[field].s) == [] {
        errors := errors + [BlankField(field)];
      }
    }
    assert fields[..|fields|] == Required;
    ghost var fieldErrors := errors;
    if "text" in d {
      var n := Len(d["text"]);
      if n.None? {
        return Err(TypeError);
      }
      if n.value > 10000 {
        errors := errors + [TextTooLong];
      }
    }
    assert LengthCheck(d, "text", 10000, TextTooLong, Ok(fieldErrors)) == Ok(errors);
    ghost var afterText := errors;
    if "source" in d {
      var n := Len(d["source"]);
      if n.None? {
        return Err(TypeError);
      }
      if n.value > 10 {
        errors := errors + [SourceTooLong];
      }
    }
    assert LengthCheck(d, "source", 10, SourceTooLong, Ok(afterText)) == Ok(errors);
    ghost var afterSource := errors;
    if "target" in d {
      var n := Len(d["target"]);
      if n.None? {
        return Err(TypeError);
      }
      if n.value > 10 {
        errors := errors + [TargetTooLong];
      }
    }
    assert LengthCheck(d, "target", 10, TargetTooLong, Ok(afterSource)) == Ok(errors);
    return Ok(Verdict(errors));
  }

  /** A body that is not a JSON object gets exactly one error and is refused. */
  lemma RequestNotObject(body: Value)
    requires !body.Obj?
    ensures RequestVerdict(body) == Ok(Validation(false, [NotAnObject]))
    ensures |RequestVerdict(body).value.errors| == 1
  {
  }

  /** Over the three required fields, in order: at most one error each, and which one. */
  lemma {:induction false} RequiredFieldErrors(d: map<string, Value>)
    ensures FieldErrors(d, Required) ==
      Listed(FieldError(d, "text")) + Listed(FieldError(d, "source")) + Listed(FieldError(d, "target"))
  {
    assert Required[..2] == ["text", "source"];
    assert Required[..2][..1] == ["text"];
    assert Required[..2][..1][..0] == [];
    calc {
      FieldErrors(d, Required);
      FieldErrors(d, Required[..2]) + Listed(FieldError(d, "target"));
      FieldErrors(d, Required[..2][..1]) + Listed(FieldError(d, "source")) + Listed(FieldError(d, "target"));
      FieldErrors(d, Required[..2][..1][..0]) + Listed(FieldError(d, "text")) + Listed(FieldError(d, "source"))
        + Listed(FieldError(d, "target"));
    }
  }

  /** A field whose value has no `len()` makes the check raise once the field errors are collected. */
  predicate Unsized(d: map<string, Value>, f: string) {
    f in d && Len(d[f]).None?
  }

  /** Lines 24-31 append one error per field that is too long, after the field errors. */
  function LongErrors(d: map<string, Value>): seq<Problem> {
    (if TooLong(d, "text", 10000) == Ok(true) then [TextTooLong] else [])
    + (if TooLong(d, "source", 10) == Ok(true) then [SourceTooLong] else [])
    + (if TooLong(d, "target", 10) == Ok(true) then [TargetTooLong] else [])
  }

  /**
    For an object body: the check raises exactly when one of the three fields is
    present without a length; otherwise the errors are the field errors followed
    by the length errors.
   */
  lemma RequestErrorsLayout(d: map<string, Value>)
    ensures RequestVerdict(Obj(d)).Err? <==> Unsized(d, "text") || Unsized(d, "source") || Unsized(d, "target")
    ensures RequestVerdict(Obj(d)).Ok? ==>
      RequestVerdict(Obj(d)).value.errors == FieldErrors(d, Required) + LongErrors(d)
  {
    LengthChain(d, FieldErrors(d, Required));
  }

  /** The three length tests after any list `e` of field errors. */
  lemma LengthChain(d: map<string, Value>, e: seq<Problem>)
    ensures var r := LengthCheck(d, "target", 10, TargetTooLong,
                       LengthCheck(d, "source", 10, SourceTooLong,
                         LengthCheck(d, "text", 10000, TextTooLong, Ok(e))));
      (r.Err? <==> Unsized(d, "text") || Unsized(d, "source") || Unsized(d, "target"))
      && (r.Ok? ==> r.value == e + LongErrors(d))
  {
    var a := if TooLong(d, "text", 10000) == Ok(true) then [TextTooLong] else [];
    var b := if TooLong(d, "source", 10) == Ok(true) then [SourceTooLong] else [];
    var c := if TooLong(d, "target", 10) == Ok(true) then [TargetTooLong] else [];
    var r1 := LengthCheck(d, "text", 10000, TextTooLong, Ok(e));
    var r2 := LengthCheck(d, "source", 10, SourceTooLong, r1);
    var r3 := LengthCheck(d, "target", 10, TargetTooLong, r2);
    LengthCheckStep(d, "text", 10000, TextTooLong, Ok(e));
    LengthCheckStep(d, "source", 10, SourceTooLong, r1);
    LengthCheckStep(d, "target", 10, TargetTooLong, r2);
    assert r3.Ok? ==> r3.value == e + a + b + c;
    assert e + a + b + c == e + LongErrors(d);
  }

  /** One length test: an earlier exception passes through, an unsized field raises, otherwise at most one error is added. */
  lemma LengthCheckStep(d: map<string, Value>, f: string, limit: nat, message: Problem,
                        errors: Result<seq<Problem>, PyError>)
    ensures errors.Err? ==> LengthCheck(d, f, limit, message, errors) == errors
    ensures errors.Ok? && Unsized(d, f) ==> LengthCheck(d, f, limit, message, errors) == Err(TypeError)
    ensures errors.Ok? && !Unsized(d, f) ==>
      LengthCheck(d, f, limit, message, errors) == Ok(errors.value + (if TooLong(d, f, limit) == Ok(true) then [message] else []))
  {
    if errors.Ok? {
      assert errors.value + [] == errors.value;
    }
  }

  /**
    The requests the check accepts: an object whose three fields are non-blank
    strings, with at most 10000 characters of text and at most 10 in each language
    code.
   */
  predicate AcceptableRequest(body: Value) {
    body.Obj? && Filled(body.fields, "text") && Filled(body.fields, "source") && Filled(body.fields, "target")
    && |body.fields["text"].s| <= 10000 && |body.fields["source"].s| <= 10 && |body.fields["target"].s| <= 10
  }

  lemma RequestAcceptedIff(body: Value)
    ensures RequestVerdict(body) == Ok(Validation(true, [])) <==> AcceptableRequest(body)
  {
    if body.Obj? {
      var d := body.fields;
      RequiredFieldErrors(d);
      RequestErrorsLayout(d);
      if AcceptableRequest(body) {
        assert FieldErrors(d, Required) == [];
      }
    }
  }

  /** A text of exactly 10000 characters passes the length test; one more character fails it. */
  lemma TextLimit(d: map<string, Value>, t: string)
    requires "text" in d && d["text"] == Str(t)
    ensures |t| == 10000 ==> TooLong(d, "text", 10000) == Ok(false)
    ensures |t| == 10001 ==> TooLong(d, "text", 10000) == Ok(true)
  {
  }

  /**
    A request whose text is a number is refused by raising TypeError at line 24:
    the field error for it is collected, but the length test calls `len()` on it.
   */
  lemma NumericTextRaises(d: map<string, Value>)
    requires d == map["text" := Num(Finite(5.0)), "source" := Str("en"), "target" := Str("fr")]
    ensures RequestVerdict(Obj(d)) == Err(TypeError)
  {
    assert TooLong(d, "text", 10000) == Err(TypeError);
  }

  /** Lines 24-31 with the evident intent: only a string is measured, anything else was already reported. */
  function GuardedTooLong(d: map<string, Value>, f: string, limit: nat): (r: bool)
    ensures r <==> f in d && d[f].Str? && |d[f].s| > limit
  {
    f in d && d[f].Str? && |d[f].s| > limit
  }

  /** `validate_translation_request` with guarded length tests: it always returns. */
  function GuardedLongErrors(d: map<string, Value>): seq<Problem> {
    (if GuardedTooLong(d, "text", 10000) then [TextTooLong] else [])
    + (if GuardedTooLong(d, "source", 10) then [SourceTooLong] else [])
    + (if GuardedTooLong(d, "target", 10) then [TargetTooLong] else [])
  }

  function GuardedRequestVerdict(body: Value): (r: Validation)
    ensures r.valid <==> r.errors == []
  {
    if !body.Obj? then Verdict([NotAnObject])
    else Verdict(FieldErrors(body.fields, Required) + GuardedLongErrors(body.fields))
  }

  /** The guarded check accepts exactly the requests the check as written accepts. */
  lemma GuardedAcceptedIff(body: Value)
    ensures GuardedRequestVerdict(body) == Validation(true, []) <==> AcceptableRequest(body)
  {
    if body.Obj? {
      RequiredFieldErrors(body.fields);
      if AcceptableRequest(body) {
        assert FieldErrors(body.fields, Required) == [];
      }
    }
  }

  /** The guarded check reports every required field that is present but not a string. */
  lemma GuardedReportsNonStrings(d: map<string, Value>, f: string)
    requires f in Required && f in d && !d[f].Str?
    ensures NotAString(f) in GuardedRequestVerdict(Obj(d)).errors
  {
    RequiredFieldErrors(d);
    assert FieldError(d, f) == Some(NotAString(f));
    assert NotAString(f) in FieldErrors(d, Required);
  }

  /** A field that is absent or a string. */
  predicate StrOrAbsent(d: map<string, Value>, f: string) {
    f !in d || d[f].Str?
  }

  /** Where the three fields are strings or absent, the guarded check is the check as written. */
  lemma GuardedAgrees(d: map<string, Value>)
    requires StrOrAbsent(d, "text") && StrOrAbsent(d, "source") && StrOrAbsent(d, "target")
    ensures RequestVerdict(Obj(d)) == Ok(GuardedRequestVerdict(Obj(d)))
  {
    RequestErrorsLayout(d);
    assert LongErrors(d) == GuardedLongErrors(d);
  }

  // ---------------------------------------------------------------------------
  // validate_api_config

  /** The temperature used when the configuration has none. */
  const DefaultTemperature: Value := Num(Finite(1.0))

  predicate HttpUrl(s: string) {
    StartsWith(s, "http://") || StartsWith(s, "https://")
  }

  /** Lines 39-42: the URL error, or `AttributeError` for a non-empty URL that is not a string. */
  function UrlError(url: Value): (r: Result<Option<Problem>, PyError>)
    ensures r == Ok(Some(UrlRequired)) <==> !Truthy(url)
    ensures r == Ok(Some(UrlNotHttp)) <==> url.Str? && url.s != [] && !HttpUrl(url.s)
    ensures r == Ok(None) <==> url.Str? && HttpUrl(url.s)
    ensures r.Err? <==> Truthy(url) && !url.Str?
  {
    if !Truthy(url) then Ok(Some(UrlRequired))
    else if !url.Str? then Err(AttributeError)
    else if !HttpUrl(url.s) then Ok(Some(UrlNotHttp))
    else Ok(None)
  }

  /**
    `float(v)`: a number is taken as it is, a boolean as 1.0 or 0.0, a string is
    parsed by `parseFloat` (`None` where Python raises `ValueError`), and anything
    else raises `TypeError` (`None` here; both are caught alike).
   */
  function AsFloat(v: Value, parseFloat: string -> Option<Float>): (r: Option<Float>)
    ensures v.Num? ==> r == Some(v.n)
    ensures v.Str? ==> r == parseFloat(v.s)
    ensures v.Null? || v.Arr? || v.Obj? ==> r.None?
  {
    match v
    case Num(n) => Some(n)
    case Bool(b) => Some(Finite(if b then 1.0 else 0.0))
    case Str(s) => parseFloat(s)
    case _ => None
  }

  /** `0.0 <= x <= 2.0` on a Python float: false for NaN and the infinities. */
  predicate InRange(f: Float) {
    f.Finite? && 0.0 <= f.x <= 2.0
  }

  /** Lines 48-54: the temperature error, if any. */
  function TemperatureError(t: Value, parseFloat: string -> Option<Float>): (r: Option<Problem>)
    ensures r.None? <==> AsFloat(t, parseFloat).Some? && InRange(AsFloat(t, parseFloat).value)
    ensures r == Some(TemperatureNotNumber) <==> AsFloat(t, parseFloat).None?
  {
    match AsFloat(t, parseFloat)
    case None => Some(TemperatureNotNumber)
    case Some(f) => if InRange(f) then None else Some(TemperatureRange)
  }

  /** `validate_api_config(config)` (validators.py:35-56). */
  function ConfigVerdict(config: map<string, Value>, parseFloat: string -> Option<Float>): (r: Result<Validation, PyError>)
    ensures r.Ok? ==> (r.value.valid <==> r.value.errors == [])
  {
    match UrlError(GetOr(config, "url", Null))
    case Err(e) => Err(e)
    case Ok(urlError) =>
      Ok(Verdict(Listed(urlError)
                 + (if Truthy(GetOr(config, "model", Null)) then [] else [ModelRequired])
                 + Listed(TemperatureError(GetOr(config, "temperature", DefaultTemperature), parseFloat))))
  }

  /** The if-chains of validators.py:35-56, statement by statement. */
  method ValidateApiConfig(config: map<string, Value>, parseFloat: string -> Option<Float>)
    returns (r: Result<Validation, PyError>)
    ensures r == ConfigVerdict(config, parseFloat)
  {
    var errors: seq<Problem> := [];
    var url := GetOr(config, "url", Null);
    if !Truthy(url) {
      errors := errors + [UrlRequired];
    } else {
      if !url.Str? {
        return Err(AttributeError);
      }
      if !HttpUrl(url.s) {
        errors := errors + [UrlNotHttp];
      }
    }
    ghost var urlErrors := errors;
    assert urlErrors == Listed(UrlError(url).value);
    if !Truthy(GetOr(config, "model", Null)) {
      errors := errors + [ModelRequired];
    }
    ghost var modelErrors := errors;
    assert modelErrors == urlErrors + (if Truthy(GetOr(config, "model", Null)) then [] else [ModelRequired]);
    var temperature := GetOr(config, "temperature", DefaultTemperature);
    var parsed := AsFloat(temperature, parseFloat);
    if parsed.None? {
      errors := errors + [TemperatureNotNumber];
    } else if !InRange(parsed.value) {
      errors := errors + [TemperatureRange];
    }
    assert errors == modelErrors + Listed(TemperatureError(temperature, parseFloat));
    return Ok(Verdict(errors));
  }

  /** The temperature test passes for the configured value, or for 1.0 when there is none. */
  predicate TemperatureOk(config: map<string, Value>, parseFloat: string -> Option<Float>) {
    var f := AsFloat(GetOr(config, "temperature", DefaultTemperature), parseFloat);
    f.Some? && InRange(f.value)
  }

  /**
    The configurations the check accepts: an `http://` or `https://` URL, a model
    name that is not empty, and a temperature that is a number in [0.0, 2.0].
   */
  lemma ConfigAcceptedIff(config: map<string, Value>, parseFloat: string -> Option<Float>)
    ensures ConfigVerdict(config, parseFloat) == Ok(Validation(true, [])) <==>
      "url" in config && config["url"].Str? && HttpUrl(config["url"].s)
      && "model" in config && Truthy(config["model"]) && TemperatureOk(config, parseFloat)
  {
    var url := GetOr(config, "url", Null);
    var model := GetOr(config, "model", Null);
    var t := GetOr(config, "temperature", DefaultTemperature);
    if UrlError(url).Ok? {
      var errors := Listed(UrlError(url).value) + (if Truthy(model) then [] else [ModelRequired])
        + Listed(TemperatureError(t, parseFloat));
      assert errors == [] <==> UrlError(url).value.None? && Truthy(model) && TemperatureError(t, parseFloat).None?;
    }
  }

  /**
    The configuration check raises only for a URL that is set but not a string;
    otherwise its errors are, in order, at most one about the URL, at most one about
    the model, and at most one about the temperature.
   */
  lemma ConfigErrorsLayout(config: map<string, Value>, parseFloat: string -> Option<Float>)
    ensures ConfigVerdict(config, parseFloat).Err? <==> "url" in config && Truthy(config["url"]) && !config["url"].Str?
    ensures ConfigVerdict(config, parseFloat).Ok? ==> |ConfigVerdict(config, parseFloat).value.errors| <= 3
    ensures "url" !in config ==> ConfigVerdict(config, parseFloat).value.errors[0] == UrlRequired
    ensures "model" !in config && ConfigVerdict(config, parseFloat).Ok? ==>
      ModelRequired in ConfigVerdict(config, parseFloat).value.errors
  {
  }

  /** An absent temperature is checked as 1.0, so it never adds an error. */
  lemma AbsentTemperature(config: map<string, Value>, parseFloat: string -> Option<Float>)
    requires "temperature" !in config
    ensures ConfigVerdict(config, parseFloat) == ConfigVerdict(config["temperature" := Num(Finite(1.0))], parseFloat)
    ensures TemperatureOk(config, parseFloat)
  {
    var c2 := config["temperature" := Num(Finite(1.0))];
    assert GetOr(c2, "url", Null) == GetOr(config, "url", Null);
    assert GetOr(c2, "model", Null) == GetOr(config, "model", Null);
    assert GetOr(c2, "temperature", DefaultTemperature) == GetOr(config, "temperature", DefaultTemperature);
  }

  /** NaN and the infinities are out of range, as every comparison with NaN is false in Python. */
  lemma TemperatureNonFinite(t: Value, parseFloat: string -> Option<Float>)
    requires t == Num(NaN) || t == Num(PosInf) || t == Num(NegInf)
    ensures TemperatureError(t, parseFloat) == Some(TemperatureRange)
  {
  }
}
