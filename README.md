# Translation-Gateway core in Dafny

Translation-Gateway is an HTTP service. It receives a text in MORT format and passes it to a
chat-completion backend. It returns the translation in the same format. MORT format is a list of
segments, each opened by a separator line (`//////`). This project models the four pieces of
sequential logic behind that service and proves properties of them.

- **The MORT codec** (`src/utils/formatters.py`), in module `Mort`. `Repair` is
  `validate_and_fix_format`. `ExtractSegments` is `extract_segments`. `FormatTranslationResponse`
  is `format_translation_response`. The separator is a parameter. `ValidSeparator` says what is
  demanded of it: it is non-empty and holds no whitespace, `~`, `@` or backslash. Module `Cleaning` holds
  `clean_response` and `sanitize_text`. Module `PyText` holds the Python `str` built-ins the code
  relies on: `strip`, `find`, `split`, `join`, `replace`, `lstrip` of a character set and
  `split()` into words.
- **The cloud translator with failover** (`src/translators/cloud_translator.py`), in module
  `Cloud` (class `CloudTranslator`):
  - The class has the fields of the Python object: the active backend `current`, the two-entry
    dialog `history` and `isFirstSuccess`.
  - `HandleRequest` is `handle_request`. It takes the outcome of each POST as a parameter and
    returns the POSTs it made. It is proved equal to the pure transition `Handle`.
  - The lemmas `Handle*` state the failover rules.
  - `ProbeTick` is one pass of the background probe loop.
- **The local translator** (`src/translators/local_translator.py`), in module `Local` (class
  `LocalTranslator`):
  - Its regular expressions are scans in module `Markers`: article removal, separator
    injection, marker cleanup and the variant repair that collapses separator runs.
  - Module `Markers` also holds context selection, the context slot and the post-processing of
    the reply.
  - The class keeps the slot `lastSourceSegment` and the warm-up and success flags. Its
    `HandleRequest` is proved equal to the pure transition `Handle`.
- **The validators** (`src/utils/validators.py`), in module `Validators`:
  - `ValidateTranslationRequest` and `ValidateApiConfig` follow the source's loop and if-chains
    statement by statement.
  - Each is proved equal to a specification function (`RequestVerdict`, `ConfigVerdict`).
  - Lemmas say exactly which requests and configurations are accepted.

Shared pieces:
- `Json` holds the parsed-JSON values.
- `Backend` holds what both translators share: the outcome of one HTTP exchange, the backend
  settings and `_process_response`.
- `Wrappers` holds `Option` and `Result`.

Where Python raises, the model returns `Err` or `None` with the reason. Two behaviours of the
formatter worth knowing:
- `"Hello.\nGoodbye."` is repaired into one segment, `"//////\r\nHello.\r\nGoodbye.\r\n"`, not
  into `""` (`Mort.ExampleNoSeparator`).
- A trailing separator line is dropped, not kept: `"//////\r\nHi\r\n//////\r\n"` becomes
  `"//////\r\nHi\r\n"` (`Mort.ExampleTrailingSeparator`).

## Model

| member | source | states |
|---|---|---|
| Mort.DefaultSeparatorValid | src/utils/formatters.py:11-12 | the default separator `//////` meets every requirement the model places on a separator: non-empty, no whitespace, no `~`, `@` or backslash |
| Mort.Repair | src/utils/formatters.py:16-17 | an empty text repairs to the empty text |
| Mort.ExtractSegments | src/utils/formatters.py:41-48 | an empty text has no segments |
| Mort.NormalizeCanonical | src/utils/formatters.py:20 | after the line-ending normalisation every LF is preceded by CR |
| Mort.NormalizeFixed | src/utils/formatters.py:20 | text whose every LF follows a CR is left unchanged by the normalisation, so the normalisation is idempotent |
| Mort.StripLeadingSep | src/utils/formatters.py:26 | removing the leading separator line leaves the text or a proper suffix of it |
| Mort.StripTrailingSep | src/utils/formatters.py:29 | removing the trailing separator line leaves a prefix of the text |
| Mort.FirstTrailMatch | src/utils/formatters.py:29 | finds the leftmost position where `\r\n\s*SEP\s*$` matches, or reports that none matches anywhere |
| Mort.NonBlank | src/utils/formatters.py:32 | every kept piece is non-empty and trimmed |
| Mort.SegmentsAreSegments | src/utils/formatters.py:32 | every piece kept after the split is a segment: non-empty, trimmed and free of the separator |
| Mort.RepairedSegmentsValid | src/utils/formatters.py:20-32 | the segments the repair keeps are valid segments, and none has a bare LF |
| Mort.RepairIsRendering | src/utils/formatters.py:14-39 | the repair's output is the empty text for empty input, and otherwise the rendering of its kept segments |
| Mort.RenderShape | src/utils/formatters.py:35-39 | a non-empty rendering starts with `SEP CRLF`, ends with `CRLF` and does not end with a separator line |
| Mort.ExtractRendered | src/utils/formatters.py:39-47 | round trip: extracting the segments of the rendering of any list of segments gives back that list |
| Mort.RepairedSegmentsOfRender | src/utils/formatters.py:20-39 | the repair keeps exactly the segments of a rendered text whose LFs follow CRs |
| Mort.RepairRendered | src/utils/formatters.py:14-39 | a rendered text is a fixed point of the repair |
| Mort.RepairIdempotent | src/utils/formatters.py:14-39 | repairing twice gives the same text as repairing once |
| Mort.FormatTranslationResponse | src/utils/formatters.py:63-66 | the output is already in MORT form (repairing it changes nothing), and its extracted segments are the ones kept from the input |
| Mort.RepairDropsTrailingSep | src/utils/formatters.py:29 | a rendered text followed by one more separator line repairs to the rendering without it |
| Mort.RepairNoSeparator | src/utils/formatters.py:20-39 | non-blank text without the separator becomes one segment: `SEP CRLF text CRLF` with the text normalised and trimmed |
| Mort.ExampleNoSeparator | src/utils/formatters.py:20-39 | `"Hello.\nGoodbye."` repairs to `"//////\r\nHello.\r\nGoodbye.\r\n"` |
| Mort.ExampleTrailingSeparator | src/utils/formatters.py:26-39 | `"//////\r\nHi\r\n//////\r\n"` repairs to `"//////\r\nHi\r\n"` |
| Cleaning.CleanResponseWords | src/utils/formatters.py:50-61 | the cleaned response is trimmed and single-spaced, and its words are the words of the unescaped input in order; empty input gives the empty text |
| Cleaning.ScriptStrip | src/utils/formatters.py:74 | script-block removal never lengthens the text and only keeps characters of the input |
| Cleaning.TagStripNoTags | src/utils/formatters.py:77 | after tag removal no `<`, one or more non-`>` characters and `>` remain |
| Cleaning.NoAngleUnchanged | src/utils/formatters.py:74-77 | text without `<` passes both removal steps unchanged |
| Cleaning.SanitizeText | src/utils/formatters.py:68-82 | the sanitised text is trimmed, and empty input gives the empty text |
| Backend.ProcessResponse | src/translators/cloud_translator.py:94-97 | the extracted content is trimmed |
| Backend.ProcessStandardReply | src/translators/cloud_translator.py:96-97 | a reply with a first choice holding a string content yields that content, unescaped and trimmed |
| Backend.ProcessDefaults | src/translators/cloud_translator.py:96 | a reply object without `choices` yields the empty text |
| Backend.ProcessRejects | src/translators/cloud_translator.py:96 | a body that is not an object, an empty `choices` list or a string `choices` raises |
| Backend.ProcessNonStringContent | src/translators/cloud_translator.py:96-97 | a content that is not a string raises |
| Cloud.DecimalRoundTrip | src/translators/cloud_translator.py:89 | the status code's decimal text reads back as the code |
| Cloud.SendRequest | src/translators/cloud_translator.py:73-92 | a request succeeds exactly when a body was delivered, and then yields that body |
| Cloud.ClassifyReply | src/translators/cloud_translator.py:82-91 | status 401 gives the unauthorized error, 429 the rate-limit error, any other status an error carrying the code, and a transport failure a network error |
| Cloud.Mentions401Cases | src/translators/cloud_translator.py:84-87 | only the 401 error's text contains `Error 401 Unauthorized`, the test of lines 170 and 200; the 429 and malformed-reply texts do not |
| Cloud.Last2 | src/translators/cloud_translator.py:219-221 | `h[-2:]` is the last two entries, or all of them when there are fewer |
| Cloud.Entries | src/translators/cloud_translator.py:30 | entry `k` is numbered `start + k` and shows the `k`-th history item |
| Cloud.FormatHistoryShape | src/translators/cloud_translator.py:26-35 | an empty history formats to `""`; otherwise only the last two entries are listed, numbered 1 and 2 in order, between header and footer |
| Cloud.Messages | src/translators/cloud_translator.py:37-71 | a translation POST sends a trimmed system prompt and then the text as the user message; the probe sends one user message |
| Cloud.Attempt | src/translators/cloud_translator.py:160-161 | a translation obtained is trimmed, and a failed request passes its error through |
| Cloud.NewHistory | src/translators/cloud_translator.py:211-221 | the new history holds at most two entries and is empty when context is disabled |
| Cloud.NewHistorySegments | src/translators/cloud_translator.py:212-221 | with context enabled the new history is made of segments, and equals all of them when the translation has at most two |
| Cloud.FinishFacts | src/translators/cloud_translator.py:209-227 | after the backends, only the result and, with context, the history change; the text returned is the repaired translation, trimmed |
| Cloud.RouteCases | src/translators/cloud_translator.py:131-204 | the outcome of the backend attempts in each of the four cases: success, failure in SECONDARY, failure without a backup key, failover |
| Cloud.HandleFirstCall | src/translators/cloud_translator.py:131-160 | the first POST goes to the active backend with its history, or with none when its context is disabled |
| Cloud.HandleSuccess | src/translators/cloud_translator.py:145-227 | a first-attempt success makes one POST, keeps the state and flag, returns the repaired text with the active model and rebuilds the history |
| Cloud.HandleFailureClearsFlag | src/translators/cloud_translator.py:165 | any failure of the first attempt clears `is_first_success` |
| Cloud.HandleNoBackup | src/translators/cloud_translator.py:175-177 | when PRIMARY fails and there is no secondary key, the call raises, no second POST is made and the state stays PRIMARY |
| Cloud.HandleFailover | src/translators/cloud_translator.py:168-197 | when PRIMARY fails and a secondary key exists, the state becomes SECONDARY and exactly one POST goes to the secondary; its success returns the secondary's model and its failure raises |
| Cloud.HandleSecondaryFailure | src/translators/cloud_translator.py:199-204 | a failure in SECONDARY raises without switching; a 401 raises the distinct backup-key error |
| Cloud.HandleSecondaryStatus | src/translators/cloud_translator.py:199-204 | in SECONDARY a 401 reply is the fatal backup-key error and a 429 is not |
| Cloud.HandleHistory | src/translators/cloud_translator.py:133-221 | the history never exceeds two entries and is empty whenever the backend in use has context disabled |
| Cloud.CloudTranslator.constructor | src/translators/cloud_translator.py:17-24 | a new translator is PRIMARY with an empty history and the flag clear |
| Cloud.CloudTranslator.HandleRequest | src/translators/cloud_translator.py:128-227 | the result, the POSTs made and the new state are those of the transition `Handle` on the stripped text and the backend outcomes |
| Cloud.CloudTranslator.TryBackends | src/translators/cloud_translator.py:131-204 | the backend selection, the history reset, the attempts and the switch leave the state and result of `Route` |
| Cloud.CloudTranslator.SwitchToSecondary | src/translators/cloud_translator.py:179-192 | the switch sets SECONDARY, resets the history if its context is disabled and records the retry POST |
| Cloud.CloudTranslator.Complete | src/translators/cloud_translator.py:209-227 | a translation obtained rebuilds the history and returns the repaired text, as `Finish` says |
| Cloud.CloudTranslator.ProbeTick | src/translators/cloud_translator.py:113-126 | with no primary key the probe stops and nothing changes; otherwise it POSTs a hello to the primary, a success makes the state PRIMARY and a failure changes nothing |
| Markers.StripArticles | src/translators/local_translator.py:68-73 | for a target that lower-cases to `en` the text is unchanged |
| Markers.ArticlesFrom | src/translators/local_translator.py:72-73 | over plain lines joined by `CRLF ////// CRLF`, the scan gives `Dearticled`: each line loses a final whole-word article with the whitespace before it, every other character is kept |
| Markers.ArticlesOfMort | src/translators/local_translator.py:72-73 | the same for a whole MORT text with the `//////` separator: the opening `////// CRLF` is kept and each segment loses its final article |
| Markers.ArticlesOfRendered | src/translators/local_translator.py:68-73 | for a non-English target, the article step on the stripped request `////// CRLF` + plain lines joined by `CRLF ////// CRLF` + `CRLF` gives `////// CRLF` + `Dearticled` of those lines |
| Markers.ArticleSuffixUnique | src/translators/local_translator.py:72 | a line ends in at most one article word, and `ArticleSuffix` finds where it starts |
| Markers.ArticleIsA | src/translators/local_translator.py:72 | the alternation matches `a` whole when it is not followed by a word character |
| Markers.ArticleIsAn | src/translators/local_translator.py:72 | the alternation matches `an` whole when it is not followed by a word character |
| Markers.ArticleIsThe | src/translators/local_translator.py:72 | the alternation matches `the` whole when it is not followed by a word character |
| Markers.NoArticleAt | src/translators/local_translator.py:72 | no article match starts inside a line before a non-space word that is not at the end |
| Markers.ArticleAtEnd | src/translators/local_translator.py:72-73 | on the last line of any text, a whole-word article after whitespace, with only whitespace after it, is removed with that whitespace, and the scan from the start of the line keeps the rest of the line |
| Markers.ArticleBeforeSlashLine | src/translators/local_translator.py:72-73 | on any line of a text, a whole-word article followed by whitespace that ends in a line feed, the hard-coded `//////` and a line break (`\n`, `\r\n` or doubled) is removed with the whitespace before it and all the whitespace after it but that line feed, and the scan goes on from the line feed |
| Markers.Inject | src/translators/local_translator.py:75-78 | the injected text is trimmed |
| Markers.InjectFree | src/translators/local_translator.py:77-78 | separator-free text is only trimmed by the injection |
| Markers.InjectOne | src/translators/local_translator.py:77 | one `CRLF SEP CRLF` between two line-free texts becomes `~@\r\n\r\nSEP\r\n@~`; the one-gap case of `InjectSpliced` |
| Markers.InjectSpliced | src/translators/local_translator.py:75-78 | MORT segments joined by separators with one or two `\r?\n` breaks on each side inject to those segments joined by `~@\r\n\r\nSEP\r\n@~`, every gap replaced |
| Markers.InjectRendered | src/translators/local_translator.py:75-78 | a MORT text `SEP CRLF` + segments joined by `CRLF SEP CRLF` + `CRLF` injects to `SEP CRLF` + the segments joined by `~@\r\n\r\nSEP\r\n@~` |
| Markers.InjectStripped | src/translators/local_translator.py:104-114 | the same MORT text after the request handler's `strip()`, which drops the final line break, injects to the same marked text |
| Markers.PreparedMort | src/translators/local_translator.py:104-114 | for a non-English target and plain-line segments with the `//////` separator, the stripped, article-stripped and injected request is `////// CRLF` + each line without its final article, joined by `~@\r\n\r\n//////\r\n@~` |
| Markers.DearticledSpliced | src/translators/local_translator.py:72-73 | the article step's output is the cut lines joined by `//////` lines, with a bare line feed before the separator where a line lost its article and `CRLF` elsewhere |
| Markers.MarkerSpanReplaced | src/translators/local_translator.py:61 | the shortest `~@...@~` span, across lines, becomes `CRLF SEP CRLF`; the one-span case of `MarkerSpansReplaced` |
| Markers.MarkerSpansReplaced | src/translators/local_translator.py:61 | in a text that alternates `~`-free outside texts with `~@...@~` spans whose insides hold no `@`, every span becomes `CRLF SEP CRLF` and the outside texts are kept |
| Markers.CleanRestoreNoMarks | src/translators/local_translator.py:59-66 | the cleaned text contains no `~` and no `@` at all |
| Markers.SepRunCollapses | src/translators/local_translator.py:55 | two separators with only whitespace between them start a run that collapses to one `SEP CRLF` |
| Markers.SepRunSingle | src/translators/local_translator.py:55 | a separator not followed by another is copied on unchanged |
| Markers.VariantRepairShape | src/translators/local_translator.py:51-57 | the variant repair gives `""` or `SEP CRLF` plus segments joined by `CRLF SEP CRLF` plus `CRLF`, and extracting its segments gives the segments of the collapsed text |
| Markers.SelectContext | src/translators/local_translator.py:104-111 | with context disabled there is no context and the text is kept |
| Markers.ContextBeforeTag | src/translators/local_translator.py:108-109 | with the tag present the context is the trimmed text before its first occurrence and the text is the trimmed rest |
| Markers.ContextFromSlot | src/translators/local_translator.py:110-111 | with context enabled and no tag the context is the previous slot and the text is kept |
| Markers.SlotIsLastPiece | src/translators/local_translator.py:119-122 | when the piece after the last separator holds no `~` or `@` before the closing `~@`, the slot is that piece, trimmed |
| Markers.SlotOfMarkedTail | src/translators/local_translator.py:119-122 | when the last separator is followed by the marked last segment `CRLF @~ z ~@`, with no `~` or `@` in `z`, both markers are removed and the slot is `z`, trimmed |
| Markers.PreparedSlot | src/translators/local_translator.py:113-122 | for a MORT request of two or more plain lines with the `//////` separator and a non-English target, with or without a context, the slot is its last line without its final article |
| Markers.SlotOfPlain | src/translators/local_translator.py:119-122 | a text without the separator and without `~` or `@`, followed by the closing `~@`, gives itself, trimmed, as the slot |
| Markers.AfterMarkerOf | src/translators/local_translator.py:141-144 | with a context only the trimmed text after the first `~@` of the reply is kept |
| Markers.AfterNoMarker | src/translators/local_translator.py:142-143 | a reply without `~@` is kept whole |
| Markers.LeakedContext | src/translators/local_translator.py:141-144 | `"some leaked context ~@ Bonjour"` becomes `"Bonjour"` |
| Markers.FinalTextJoins | src/translators/local_translator.py:147 | the returned text is the collapsed segments joined by `CRLF SEP CRLF`, when the first segment does not start with a character of `SEP\r\n` |
| Markers.FinalStripsCharSet | src/translators/local_translator.py:147 | the final `lstrip` removes every leading `/`, CR or LF character of a one-segment reply, as a set and not as a prefix |
| Markers.FinalDropsLeadingSlash | src/translators/local_translator.py:147 | a reply `"/help"` comes back as `"help"` |
| Local.WarmupOnce | src/translators/local_translator.py:80-98 | once the warm-up flag is set there is no further warm-up; it stays clear only after an Ollama warm-up POST that failed |
| Local.Messages | src/translators/local_translator.py:22-31 | the system prompt comes first, then the prepared user content |
| Markers.UserContentFramed | src/translators/local_translator.py:30-30 | with a context the user message is the opening `////// CRLF @~`, the context, the closing `~@ CRLF CRLF ////// CRLF @~` and the injected text, each at its offset, so every part reads back; without one it is the injected text alone |
| Local.Exchange | src/translators/local_translator.py:33-49 | an HTTP or transport failure is a network error, an undecodable body a JSON error, and a delivered body succeeds exactly when a content can be extracted |
| Local.HandleCases | src/translators/local_translator.py:100-149 | the warm-up happens first; a non-string text or target raises before any POST, with the slot and flag kept; otherwise the request is prepared and sent |
| Local.HandleTargetNotText | src/translators/local_translator.py:113 | a string text with a missing or non-string target raises before the POST, with the slot and flag kept |
| Local.HandleSlotBeforeCall | src/translators/local_translator.py:119-136 | with context enabled the slot is set before the POST and does not depend on the reply |
| Local.HandleContextDisabled | src/translators/local_translator.py:107-124 | with context disabled the slot is kept and the injected text is sent unframed with the closing `~@` |
| Local.HandleSuccess | src/translators/local_translator.py:129-149 | a delivered reply sets the success flag and returns the cleaned, repaired reply with the model |
| Local.HandleFailure | src/translators/local_translator.py:129-136 | a failed POST or reply raises and clears the success flag, after the POST was made |
| Local.LocalTranslator.constructor | src/translators/local_translator.py:15-20 | a new translator has an empty slot and both flags clear |
| Local.LocalTranslator.WarmupModel | src/translators/local_translator.py:80-98 | the warm-up POST and the new flag are those of `WarmupStep`; the slot and the success flag are unchanged |
| Local.LocalTranslator.SelectText | src/translators/local_translator.py:104-111 | the context and text are those of `SelectContext` |
| Local.LocalTranslator.PrepareText | src/translators/local_translator.py:113-119 | the injected text is that of `Prepare` |
| Local.LocalTranslator.Postprocess | src/translators/local_translator.py:141-147 | the final text is that of `Respond` |
| Local.LocalTranslator.Send | src/translators/local_translator.py:124-149 | the POST, the flag and the result are those of `Deliver` |
| Local.LocalTranslator.HandleRequest | src/translators/local_translator.py:100-149 | the result, the warm-up POST, the translation POST and the new state are those of the transition `Handle` |
| Local.LocalTranslator.Proceed | src/translators/local_translator.py:104-149 | for a string text and target, the context split, the prepared text, the slot update and the POST leave the result and state of `Deliver` on `Outgo` |
| Validators.MessagesDistinct | src/utils/validators.py:10-54 | distinct errors have distinct messages |
| Validators.Verdict | src/utils/validators.py:33 | the boolean is true exactly when the error list is empty |
| Validators.Len | src/utils/validators.py:24-31 | `len` of a string is its length, and `len` of a number, boolean or `None` raises |
| Validators.FieldError | src/utils/validators.py:16-21 | a field gets the missing, not-a-string or blank error exactly in its case, and none when it is a non-blank string |
| Validators.TooLong | src/utils/validators.py:24-31 | the length test raises exactly for a present field without a length, and is true exactly when the length exceeds the limit |
| Validators.ValidateTranslationRequest | src/utils/validators.py:5-33 | the loop and if-chains compute `RequestVerdict` |
| Validators.RequestVerdict | src/utils/validators.py:33 | for the request check, the boolean is true exactly when the error list is empty |
| Validators.RequestNotObject | src/utils/validators.py:9-11 | a body that is not an object is refused with exactly the one error `Request body must be JSON object` |
| Validators.RequiredFieldErrors | src/utils/validators.py:14-21 | over text, source and target in that order, each field contributes at most one error, and which one |
| Validators.RequestErrorsLayout | src/utils/validators.py:14-31 | the check raises exactly when a present field has no length; otherwise the errors are the field errors followed by the length errors |
| Validators.LengthCheckStep | src/utils/validators.py:24-31 | one length test passes an earlier exception through, raises for an unsized field, or adds at most its one error |
| Validators.RequestAcceptedIff | src/utils/validators.py:5-33 | a request is accepted exactly when it is an object whose three fields are non-blank strings within their limits |
| Validators.TextLimit | src/utils/validators.py:24-25 | a text of exactly 10000 characters passes the length test and one of 10001 fails it |
| Validators.NumericTextRaises | src/utils/validators.py:18-24 | as written, a request whose `text` is a number raises `TypeError` at the length test instead of returning its errors |
| Validators.GuardedTooLong | src/utils/validators.py:24-31 | the guarded length test is true exactly for a present string field longer than the limit |
| Validators.GuardedRequestVerdict | src/utils/validators.py:5-33 | the guarded check always returns, and its boolean is true exactly when the error list is empty |
| Validators.GuardedAcceptedIff | src/utils/validators.py:5-33 | the guarded check accepts exactly the requests the check as written accepts |
| Validators.GuardedReportsNonStrings | src/utils/validators.py:18-19 | the guarded check reports every present required field that is not a string |
| Validators.GuardedAgrees | src/utils/validators.py:5-33 | where the three fields are strings or absent, the guarded check returns what the check as written returns |
| Validators.UrlError | src/utils/validators.py:39-42 | a missing or empty URL is required, a string URL without `http://` or `https://` is refused, an HTTP URL passes, and a non-empty non-string URL raises |
| Validators.AsFloat | src/utils/validators.py:50 | `float` of a number is that number, of a string is its parse, and of `None`, a list or a dictionary raises |
| Validators.TemperatureError | src/utils/validators.py:48-54 | the temperature passes exactly when it converts to a float within [0.0, 2.0], and is not-a-number exactly when it does not convert |
| Validators.ValidateApiConfig | src/utils/validators.py:35-56 | the if-chains compute `ConfigVerdict` |
| Validators.ConfigVerdict | src/utils/validators.py:56 | for the config check, the boolean is true exactly when the error list is empty |
| Validators.ConfigAcceptedIff | src/utils/validators.py:35-56 | a configuration is accepted exactly when its URL is an HTTP string URL, its model is truthy and its temperature is in range |
| Validators.ConfigErrorsLayout | src/utils/validators.py:39-54 | the check raises exactly for a non-empty non-string URL; otherwise there are at most three errors, a missing URL is the first and a missing model is reported |
| Validators.AbsentTemperature | src/utils/validators.py:48 | an absent temperature is checked as 1.0 and passes |
| Validators.TemperatureNonFinite | src/utils/validators.py:51-52 | NaN and the infinities are out of range |

## Left out

- Network I/O is not modelled: `requests.post`, `raise_for_status`, `response.json()` and timeouts. The
  outcome of each POST is a `Backend.Reply` parameter. `HttpStatus` carries the text of the
  exception, which the model does not build.
- The Ollama warm-up POST is not modelled either. Whether it succeeded is the `posted` parameter.
- The `Lock`, the daemon thread, `time.sleep(60)` and the `while True` loop of the probe are
  concurrency and timing. `ProbeTick` is one sequential pass of the loop body, and the loop ends
  when it returns `keepProbing == false`.
- Logging is left out, and so is `Config.ENABLE_CONTROL_LOG`, which only guards logging.
- The wording of the system prompts is opaque constants. The model keeps only what varies: the
  languages, whether context is enabled, and the history.
- `json.dumps` is used only for logging and is left out.
- `html.unescape` is a parameter, `unescape: string -> string`, that nothing is assumed about.
- Python's `\w` is a parameter, `isWord: char -> bool`. The article lemmas require only
  `Markers.WordTest`: no whitespace character is a word character and every ASCII letter is one.
  Nothing is assumed about digits, `_` or other characters.
- For `re.IGNORECASE` the case fold covers ASCII letters and the four non-ASCII characters that
  fold onto ASCII letters (U+0130, U+0131, U+017F, U+212A). Other non-ASCII case pairs are left out.
- `target_lang.lower() == "en"` is modelled as a two-character target made of `e`/`E` then `n`/`N`.
  No other string lowers to `en`.
- `float()` of a string is a parameter, `parseFloat`. Rounding a huge integer to a float is not
  modelled: a `Num` is a real, NaN or an infinity.
- Local.Shown: a request `source` that is a number, boolean, list or object is rendered as a fixed
  placeholder instead of its Python `str`. Only the system prompt text depends on it. Likewise the
  cloud translator's `Prompt.Translate` carries `source` and `target` as `Option<string>`: a
  request value of another JSON type is not rendered as its Python `str` in the prompt either.
- Markers.ArticlesOfMort: the whole-text article lemmas cover the `//////` separator with CRLF line
  breaks and segments that are single lines, trimmed, and not a lone article word. A segment holding
  line breaks, or one that is only `a`, `an` or `the` (whose leading `\s*` would also take the
  line break before it), is covered only line by line through `ArticleAtEnd`,
  `ArticleBeforeSlashLine` and `NoArticleAt`.
- Markers.InjectSpliced: its pieces are MORT segments, trimmed and separator-free. `InjectOne` is
  its one-gap case between line-free texts.
- Markers.PreparedSlot: it needs two or more segments and a last line without `~` or `@`. With a
  single segment and a context, line 116's `lstrip` can also remove leading `/` of the line; that
  case is not stated. `SlotIsLastPiece` and `SlotOfPlain` give the slot of other texts only when the
  last piece holds no marker character except the closing `~@`. A last piece with other markers has no
  stated slot.
- Markers.MarkerSpansReplaced: it covers texts whose outside parts hold no `~` and whose spans
  hold no `@`. Stray markers are left to `CleanRestoreNoMarks`, which states only that none remain.
- Flask routes, the app factory, `main.py` and `src/config.py` are not part of this model.
- Cleaning.ScriptStrip: its contract says only that the result is no longer than the input and
  keeps only input characters. One pass of `re.sub` can join the text around a removed block into
  a new `<script>...</script>`, so "no script block is left" does not hold of the source. Tag
  removal has the complete statement, `Cleaning.TagStripNoTags`.

## Findings

| source | as written | input that shows it | evidently intended | confidence | as-written member | corrected member |
|---|---|---|---|---|---|---|
| src/utils/validators.py:24-31 | the length tests call `len()` on any present field, even one already reported as not a string, so a numeric field raises `TypeError` | `{"text": 5, "source": "en", "target": "fr"}` | measure only string fields, report `Field text must be a string` and return normally | not executed | Validators.NumericTextRaises | Validators.GuardedRequestVerdict |
