/**
  The pure text steps of src/translators/local_translator.py: article stripping,
  separator-to-marker injection, the user message, marker extraction,
  marker-to-separator restoration and the variant MORT repair.

  Each regular expression is a `Pattern`; `Match` is what Python's `re` finds
  when it tries the pattern at one index (with the engine's greedy and lazy
  choices and its backtracking order), and `Sub` is `re.sub`: a left-to-right
  scan that replaces each match and copies every other character. None of the
  patterns can match the empty string, so every match moves the scan forward.
  The word-character test of `\b` is the parameter `isWord`.
 */
module Markers {
  import opened Wrappers
  import opened PyText
  import opened Mort

  /** The separator line the article lookahead names literally, whatever the configured separator is. */
  const SlashLine: string := "//////"

  datatype Pattern =
    | Article(isWord: char -> bool)   // local_translator.py:72
    | Injection(sep: string)          // local_translator.py:77
    | MarkerSpan(sep: string)         // `~@.*?@~` with DOTALL, local_translator.py:61
    | Marker(sep: string)             // `~@|@~`, local_translator.py:62
    | MarkerJunk                      // `\s*[~@]+\s*`, local_translator.py:63
    | Spaces                          // ` +`, local_translator.py:64
    | SepRun(sep: string, fold: bool) // `(SEP\s*){2,}`, with IGNORECASE at :55, without at :65

  /** A separator run needs a non-empty separator: `(\s*){2,}` would match the empty string. */
  predicate Usable(p: Pattern) {
    p.SepRun? ==> |p.sep| > 0
  }

  // ---------------------------------------------------------------------------
  // Character runs

  /** The length of the longest prefix of `s` made of characters in `chars`. */
  function Run(s: string, chars: string): (n: nat)
    ensures n <= |s| && forall k | 0 <= k < n :: s[k] in chars
    ensures n < |s| ==> s[n] !in chars
  {
    if s != [] && s[0] in chars then
      var m := Run(s[1..], chars);
      assert forall k | 1 <= k < 1 + m :: s[k] == s[1..][k - 1];
      1 + m
    else 0
  }

  // ---------------------------------------------------------------------------
  // The article pattern `(?i)\s*\b(the|a|an)\b\s*(?=\r?\n{1,2}//////\r?\n{1,2}|$)`

  /** `\b` at index `i`: a word character on exactly one side. */
  predicate Boundary(isWord: char -> bool, s: string, i: nat) {
    (0 < i <= |s| && isWord(s[i - 1])) != (i < |s| && isWord(s[i]))
  }

  /** `$` without MULTILINE: the end of the text, or just before a final line feed. */
  predicate AtEnd(s: string, q: nat) {
    q == |s| || (q + 1 == |s| && s[q] == '\n')
  }

  /** `\n` at `q`. */
  predicate FeedAt(s: string, q: nat) {
    q < |s| && s[q] == '\n'
  }

  /** `\r?\n` at `q`; the pattern's second `\n{1,2}` can only lengthen a match that this already decides. */
  predicate LineBreakAt(s: string, q: nat) {
    FeedAt(s, q) || (q + 1 < |s| && s[q] == '\r' && s[q + 1] == '\n')
  }

  /** `//////` at `q`. */
  predicate SlashesAt(s: string, q: nat) {
    q + 6 <= |s| && s[q] == '/' && s[q + 1] == '/' && s[q + 2] == '/' && s[q + 3] == '/' && s[q + 4] == '/' && s[q + 5] == '/'
  }

  /** `\n{1,2}//////\r?\n` at `q`. */
  predicate FeedsThenSlashes(s: string, q: nat) {
    FeedAt(s, q) && ((SlashesAt(s, q + 1) && LineBreakAt(s, q + 7)) || (FeedAt(s, q + 1) && SlashesAt(s, q + 2) && LineBreakAt(s, q + 8)))
  }

  /** The first branch of the lookahead: `\r?` quantifies the carriage return alone, `{1,2}` the line feeds. */
  predicate SlashLineAhead(s: string, q: nat) {
    FeedsThenSlashes(s, q) || (q < |s| && s[q] == '\r' && FeedsThenSlashes(s, q + 1))
  }

  predicate Lookahead(s: string, q: nat) {
    AtEnd(s, q) || SlashLineAhead(s, q)
  }

  /**
    The greedy `\s*` before the lookahead, given that the `k` characters after `e`
    are whitespace: the longest of `k, k - 1, ..., 0` at which the lookahead holds.
   */
  function TrailingRun(s: string, e: nat, k: nat): (r: Option<nat>)
    requires e + k <= |s|
    decreases k
    ensures r.Some? ==> r.value <= k
  {
    if Lookahead(s, e + k) then Some(k)
    else if k == 0 then None
    else TrailingRun(s, e, k - 1)
  }

  /** The run found is the longest at which the lookahead holds; none is found when it holds nowhere. */
  lemma {:induction false} TrailingRunIs(s: string, e: nat, k: nat, r: Option<nat>)
    requires e + k <= |s| && r == TrailingRun(s, e, k)
    decreases k
    ensures r.Some? ==> Lookahead(s, e + r.value)
    ensures r.Some? ==> forall q | e + r.value < q <= e + k :: !Lookahead(s, q)
    ensures r.None? ==> forall q | e <= q <= e + k :: !Lookahead(s, q)
  {
    if !Lookahead(s, e + k) && k > 0 {
      TrailingRunIs(s, e, k - 1, r);
    }
  }

  /** The rest of the pattern after the article word, which ends at `e`: `\s*` and the lookahead. */
  function ArticleTail(s: string, e: nat): (r: Option<nat>)
    requires e <= |s|
    ensures r.Some? ==> e <= r.value <= |s|
  {
    match TrailingRun(s, e, LeadingSpace(s[e..]))
    case Some(k) => Some(e + k)
    case None => None
  }

  /** One alternative `w` of the article group at `a`, then `\b` and the rest: where the match ends. */
  function ArticleEnd(isWord: char -> bool, s: string, a: nat, w: string): (r: Option<nat>)
    requires a <= |s|
    ensures r.Some? ==> a + |w| <= r.value <= |s|
  {
    if AtFold(s, a, w) && Boundary(isWord, s, a + |w|) then ArticleTail(s, a + |w|) else None
  }

  /** The article group `(the|a|an)` at `a`, each alternative tried in the pattern's order. */
  function Alternatives(isWord: char -> bool, s: string, a: nat): (r: Option<nat>)
    requires a <= |s|
    ensures r.Some? ==> a < r.value <= |s|
  {
    match ArticleEnd(isWord, s, a, "the")
    case Some(e) => Some(e)
    case None =>
      match ArticleEnd(isWord, s, a, "a")
      case Some(e) => Some(e)
      case None => ArticleEnd(isWord, s, a, "an")
  }

  /**
    The article pattern at `i`. The leading `\s*` can only succeed at its longest
    extent, since every alternative starts with a letter.
   */
  function ArticleMatch(isWord: char -> bool, s: string, i: nat): (r: Option<nat>)
    requires i <= |s|
    ensures r.Some? ==> i < r.value <= |s|
  {
    ArticleWord(isWord, s, SkipSpace(s, i))
  }

  /** `\b(the|a|an)` and the rest of the pattern at `a`. */
  function ArticleWord(isWord: char -> bool, s: string, a: nat): (r: Option<nat>)
    requires a <= |s|
    ensures r.Some? ==> a < r.value <= |s|
  {
    if !Boundary(isWord, s, a) then None else Alternatives(isWord, s, a)
  }

  // ---------------------------------------------------------------------------
  // The injection pattern `(\r?\n){1,2}SEP(\r?\n){1,2}`

  /** The length of `\r?\n` at `i`, or 0. */
  function BreakLength(s: string, i: nat): (n: nat)
    ensures n == 0 || (n == 1 && At(s, i, "\n")) || (n == 2 && At(s, i, CRLF))
    ensures n == 0 <==> !LineBreakAt(s, i)
  {
    if i + 1 < |s| && s[i] == '\r' && s[i + 1] == '\n' then
      assert CRLF[0] == '\r' && CRLF[1] == '\n';
      2
    else if FeedAt(s, i) then
      assert "\n"[0] == '\n';
      1
    else 0
  }

  /** The closing `(\r?\n){1,2}` at `j`: one line break, and a second one when it is there. */
  function BreaksEnd(s: string, j: nat): (r: Option<nat>)
    requires j <= |s|
    ensures r.Some? ==> j < r.value <= |s|
  {
    var v := BreakLength(s, j);
    if v == 0 then None else Some(j + v + BreakLength(s, j + v))
  }

  /** The injection pattern at `i`: two leading line breaks are tried before one. */
  function InjectionMatch(sep: string, s: string, i: nat): (r: Option<nat>)
    requires i <= |s|
    ensures r.Some? ==> i < r.value <= |s|
  {
    var u1 := BreakLength(s, i);
    if u1 == 0 then None
    else
      var u2 := BreakLength(s, i + u1);
      var two := if u2 > 0 && At(s, i + u1 + u2, sep) then BreaksEnd(s, i + u1 + u2 + |sep|) else None;
      if two.Some? then two
      else if At(s, i + u1, sep) then BreaksEnd(s, i + u1 + |sep|)
      else None
  }

  // ---------------------------------------------------------------------------
  // The marker patterns

  /** `~@.*?@~` with DOTALL at `i`: the lazy `.*?` stops at the first `@~` after the opening marker. */
  function MarkerSpanMatch(s: string, i: nat): (r: Option<nat>)
    requires i <= |s|
    ensures r.Some? ==> i < r.value <= |s|
  {
    if !At(s, i, "~@") then None
    else
      var e := FindFrom(s, "@~", i + 2);
      if e < 0 then None else Some(e + 2)
  }

  /** `\s*[~@]+\s*` at `i`: whitespace, at least one marker character, whitespace, each as long as it goes. */
  function JunkMatch(s: string, i: nat): (r: Option<nat>)
    requires i <= |s|
    ensures r.Some? ==> i < r.value <= |s|
  {
    var a := i + LeadingSpace(s[i..]);
    var m := Run(s[a..], "~@");
    if m == 0 then None
    else
      var b := a + m;
      Some(b + LeadingSpace(s[b..]))
  }

  /** The separator at `i`, case-insensitively when `fold`. */
  predicate SepAt(sep: string, fold: bool, s: string, i: nat) {
    if fold then AtFold(s, i, sep) else At(s, i, sep)
  }

  /**
    `(SEP\s*)*` at `i`, greedily: how many repetitions and where they end. Giving
    back whitespace never lets another separator match, since a separator does
    not start with whitespace.
   */
  function SepRunScan(sep: string, fold: bool, s: string, i: nat): (r: (nat, nat))
    requires |sep| > 0 && i <= |s|
    decreases |s| - i
    ensures i <= r.1 <= |s|
    ensures r.0 > 0 ==> i < r.1
  {
    if SepAt(sep, fold, s, i) then
      var k := SkipSpace(s, i + |sep|);
      var rest := SepRunScan(sep, fold, s, k);
      (rest.0 + 1, rest.1)
    else (0, i)
  }

  // ---------------------------------------------------------------------------
  // re.sub

  /** What `re` matches when it tries `p` at index `i`: the end of the match. */
  function Match(p: Pattern, s: string, i: nat): (r: Option<nat>)
    requires i <= |s| && Usable(p)
    ensures r.Some? ==> i < r.value <= |s|
  {
    match p
    case Article(isWord) => ArticleMatch(isWord, s, i)
    case Injection(sep) => InjectionMatch(sep, s, i)
    case MarkerSpan(_) => MarkerSpanMatch(s, i)
    case Marker(_) => if At(s, i, "~@") || At(s, i, "@~") then Some(i + 2) else None
    case MarkerJunk => JunkMatch(s, i)
    case Spaces =>
      var n := Run(s[i..], " ");
      if n == 0 then None else Some(i + n)
    case SepRun(sep, fold) =>
      var r := SepRunScan(sep, fold, s, i);
      if r.0 >= 2 then Some(r.1) else None
  }

  /** The replacement text of each substitution. */
  function Replacement(p: Pattern): string {
    match p
    case Article(_) => ""
    case Injection(sep) => "~@" + CRLF + CRLF + sep + CRLF + "@~"
    case MarkerSpan(sep) => Delimiter(sep)
    case Marker(sep) => Delimiter(sep)
    case MarkerJunk => ""
    case Spaces => " "
    case SepRun(sep, _) => sep + CRLF
  }

  /** `re.sub(p, replacement, s)`, from index `i` on. */
  function Sub(p: Pattern, s: string, i: nat): string
    requires i <= |s| && Usable(p)
    decreases |s| - i
  {
    if i == |s| then ""
    else match Match(p, s, i)
      case Some(e) => Replacement(p) + Sub(p, s, e)
      case None => [s[i]] + Sub(p, s, i + 1)
  }

  // ---------------------------------------------------------------------------
  // The pipeline steps

  /** `target_lang.lower() == "en"`: lowering never shortens a string, and only `E` and `N` lower to `e` and `n`. */
  predicate IsEnglish(t: string) {
    |t| == 2 && (t[0] == 'e' || t[0] == 'E') && (t[1] == 'n' || t[1] == 'N')
  }

  /** `_process_problematic_articles` (local_translator.py:68-73) for a string target. */
  function StripArticles(isWord: char -> bool, text: string, target: string): (r: string)
    ensures IsEnglish(target) ==> r == text
  {
    if IsEnglish(target) then text else Sub(Article(isWord), text, 0)
  }

  /** `_inject_separators` (local_translator.py:75-78). */
  function Inject(sep: string, text: string): (r: string)
    ensures Trimmed(r)
  {
    Strip(Sub(Injection(sep), text, 0))
  }

  /** `_clean_and_restore_separators` (local_translator.py:59-66). */
  function CleanRestore(sep: string, text: string): string
    requires ValidSeparator(sep)
  {
    var spans := Sub(MarkerSpan(sep), text, 0);
    var marks := Sub(Marker(sep), spans, 0);
    var bare := Sub(MarkerJunk, marks, 0);
    var spaced := Strip(Sub(Spaces, bare, 0));
    Sub(SepRun(sep, false), spaced, 0)
  }

  /** Lines 53-55 of `_validate_and_fix_mort_format`: CRLF line ends, trimmed, separator runs collapsed case-insensitively. */
  function Collapsed(sep: string, text: string): string
    requires ValidSeparator(sep)
  {
    Sub(SepRun(sep, true), Strip(Normalize(text)), 0)
  }

  /** `_validate_and_fix_mort_format` of the local translator (local_translator.py:51-57). */
  function VariantRepair(sep: string, text: string): string
    requires ValidSeparator(sep)
  {
    Render(sep, Segments(sep, Collapsed(sep, text)))
  }

  /** The returned text (local_translator.py:147): `lstrip` drops every leading character of `SEP\r\n`, as a set. */
  function FinalText(sep: string, cleaned: string): string
    requires ValidSeparator(sep)
  {
    Strip(LStripChars(VariantRepair(sep, cleaned), sep + CRLF))
  }

  /** Lines 141-144 with a context: what follows the first `~@` of the reply, trimmed, if there is one. */
  function AfterMarker(t: string): string {
    var i := Find(t, "~@");
    if i < 0 then t else Strip(t[i + 2..])
  }

  /** What the backend's reply becomes (local_translator.py:141-147). */
  function Respond(sep: string, context: string, raw: string): string
    requires ValidSeparator(sep)
  {
    FinalText(sep, CleanRestore(sep, if context != [] then AfterMarker(raw) else raw))
  }

  // ---------------------------------------------------------------------------
  // Context and the text sent

  const ContextTag: string := "Previous Context:"

  datatype Selected = Selected(context: string, text: string)

  /** Lines 104-111: the context and the text to translate, from the trimmed request text and the slot. */
  function SelectContext(enabled: bool, slot: string, t: string): (r: Selected)
    ensures !enabled ==> r == Selected("", t)
  {
    if !enabled then Selected("", t)
    else
      var i := Find(t, ContextTag);
      if i >= 0 then Selected(Strip(t[..i]), Strip(t[i + |ContextTag|..]))
      else if slot != [] then Selected(slot, t)
      else Selected("", t)
  }

  /** The tag at `i`, the first one: the context before it and the text after it. */
  lemma SelectFound(slot: string, t: string, i: int)
    requires i >= 0 && Find(t, ContextTag) == i
    ensures i + |ContextTag| <= |t|
    ensures SelectContext(true, slot, t) == Selected(Strip(t[..i]), Strip(t[i + |ContextTag|..]))
  {
  }

  /** Lines 113-119 for a string target: articles, injection, the context-case trim, then the closing marker. */
  function Prepare(sep: string, isWord: char -> bool, context: string, text: string, target: string): string {
    FramedText(sep, context, Inject(sep, StripArticles(isWord, text, target))) + "~@"
  }

  /** Line 115: with a context, the injected text loses its leading separator characters and is trimmed. */
  function FramedText(sep: string, context: string, injected: string): string {
    if context != [] && StartsWith(Strip(injected), sep + CRLF) then Strip(LStripChars(Strip(injected), sep + CRLF))
    else injected
  }

  /** Line 122: the last separator piece of the injected text, markers removed, trimmed. */
  function SlotOf(sep: string, injected: string): string
    requires |sep| > 0
  {
    Strip(Replace(Replace(LastPiece(Split(injected, sep)), "~@", ""), "@~", ""))
  }

  /** `pieces[-1]`. */
  function LastPiece(pieces: seq<string>): string
    requires |pieces| > 0
  {
    pieces[|pieces| - 1]
  }

  /** The user message of `_prepare_messages` (local_translator.py:30); the frame names the literal `//////`. */
  function UserContent(context: string, injected: string): string {
    if context != [] then SlashLine + CRLF + "@~" + context + "~@" + CRLF + CRLF + SlashLine + CRLF + "@~" + injected
    else injected
  }

  /**
    The framed user message reads back as its parts: with a context, the opening frame,
    the context, the closing frame with the separator line, then the injected text;
    without one, the injected text alone.
   */
  lemma UserContentFramed(context: string, injected: string)
    ensures context == [] ==> UserContent(context, injected) == injected
    ensures context != [] ==>
      var u := UserContent(context, injected);
      var k := |context| + 10;
      |u| == k + 16 + |injected| && u[..10] == SlashLine + CRLF + "@~" && u[10..k] == context
      && u[k..k + 16] == "~@" + CRLF + CRLF + SlashLine + CRLF + "@~" && u[k + 16..] == injected
  {
    if context != [] {
      var u := UserContent(context, injected);
      var open := SlashLine + CRLF + "@~";
      var close := "~@" + CRLF + CRLF + SlashLine + CRLF + "@~";
      assert u == open + context + close + injected;
    }
  }

  // ---------------------------------------------------------------------------
  // Lemmas: the scan

  lemma Assoc(a: string, b: string, c: string)
    ensures a + (b + c) == (a + b) + c
  {
  }

  lemma SliceSplit(s: string, a: nat, b: nat, c: nat)
    requires a <= b <= c <= |s|
    ensures s[a..c] == s[a..b] + s[b..c]
  {
  }

  lemma SliceOfSlice(s: string, a: nat, b: nat, c: nat)
    requires a <= b <= c <= |s|
    ensures s[a..c][..b - a] == s[a..b]
  {
  }

  lemma SliceCons(s: string, i: nat, k: nat)
    requires i < k <= |s|
    ensures s[i..k] == [s[i]] + s[i + 1..k]
  {
  }

  /** One step of the scan where `p` does not match. */
  lemma SubNone(p: Pattern, s: string, i: nat)
    requires i < |s| && Usable(p) && Match(p, s, i).None?
    ensures Sub(p, s, i) == [s[i]] + Sub(p, s, i + 1)
  {
  }

  /** One step of the scan where `p` matches. */
  lemma SubSome(p: Pattern, s: string, i: nat, e: nat)
    requires i < |s| && Usable(p) && Match(p, s, i) == Some(e)
    ensures Sub(p, s, i) == Replacement(p) + Sub(p, s, e)
  {
  }

  /** `p` matches nowhere from `i` up to `k`. */
  ghost predicate Unmatched(p: Pattern, s: string, i: nat, k: nat)
    requires i <= k <= |s| && Usable(p)
  {
    forall j | i <= j < k :: Match(p, s, j).None?
  }

  /** Where `p` matches nowhere from `i` up to `k`, the scan copies those characters. */
  lemma {:induction false} SubCopies(p: Pattern, s: string, i: nat, k: nat)
    requires i <= k <= |s| && Usable(p) && Unmatched(p, s, i, k)
    ensures Sub(p, s, i) == s[i..k] + Sub(p, s, k)
    decreases k - i
  {
    if i < k {
      SubCopies(p, s, i + 1, k);
      SubNone(p, s, i);
      SliceCons(s, i, k);
      Assoc([s[i]], s[i + 1..k], Sub(p, s, k));
    } else {
      assert s[i..k] == [];
    }
  }

  /** Where `p` matches nowhere from `i` on, the scan copies the rest. */
  lemma SubCopiesRest(p: Pattern, s: string, i: nat)
    requires i <= |s| && Usable(p) && Unmatched(p, s, i, |s|)
    ensures Sub(p, s, i) == s[i..]
  {
    SubCopies(p, s, i, |s|);
    assert Sub(p, s, |s|) == [];
  }

  /** The scan has nothing left at the end of the text. */
  lemma SubAtEnd(p: Pattern, s: string, x: string)
    requires Usable(p)
    ensures x + Sub(p, s, |s|) == x
  {
    assert Sub(p, s, |s|) == [];
  }

  lemma SubAfterPrefix(p: Pattern, s: string, x: string, e: nat)
    requires |x| <= |s| && e <= |s| && Usable(p) && s[..|x|] == x
    ensures s[..|x|] + Sub(p, s, e) == x + Sub(p, s, e)
  {
  }

  /** A scan whose first match runs from `a` to `e`. */
  lemma SubFirstMatch(p: Pattern, s: string, i: nat, a: nat, e: nat)
    requires i <= a < e <= |s| && Usable(p)
    requires Unmatched(p, s, i, a) && Match(p, s, a) == Some(e)
    ensures Sub(p, s, i) == s[i..a] + Replacement(p) + Sub(p, s, e)
    ensures Replacement(p) == [] ==> Sub(p, s, i) == s[i..a] + Sub(p, s, e)
  {
    SubCopies(p, s, i, a);
    SubSome(p, s, a, e);
    var head := s[i..a];
    Assoc(head, Replacement(p), Sub(p, s, e));
    if Replacement(p) == [] {
      assert head + Replacement(p) == head;
    }
  }

  /** A scan that finds exactly one match, from `a` to `e`. */
  lemma SubOneMatch(p: Pattern, s: string, a: nat, e: nat)
    requires a < e <= |s| && Usable(p)
    requires Unmatched(p, s, 0, a) && Match(p, s, a) == Some(e) && Unmatched(p, s, e, |s|)
    ensures Sub(p, s, 0) == s[..a] + Replacement(p) + s[e..]
  {
    SubCopies(p, s, 0, a);
    SubSome(p, s, a, e);
    SubCopiesRest(p, s, e);
    var head, tail := s[0..a], s[e..];
    assert head == s[..a];
    assert Sub(p, s, 0) == head + (Replacement(p) + tail);
    Assoc(head, Replacement(p), tail);
  }

  /** A character that neither the text nor the replacement holds is not in the result. */
  lemma {:induction false} SubKeepsOut(p: Pattern, s: string, i: nat, c: char)
    requires i <= |s| && Usable(p) && c !in s && c !in Replacement(p)
    ensures c !in Sub(p, s, i)
    decreases |s| - i
  {
    if i < |s| {
      var m := Match(p, s, i);
      if m.Some? {
        var e := m.value;
        SubSome(p, s, i, e);
        SubKeepsOut(p, s, e, c);
        NotInConcat(c, Replacement(p), Sub(p, s, e));
      } else {
        assert s[i] in s;
        SubNone(p, s, i);
        SubKeepsOut(p, s, i + 1, c);
        NotInConcat(c, [s[i]], Sub(p, s, i + 1));
      }
    }
  }

  lemma NotInConcat(c: char, a: string, b: string)
    requires c !in a && c !in b
    ensures c !in a + b
  {
  }

  /** A marker character the marker cleanup reaches starts a match. */
  lemma JunkAtMark(s: string, i: nat)
    requires i < |s|
    ensures s[i] in "~@" ==> JunkMatch(s, i).Some?
  {
    if s[i] in "~@" {
      assert !IsSpace(s[i..][0]);
      assert s[i..][LeadingSpace(s[i..])..] == s[i..];
    }
  }

  /** After the marker cleanup no `~` and no `@` is left (local_translator.py:63). */
  lemma {:induction false} JunkSubClean(s: string, i: nat)
    requires i <= |s|
    ensures '~' !in Sub(MarkerJunk, s, i) && '@' !in Sub(MarkerJunk, s, i)
    decreases |s| - i
  {
    if i < |s| {
      var m := Match(MarkerJunk, s, i);
      if m.Some? {
        SubSome(MarkerJunk, s, i, m.value);
        JunkSubClean(s, m.value);
      } else {
        SubNone(MarkerJunk, s, i);
        JunkAtMark(s, i);
        JunkSubClean(s, i + 1);
      }
    }
  }

  lemma StripKeepsOut(s: string, c: char)
    requires c !in s
    ensures c !in Strip(s)
  {
    var a, b := StripSlice(s);
    assert forall k | 0 <= k < b - a :: s[a..b][k] == s[a + k];
  }

  /**
    The restored text holds no `~` and no `@` at all, stray ones in ordinary text
    included (local_translator.py:61-66), whatever the separator, which holds neither.
   */
  lemma CleanRestoreNoMarks(sep: string, text: string)
    requires ValidSeparator(sep)
    ensures '~' !in CleanRestore(sep, text) && '@' !in CleanRestore(sep, text)
  {
    var marks := Sub(Marker(sep), Sub(MarkerSpan(sep), text, 0), 0);
    var bare := Sub(MarkerJunk, marks, 0);
    var subbed := Sub(Spaces, bare, 0);
    var spaced := Strip(subbed);
    assert CleanRestore(sep, text) == Sub(SepRun(sep, false), spaced, 0);
    JunkSubClean(marks, 0);
    assert Replacement(Spaces) == " ";
    SubKeepsOut(Spaces, bare, 0, '~');
    SubKeepsOut(Spaces, bare, 0, '@');
    StripKeepsOut(subbed, '~');
    StripKeepsOut(subbed, '@');
    assert Replacement(SepRun(sep, false)) == sep + CRLF;
    NotInConcat('~', sep, CRLF);
    NotInConcat('@', sep, CRLF);
    SubKeepsOut(SepRun(sep, false), spaced, 0, '~');
    SubKeepsOut(SepRun(sep, false), spaced, 0, '@');
  }

  lemma FindFromIs(s: string, p: string, i: nat, k: nat)
    requires i <= k && At(s, k, p)
    requires forall j | i <= j < k :: !At(s, j, p)
    ensures FindFrom(s, p, i) == k
    decreases k - i
  {
    if i < k {
      FindFromIs(s, p, i + 1, k);
    }
  }

  /** No span starts where there is no `~`. */
  lemma NoSpanIn(sep: string, s: string, lo: nat, hi: nat)
    requires lo <= hi <= |s|
    requires forall j | lo <= j < hi :: s[j] != '~'
    ensures Unmatched(MarkerSpan(sep), s, lo, hi)
  {
    forall j | lo <= j < hi ensures Match(MarkerSpan(sep), s, j).None? {
      assert s[j + 0] != "~@"[0];
    }
  }

  /** The span pattern at an opening marker ends after the first closing marker. */
  lemma SpanAt(sep: string, s: string, a: nat, e: nat)
    requires a + 2 <= e && e + 2 <= |s| && At(s, a, "~@") && At(s, e, "@~")
    requires forall j | a + 2 <= j < e :: s[j] != '@'
    ensures Match(MarkerSpan(sep), s, a) == Some(e + 2)
  {
    forall j | a + 2 <= j < e ensures !At(s, j, "@~") {
      assert s[j + 0] != "@~"[0];
    }
    FindFromIs(s, "@~", a + 2, e);
  }

  /** The scan of a text with one marker span from `a` to `e + 2` and no other `~@`. */
  lemma MarkerSpanScan(sep: string, s: string, a: nat, e: nat)
    requires a + 2 <= e && e + 2 <= |s| && At(s, a, "~@") && At(s, e, "@~")
    requires forall j | 0 <= j < a :: s[j] != '~'
    requires forall j | a + 2 <= j < e :: s[j] != '@'
    requires forall j | e + 2 <= j < |s| :: s[j] != '~'
    ensures Sub(MarkerSpan(sep), s, 0) == s[..a] + Delimiter(sep) + s[e + 2..]
  {
    NoSpanIn(sep, s, 0, a);
    NoSpanIn(sep, s, e + 2, |s|);
    SpanAt(sep, s, a, e);
    SubOneMatch(MarkerSpan(sep), s, a, e + 2);
  }

  /**
    A span from `~@` to the first `@~` after it, across lines, becomes one separator line
    (local_translator.py:61). This is the one-span case of `MarkerSpansReplaced`, kept as the
    simplest instance.
   */
  lemma MarkerSpanReplaced(sep: string, x: string, m: string, y: string)
    requires '~' !in x && '@' !in m && '~' !in y
    ensures Sub(MarkerSpan(sep), x + "~@" + m + "@~" + y, 0) == x + Delimiter(sep) + y
  {
    var u := x + "~@" + m;
    var s := u + "@~" + y;
    var e := |u|;
    assert s[..|x|] == x && s[e + 2..] == y;
    assert forall j | 0 <= j < |x| :: s[j] == x[j];
    assert forall j | |x| + 2 <= j < e :: s[j] == u[j] == m[j - |x| - 2];
    assert forall j | e + 2 <= j < |s| :: s[j] == y[j - e - 2];
    MarkerSpanScan(sep, s, |x|, e);
  }

  /** Texts outside and inside marker spans, alternating: `x0 ~@ m0 @~ x1 ~@ m1 @~ x2 ...`. */
  function Spanned(outside: seq<string>, inside: seq<string>): string
    requires |outside| == |inside| + 1
    decreases |inside|
  {
    if inside == [] then outside[0]
    else outside[0] + "~@" + inside[0] + "@~" + Spanned(outside[1..], inside[1..])
  }

  /** No outside text holds a `~` and no inside text an `@`. */
  ghost predicate SpannedShape(outside: seq<string>, inside: seq<string>) {
    |outside| == |inside| + 1
    && (forall k | 0 <= k < |outside| :: '~' !in outside[k])
    && (forall k | 0 <= k < |inside| :: '@' !in inside[k])
  }

  /** A character absent from a stretch's text is absent at each of its indices. */
  lemma AbsentIn(s: string, lo: nat, hi: nat, x: string, c: char)
    requires lo <= hi <= |s| && s[lo..hi] == x && c !in x
    ensures forall j | lo <= j < hi :: s[j] != c
  {
    assert forall j | lo <= j < hi :: s[j] == x[j - lo];
  }

  /** Where the first span of a spanned suffix lies. */
  lemma SpanLayout(s: string, i: nat, x: string, m: string, rest: string)
    requires i <= |s| && s[i..] == x + "~@" + m + "@~" + rest
    ensures var a := i + |x|; var e := a + 2 + |m|;
      e + 2 <= |s| && s[i..a] == x && At(s, a, "~@") && s[a + 2..e] == m && At(s, e, "@~") && s[e + 2..] == rest
  {
    var a := i + |x|;
    assert s[i..|s|] == x + "~@" + (m + "@~" + rest);
    PartAt(s, i, |s|, x, "~@", m + "@~" + rest);
    PartAt(s, a + 2, |s|, m, "@~", rest);
  }

  /** The scan over a spanned suffix replaces each span by one separator line. */
  lemma {:induction false} SpannedFrom(sep: string, s: string, i: nat, outside: seq<string>, inside: seq<string>)
    requires SpannedShape(outside, inside) && i <= |s| && s[i..] == Spanned(outside, inside)
    ensures Sub(MarkerSpan(sep), s, i) == Join(outside, Delimiter(sep))
    decreases |inside|
  {
    var p := MarkerSpan(sep);
    if inside == [] {
      AbsentIn(s, i, |s|, outside[0], '~');
      NoSpanIn(sep, s, i, |s|);
      SubCopiesRest(p, s, i);
    } else {
      var x, m := outside[0], inside[0];
      var rest := Spanned(outside[1..], inside[1..]);
      var a := i + |x|;
      var e := a + 2 + |m|;
      var f := e + 2;
      SpanLayout(s, i, x, m, rest);
      SpanStep(sep, s, i, a, x, m, e, f);
      assert SpannedShape(outside[1..], inside[1..]);
      SpannedFrom(sep, s, f, outside[1..], inside[1..]);
      var j := Join(outside[1..], Delimiter(sep));
      assert Join(outside, Delimiter(sep)) == x + Delimiter(sep) + j;
    }
  }

  /** The scan keeps the text `x` at `i` and replaces the span `~@ m @~` after it. */
  lemma SpanStep(sep: string, s: string, i: nat, a: nat, x: string, m: string, e: nat, f: nat)
    requires '~' !in x && '@' !in m && a == i + |x| && e == a + 2 + |m| && f == e + 2 && f <= |s|
    requires s[i..a] == x && At(s, a, "~@") && s[a + 2..e] == m && At(s, e, "@~")
    ensures Sub(MarkerSpan(sep), s, i) == x + Delimiter(sep) + Sub(MarkerSpan(sep), s, f)
  {
    var p := MarkerSpan(sep);
    AbsentIn(s, i, a, x, '~');
    NoSpanIn(sep, s, i, a);
    AbsentIn(s, a + 2, e, m, '@');
    SpanAt(sep, s, a, e);
    MarkedAfter(p, s, i, a, f, x);
  }

  /**
    Every span from a `~@` to the first `@~` after it, across lines, becomes one separator
    line, however many spans the text holds (local_translator.py:61).
   */
  lemma MarkerSpansReplaced(sep: string, outside: seq<string>, inside: seq<string>)
    requires SpannedShape(outside, inside)
    ensures Sub(MarkerSpan(sep), Spanned(outside, inside), 0) == Join(outside, Delimiter(sep))
  {
    var s := Spanned(outside, inside);
    assert s[0..] == s;
    SpannedFrom(sep, s, 0, outside, inside);
  }

  /** Text without the separator is only trimmed by the injection (local_translator.py:77-78). */
  lemma InjectFree(sep: string, t: string)
    requires Free(t, sep)
    ensures Inject(sep, t) == Strip(t)
  {
    SubCopiesRest(Injection(sep), t, 0);
  }

  /** The injection pattern starts with a line feed, or a carriage return before one. */
  lemma NoInjectionIn(sep: string, s: string, lo: nat, hi: nat)
    requires lo <= hi <= |s| && (hi == |s| || s[hi] != '\n')
    requires forall j | lo <= j < hi :: s[j] != '\n'
    ensures Unmatched(Injection(sep), s, lo, hi)
  {
    forall j | lo <= j < hi ensures Match(Injection(sep), s, j).None? {
      assert s[j + 0] != "\n"[0];
      assert !At(s, j, CRLF) by {
        if j + 1 < |s| {
          assert s[j + 1] != CRLF[1];
        }
      }
    }
  }

  /** The injection pattern at `a` on `CRLF SEP CRLF` not followed by another line break. */
  lemma InjectionAt(sep: string, s: string, a: nat)
    requires ValidSeparator(sep) && At(s, a, CRLF) && At(s, a + 2, sep) && At(s, a + 2 + |sep|, CRLF)
    requires a + 4 + |sep| == |s| || s[a + 4 + |sep|] !in "\r\n"
    ensures Match(Injection(sep), s, a) == Some(a + 4 + |sep|)
  {
    assert s[a + 2] == sep[0] && !IsSpace(sep[0]);
    assert s[a + 2] != '\n' && s[a + 2] != '\r';
    assert s[a + 0] == CRLF[0] && s[a + 1] == CRLF[1];
    assert BreakLength(s, a) == 2 && BreakLength(s, a + 2) == 0;
    var b := a + 2 + |sep|;
    assert s[b + 0] == CRLF[0] && s[b + 1] == CRLF[1];
    assert BreakLength(s, b) == 2;
    var e := a + 4 + |sep|;
    assert BreakLength(s, e) == 0;
  }

  /** Where the pieces of `x CRLF SEP CRLF y` lie. */
  lemma InjectLayout(sep: string, x: string, y: string, s: string)
    requires s == x + CRLF + sep + CRLF + y && '\n' !in x && '\n' !in y
    ensures At(s, |x|, CRLF) && At(s, |x| + 2, sep) && At(s, |x| + 2 + |sep|, CRLF)
    ensures forall j | 0 <= j < |x| :: s[j] != '\n'
    ensures forall j | |x| + 4 + |sep| <= j < |s| :: s[j] != '\n'
    ensures |x| + 4 + |sep| < |s| ==> s[|x| + 4 + |sep|] == y[0]
    ensures s[..|x|] == x && s[|x| + 4 + |sep|..] == y
  {
    var u := x + CRLF + sep + CRLF;
    assert s == u + y;
    assert forall j | 0 <= j < |x| :: s[j] == x[j];
    assert forall j | |u| <= j < |s| :: s[j] == y[j - |u|];
    assert forall j | |x| <= j < |u| :: s[j] == u[j];
  }

  /** The scan of a text with one `CRLF SEP CRLF` at `a` and no other line feed. */
  lemma InjectScan(sep: string, s: string, a: nat)
    requires ValidSeparator(sep) && At(s, a, CRLF) && At(s, a + 2, sep) && At(s, a + 2 + |sep|, CRLF)
    requires forall j | 0 <= j < a :: s[j] != '\n'
    requires forall j | a + 4 + |sep| <= j < |s| :: s[j] != '\n'
    requires a + 4 + |sep| == |s| || s[a + 4 + |sep|] != '\r'
    ensures Sub(Injection(sep), s, 0) == s[..a] + Replacement(Injection(sep)) + s[a + 4 + |sep|..]
  {
    var e := a + 4 + |sep|;
    assert s[a + 0] == CRLF[0];
    NoInjectionIn(sep, s, 0, a);
    InjectionAt(sep, s, a);
    NoInjectionIn(sep, s, e, |s|);
    SubOneMatch(Injection(sep), s, a, e);
  }

  /**
    One line break, the separator and one line break become the marked separator
    `~@ CRLF CRLF SEP CRLF @~` (local_translator.py:77-78). This is the one-gap case of
    `InjectSpliced`, kept as the simplest instance.
   */
  lemma InjectOne(sep: string, x: string, y: string)
    requires ValidSeparator(sep) && '\n' !in x && '\n' !in y && (y == [] || y[0] != '\r')
    ensures Sub(Injection(sep), x + CRLF + sep + CRLF + y, 0) == x + Replacement(Injection(sep)) + y
  {
    var s := x + CRLF + sep + CRLF + y;
    InjectLayout(sep, x, y, s);
    InjectScan(sep, s, |x|);
  }

  // ---------------------------------------------------------------------------
  // Lemmas: the injection over a whole text (local_translator.py:77-78)

  /** `(\r?\n){1,2}`: one or two line breaks, each `\n` or `\r\n`. */
  predicate BreakRun(b: string) {
    b == "\n" || b == CRLF || b == "\n\n" || b == "\n" + CRLF || b == CRLF + "\n" || b == CRLF + CRLF
  }

  /**
    Segments joined by separator lines, each gap giving the line breaks before and
    after its separator: `p0 b SEP b' p1 b SEP b' p2 ...`.
   */
  function Spliced(sep: string, pieces: seq<string>, gaps: seq<(string, string)>): string
    requires |pieces| == |gaps| + 1
    decreases |gaps|
  {
    if gaps == [] then pieces[0]
    else pieces[0] + gaps[0].0 + sep + gaps[0].1 + Spliced(sep, pieces[1..], gaps[1..])
  }

  /** Every piece is a MORT segment and every gap has one or two line breaks on each side. */
  ghost predicate SplicedShape(sep: string, pieces: seq<string>, gaps: seq<(string, string)>) {
    |pieces| == |gaps| + 1 && AllSegments(sep, pieces)
    && forall k | 0 <= k < |gaps| :: BreakRun(gaps[k].0) && BreakRun(gaps[k].1)
  }

  /** The first `\r?\n` of a run, and the second where the run has two. */
  lemma RunLengths(s: string, j: nat, b: string)
    requires BreakRun(b) && At(s, j, b)
    ensures BreakLength(s, j) > 0 && IsSpace(s[j])
    ensures BreakLength(s, j) == |b|
      || (BreakLength(s, j + BreakLength(s, j)) > 0 && BreakLength(s, j) + BreakLength(s, j + BreakLength(s, j)) == |b|)
  {
    assert s[j + 0] == b[0];
    assert |b| > 1 ==> s[j + 1] == b[1];
    assert |b| > 2 ==> s[j + 2] == b[2];
    assert |b| > 3 ==> s[j + 3] == b[3];
  }

  /** The greedy `(\r?\n){1,2}` after the separator takes the whole run when no line break follows it. */
  lemma RunEnd(s: string, j: nat, b: string)
    requires BreakRun(b) && At(s, j, b) && !LineBreakAt(s, j + |b|)
    ensures BreaksEnd(s, j) == Some(j + |b|)
  {
    RunLengths(s, j, b);
  }

  /** The injection pattern on `b1 SEP b2` at `a`, with no line break after it. */
  lemma InjectionAtRun(sep: string, s: string, a: nat, b1: string, b2: string, e: nat)
    requires ValidSeparator(sep) && BreakRun(b1) && BreakRun(b2)
    requires At(s, a, b1) && At(s, a + |b1|, sep) && At(s, a + |b1| + |sep|, b2)
    requires e == a + |b1| + |sep| + |b2| && !LineBreakAt(s, e)
    ensures Match(Injection(sep), s, a) == Some(e)
  {
    RunLengths(s, a, b1);
    RunEnd(s, a + |b1| + |sep|, b2);
    assert s[a + |b1| + 0] == sep[0] && !IsSpace(sep[0]);
    assert !LineBreakAt(s, a + |b1|);
  }

  /**
    The separator does not start inside the stretch `[lo, hi)` that holds no separator
    and is followed by whitespace or the end: it would have to cross into that whitespace.
   */
  lemma NoSepWithin(sep: string, s: string, lo: nat, hi: nat, k: nat)
    requires ValidSeparator(sep) && lo <= k < hi <= |s| && Free(s[lo..hi], sep)
    requires hi == |s| || IsSpace(s[hi])
    ensures !At(s, k, sep)
  {
    if k + |sep| <= hi {
      assert forall q | k <= q < k + |sep| :: s[lo..hi][q - lo] == s[q];
      assert At(s, k, sep) <==> At(s[lo..hi], k - lo, sep);
    } else if hi < |s| {
      NotAtOverSpace(s, k, sep, hi);
    }
  }

  /** Whitespace inside a trimmed stretch is not its last character. */
  lemma InnerSpace(s: string, lo: nat, hi: nat, q: nat)
    requires lo <= q < hi <= |s| && Trimmed(s[lo..hi]) && IsSpace(s[q])
    ensures q + 1 < hi
  {
    assert s[lo..hi][hi - 1 - lo] == s[hi - 1];
  }

  /**
    A segment followed by whitespace or the end holds no match: a line break inside it
    is followed by text of the segment, never by a whole separator.
   */
  lemma NoInjectionInPiece(sep: string, s: string, lo: nat, hi: nat)
    requires ValidSeparator(sep) && lo <= hi <= |s| && Trimmed(s[lo..hi]) && Free(s[lo..hi], sep)
    requires hi == |s| || IsSpace(s[hi])
    ensures Unmatched(Injection(sep), s, lo, hi)
  {
    forall j | lo <= j < hi ensures Match(Injection(sep), s, j).None? {
      var u1 := BreakLength(s, j);
      if u1 > 0 {
        InnerSpace(s, lo, hi, j);
        if u1 == 2 {
          InnerSpace(s, lo, hi, j + 1);
        }
        NoSepWithin(sep, s, lo, hi, j + u1);
        var u2 := BreakLength(s, j + u1);
        if u2 > 0 {
          InnerSpace(s, lo, hi, j + u1);
          if u2 == 2 {
            InnerSpace(s, lo, hi, j + u1 + 1);
          }
          NoSepWithin(sep, s, lo, hi, j + u1 + u2);
        }
      }
    }
  }

  /** Where the parts of `x y z` lie in the stretch `[i, t)`. */
  lemma PartAt(s: string, i: nat, t: nat, x: string, y: string, z: string)
    requires i <= t <= |s| && s[i..t] == x + y + z
    ensures i + |x| + |y| + |z| == t
    ensures At(s, i, x) && At(s, i + |x|, y) && s[i..i + |x|] == x && s[i + |x| + |y|..t] == z
    ensures s[i + |x|..i + |x| + |y|] == y
  {
    var w := s[i..t];
    assert forall q | 0 <= q < |x| :: s[i + q] == w[q];
    assert forall q | i + |x| <= q < i + |x| + |y| :: s[q] == w[q - i];
    assert s[i..i + |x|] == w[..|x|];
    assert s[i + |x|..i + |x| + |y|] == w[|x|..|x| + |y|];
    assert s[i + |x| + |y|..t] == w[|x| + |y|..];
  }

  /** A spliced text starts with its first piece. */
  lemma SplicedHead(sep: string, pieces: seq<string>, gaps: seq<(string, string)>)
    requires |pieces| == |gaps| + 1 && pieces[0] != []
    ensures Spliced(sep, pieces, gaps) != [] && Spliced(sep, pieces, gaps)[0] == pieces[0][0]
  {
  }

  /** Where the first gap of a spliced stretch lies. */
  lemma SpliceLayout(sep: string, s: string, i: nat, t: nat, pieces: seq<string>, gaps: seq<(string, string)>)
    requires |pieces| == |gaps| + 1 && gaps != [] && i <= t <= |s| && s[i..t] == Spliced(sep, pieces, gaps)
    ensures var a := i + |pieces[0]|; var c := a + |gaps[0].0|; var e := c + |sep| + |gaps[0].1|;
      e <= t && s[i..a] == pieces[0] && At(s, a, gaps[0].0) && At(s, c, sep) && At(s, c + |sep|, gaps[0].1)
      && s[e..t] == Spliced(sep, pieces[1..], gaps[1..])
  {
    var p, b1, b2 := pieces[0], gaps[0].0, gaps[0].1;
    var rest := Spliced(sep, pieces[1..], gaps[1..]);
    var a := i + |p|;
    var c := a + |b1|;
    assert s[i..t] == p + b1 + (sep + b2 + rest);
    PartAt(s, i, t, p, b1, sep + b2 + rest);
    PartAt(s, c, t, sep, b2, rest);
  }

  /** What the rest of a spliced text must meet once its first gap is passed. */
  lemma SplicedShapeTail(sep: string, pieces: seq<string>, gaps: seq<(string, string)>)
    requires SplicedShape(sep, pieces, gaps) && gaps != []
    ensures SplicedShape(sep, pieces[1..], gaps[1..])
    ensures IsSegment(sep, pieces[0]) && pieces[1] != [] && !IsSpace(pieces[1][0])
    ensures BreakRun(gaps[0].0) && BreakRun(gaps[0].1)
  {
    assert IsSegment(sep, pieces[0]) && IsSegment(sep, pieces[1]);
  }

  /** The scan keeps a segment at `i` and marks the gap `b1 SEP b2` after it. */
  lemma InjectGapStep(sep: string, s: string, i: nat, piece: string, b1: string, b2: string, e: nat)
    requires ValidSeparator(sep) && IsSegment(sep, piece) && BreakRun(b1) && BreakRun(b2)
    requires i + |piece| <= |s| && s[i..i + |piece|] == piece
    requires At(s, i + |piece|, b1) && At(s, i + |piece| + |b1|, sep) && At(s, i + |piece| + |b1| + |sep|, b2)
    requires e == i + |piece| + |b1| + |sep| + |b2| && e < |s| && !IsSpace(s[e])
    ensures Sub(Injection(sep), s, i) == piece + Replacement(Injection(sep)) + Sub(Injection(sep), s, e)
  {
    var a := i + |piece|;
    PieceThenGap(sep, s, i, a, piece, b1);
    InjectionAtRun(sep, s, a, b1, b2, e);
    MarkedAfter(Injection(sep), s, i, a, e, piece);
  }

  /** A segment followed by a line break holds no match. */
  lemma PieceThenGap(sep: string, s: string, i: nat, a: nat, piece: string, b1: string)
    requires ValidSeparator(sep) && IsSegment(sep, piece) && BreakRun(b1)
    requires a == i + |piece| && a <= |s| && s[i..a] == piece && At(s, a, b1)
    ensures Unmatched(Injection(sep), s, i, a)
  {
    RunLengths(s, a, b1);
    NoInjectionInPiece(sep, s, i, a);
  }

  /** The scan copies `[i, a)`, where nothing matches, then replaces the match from `a` to `e`. */
  lemma MarkedAfter(p: Pattern, s: string, i: nat, a: nat, e: nat, x: string)
    requires i <= a < |s| && e <= |s| && Usable(p) && Unmatched(p, s, i, a) && s[i..a] == x && Match(p, s, a) == Some(e)
    ensures Sub(p, s, i) == x + Replacement(p) + Sub(p, s, e)
  {
    SubCopies(p, s, i, a);
    SubSome(p, s, a, e);
  }

  /**
    The scan over a spliced stretch `[i, t)` followed by whitespace or the end: each
    piece is kept and each gap becomes the marked separator.
   */
  lemma {:induction false} InjectSplicedFrom(sep: string, s: string, i: nat, t: nat, pieces: seq<string>, gaps: seq<(string, string)>)
    requires ValidSeparator(sep) && SplicedShape(sep, pieces, gaps)
    requires i <= t <= |s| && s[i..t] == Spliced(sep, pieces, gaps) && (t == |s| || IsSpace(s[t]))
    ensures Sub(Injection(sep), s, i) == Join(pieces, Replacement(Injection(sep))) + Sub(Injection(sep), s, t)
    decreases |gaps|
  {
    var p := Injection(sep);
    var r := Replacement(p);
    if gaps == [] {
      assert s[i..t] == pieces[0] && IsSegment(sep, pieces[0]);
      NoInjectionInPiece(sep, s, i, t);
      SubCopies(p, s, i, t);
    } else {
      var e := InjectFirstGap(sep, s, i, t, pieces, gaps);
      InjectSplicedFrom(sep, s, e, t, pieces[1..], gaps[1..]);
      var j := Join(pieces[1..], r);
      assert Join(pieces, r) == pieces[0] + r + j;
      Assoc(pieces[0] + r, j, Sub(p, s, t));
    }
  }

  /** The first piece and gap of a spliced stretch, and where the rest of it starts. */
  lemma InjectFirstGap(sep: string, s: string, i: nat, t: nat, pieces: seq<string>, gaps: seq<(string, string)>) returns (e: nat)
    requires ValidSeparator(sep) && SplicedShape(sep, pieces, gaps) && gaps != []
    requires i <= t <= |s| && s[i..t] == Spliced(sep, pieces, gaps)
    ensures i <= e <= t && s[e..t] == Spliced(sep, pieces[1..], gaps[1..]) && SplicedShape(sep, pieces[1..], gaps[1..])
    ensures Sub(Injection(sep), s, i) == pieces[0] + Replacement(Injection(sep)) + Sub(Injection(sep), s, e)
  {
    var a := i + |pieces[0]|;
    var b1, b2 := gaps[0].0, gaps[0].1;
    e := a + |b1| + |sep| + |b2|;
    SpliceLayout(sep, s, i, t, pieces, gaps);
    SplicedShapeTail(sep, pieces, gaps);
    SplicedHead(sep, pieces[1..], gaps[1..]);
    assert s[e] == s[e..t][0];
    InjectGapStep(sep, s, i, pieces[0], b1, b2, e);
  }

  /**
    Segments joined by separator lines, each with one or two `\n` or `\r\n` line breaks
    on either side, come out of the injection with every separator line marked
    (local_translator.py:77-78).
   */
  lemma InjectSpliced(sep: string, pieces: seq<string>, gaps: seq<(string, string)>)
    requires ValidSeparator(sep) && SplicedShape(sep, pieces, gaps)
    ensures Inject(sep, Spliced(sep, pieces, gaps)) == Join(pieces, Replacement(Injection(sep)))
  {
    var s := Spliced(sep, pieces, gaps);
    InjectSplicedFrom(sep, s, 0, |s|, pieces, gaps);
    SubAtEnd(Injection(sep), s, Join(pieces, Replacement(Injection(sep))));
    JoinMarkedTrimmed(sep, pieces);
    StripTrimmed(Join(pieces, Replacement(Injection(sep))));
  }

  /** A join of segments, marked or not, is trimmed. */
  lemma JoinMarkedTrimmed(sep: string, pieces: seq<string>)
    requires |pieces| > 0 && AllSegments(sep, pieces)
    ensures Join(pieces, Replacement(Injection(sep))) != [] && Trimmed(Join(pieces, Replacement(Injection(sep))))
  {
    JoinHead(pieces, Replacement(Injection(sep)));
    assert IsSegment(sep, pieces[0]) && IsSegment(sep, pieces[|pieces| - 1]);
  }

  /** With `CRLF` on both sides of every separator, splicing is joining with the separator line. */
  lemma {:induction false} SplicedDelimiters(sep: string, segs: seq<string>, gaps: seq<(string, string)>)
    requires |segs| == |gaps| + 1 && forall k | 0 <= k < |gaps| :: gaps[k] == (CRLF, CRLF)
    ensures Spliced(sep, segs, gaps) == Join(segs, Delimiter(sep))
    decreases |gaps|
  {
    if gaps != [] {
      SplicedDelimiters(sep, segs[1..], gaps[1..]);
      var rest := Join(segs[1..], Delimiter(sep));
      assert segs[0] + CRLF + sep + CRLF + rest == segs[0] + (CRLF + sep + CRLF) + rest;
    }
  }

  /** The separator line that opens a MORT text holds no match: no line break precedes it. */
  lemma RenderHeadUnmatched(sep: string, s: string, seg: string)
    requires ValidSeparator(sep) && At(s, 0, sep + CRLF) && IsSegment(sep, seg)
    requires |sep| + 2 + |seg| <= |s| && s[|sep| + 2..|sep| + 2 + |seg|] == seg
    requires |sep| + 2 + |seg| == |s| || IsSpace(s[|sep| + 2 + |seg|])
    ensures Unmatched(Injection(sep), s, 0, |sep| + 2)
  {
    var q := |sep| + 2;
    assert s[q] == seg[0] && !IsSpace(s[q]);
    NoSepWithin(sep, s, q, q + |seg|, q);
    forall j | 0 <= j < q ensures Match(Injection(sep), s, j).None? {
      assert s[j] == (sep + CRLF)[j];
      if j < |sep| {
        assert s[j] == sep[j] && !IsSpace(sep[j]);
      }
    }
  }

  /** The closing line break of a MORT text holds no match: no separator follows it. */
  lemma TrailingBreakUnmatched(sep: string, s: string, t: nat)
    requires ValidSeparator(sep) && t + 2 == |s| && At(s, t, CRLF)
    ensures Unmatched(Injection(sep), s, t, |s|)
  {
    assert s[t + 0] == CRLF[0] && s[t + 1] == CRLF[1];
  }

  /** The scan over a MORT text: the first separator line and the last line break are kept, every other separator line is marked. */
  lemma InjectRenderedScan(sep: string, segs: seq<string>)
    requires ValidSeparator(sep) && segs != [] && AllSegments(sep, segs)
    ensures Sub(Injection(sep), Render(sep, segs), 0) == sep + CRLF + Join(segs, Replacement(Injection(sep))) + CRLF
  {
    var p := Injection(sep);
    var s := Render(sep, segs);
    var body := Join(segs, Delimiter(sep));
    var gaps := seq(|segs| - 1, k => (CRLF, CRLF));
    SplicedDelimiters(sep, segs, gaps);
    assert SplicedShape(sep, segs, gaps);
    assert s == sep + CRLF + body + CRLF;
    var q := |sep| + 2;
    var t := |s| - 2;
    PartAt(s, 0, |s|, sep + CRLF, body, CRLF);
    assert s[t] == CRLF[0];
    InjectHeadedTo(sep, s, q, t, segs, gaps);
    TrailingBreakUnmatched(sep, s, t);
    SubCopiesRest(p, s, t);
    assert s[t..] == s[t..|s|];
  }

  /** A scan that matches nowhere before `q` and nowhere from `t` keeps the text there. */
  lemma ScanFrame(p: Pattern, s: string, q: nat, t: nat, h: string, j: string, z: string)
    requires q <= t <= |s| && Usable(p) && Unmatched(p, s, 0, q) && Unmatched(p, s, t, |s|)
    requires s[0..q] == h && s[t..] == z && Sub(p, s, q) == j + Sub(p, s, t)
    ensures Sub(p, s, 0) == h + j + z
  {
    SubCopies(p, s, 0, q);
    SubCopiesRest(p, s, t);
  }

  /**
    In a MORT text every separator line but the first, which no line break precedes,
    becomes the marked separator, and the final line break is trimmed away
    (local_translator.py:77-78).
   */
  lemma InjectRendered(sep: string, segs: seq<string>)
    requires ValidSeparator(sep) && segs != [] && AllSegments(sep, segs)
    ensures Inject(sep, Render(sep, segs)) == sep + CRLF + Join(segs, Replacement(Injection(sep)))
  {
    InjectRenderedScan(sep, segs);
    var j := Join(segs, Replacement(Injection(sep)));
    JoinMarkedTrimmed(sep, segs);
    var h := sep + CRLF + j;
    HeadedTrimmed(sep, j);
    StripLine(h);
  }

  /** A separator line before a trimmed text leaves it trimmed. */
  lemma HeadedTrimmed(sep: string, j: string)
    requires ValidSeparator(sep) && j != [] && Trimmed(j)
    ensures Trimmed(sep + CRLF + j)
  {
    var h := sep + CRLF + j;
    assert h[0] == sep[0];
    assert h[|h| - 1] == j[|j| - 1];
  }

  /** A MORT text without its final line break, as the request handler's `strip()` leaves it. */
  lemma StrippedRender(sep: string, segs: seq<string>)
    requires ValidSeparator(sep) && segs != [] && AllSegments(sep, segs)
    ensures Strip(Render(sep, segs)) == sep + CRLF + Join(segs, Delimiter(sep))
  {
    var j := Join(segs, Delimiter(sep));
    JoinTrimmed(sep, segs);
    var h := sep + CRLF + j;
    HeadedTrimmed(sep, j);
    assert Render(sep, segs) == h + CRLF;
    StripLine(h);
  }

  /** The scan over a stripped MORT text: the first separator line is kept, every other one is marked. */
  lemma InjectStrippedScan(sep: string, segs: seq<string>, h: string)
    requires ValidSeparator(sep) && segs != [] && AllSegments(sep, segs)
    requires h == sep + CRLF + Join(segs, Delimiter(sep))
    ensures Sub(Injection(sep), h, 0) == sep + CRLF + Join(segs, Replacement(Injection(sep)))
  {
    var gaps := seq(|segs| - 1, k => (CRLF, CRLF));
    SplicedDelimiters(sep, segs, gaps);
    assert SplicedShape(sep, segs, gaps);
    InjectHeaded(sep, h, segs, gaps);
  }

  /**
    The request text in MORT form, after the handler's `strip()`, injects to the same
    marked text as the unstripped form (local_translator.py:104, 114).
   */
  lemma InjectStripped(sep: string, segs: seq<string>)
    requires ValidSeparator(sep) && segs != [] && AllSegments(sep, segs)
    ensures Inject(sep, Strip(Render(sep, segs))) == sep + CRLF + Join(segs, Replacement(Injection(sep)))
  {
    StrippedRender(sep, segs);
    InjectStrippedScan(sep, segs, Strip(Render(sep, segs)));
    var j := Join(segs, Replacement(Injection(sep)));
    JoinMarkedTrimmed(sep, segs);
    var h := sep + CRLF + j;
    HeadedTrimmed(sep, j);
    StripTrimmed(h);
  }

  // ---------------------------------------------------------------------------
  // Lemmas: article stripping (local_translator.py:68-73)

  /** What the model needs of `\w`: whitespace is not a word character, ASCII letters are. */
  ghost predicate WordTest(isWord: char -> bool) {
    (forall c :: IsSpace(c) ==> !isWord(c)) && (forall c :: ('a' <= c <= 'z' || 'A' <= c <= 'Z') ==> isWord(c))
  }

  /** `the`, `a` or `an` in any letter case. */
  predicate IsArticle(art: string) {
    (|art| == 3 && Fold(art[0]) == 't' && Fold(art[1]) == 'h' && Fold(art[2]) == 'e')
    || (|art| == 1 && Fold(art[0]) == 'a')
    || (|art| == 2 && Fold(art[0]) == 'a' && Fold(art[1]) == 'n')
  }

  predicate NoBreak(s: string) {
    '\r' !in s && '\n' !in s
  }

  /** A character that folds to a lower-case ASCII letter is that letter in one case or the other, or a non-ASCII letter. */
  lemma FoldToLetter(c: char, l: char)
    requires 'a' <= l <= 'z' && Fold(c) == l
    ensures !IsSpace(c)
    ensures l != 'i' && l != 's' && l != 'k' ==> 'a' <= c <= 'z' || 'A' <= c <= 'Z'
  {
  }

  /** Text an article alternative matches holds no whitespace. */
  lemma FoldedWord(s: string, a: nat, w: string)
    requires AtFold(s, a, w) && forall k | 0 <= k < |w| :: 'a' <= w[k] <= 'z'
    ensures forall q | a <= q < a + |w| :: !IsSpace(s[q])
  {
    forall q | a <= q < a + |w| ensures !IsSpace(s[q]) {
      assert Fold(s[a + (q - a)]) == Fold(w[q - a]);
      FoldToLetter(s[q], w[q - a]);
    }
  }

  /** The lookahead needs the end of the text or a line break. */
  lemma NoLookahead(s: string, q: nat)
    requires q < |s| && s[q] != '\r' && s[q] != '\n'
    ensures !Lookahead(s, q)
  {
  }

  /**
    An alternative matched at `a`, before the whitespace run `[m, n)` that ends at a
    non-space character, with no line break up to `n`, cannot reach the lookahead.
   */
  lemma NoArticleEnd(isWord: char -> bool, s: string, a: nat, m: nat, n: nat, w: string)
    requires a < m < n < |s| && !IsSpace(s[n]) && (forall q | m <= q < n :: IsSpace(s[q]))
    requires forall q | a <= q <= n :: s[q] != '\r' && s[q] != '\n'
    requires forall k | 0 <= k < |w| :: 'a' <= w[k] <= 'z'
    ensures ArticleEnd(isWord, s, a, w).None?
  {
    if AtFold(s, a, w) && Boundary(isWord, s, a + |w|) {
      var e := a + |w|;
      FoldedWord(s, a, w);
      assert IsSpace(s[m]);
      assert e <= m;
      LeadingSpaceBound(s[e..], n - e);
      var k := LeadingSpace(s[e..]);
      forall q | e <= q <= e + k ensures !Lookahead(s, q) {
        NoLookahead(s, q);
      }
      TrailingRunIs(s, e, k, TrailingRun(s, e, k));
    }
  }

  /** No alternative of the article group ends a match at `j`. */
  lemma NoArticleAt(isWord: char -> bool, s: string, j: nat, m: nat, n: nat)
    requires j < m < n < |s| && !IsSpace(s[m - 1]) && !IsSpace(s[n])
    requires forall q | m <= q < n :: IsSpace(s[q])
    requires forall q | j <= q <= n :: s[q] != '\r' && s[q] != '\n'
    ensures Match(Article(isWord), s, j).None?
  {
    assert s[j..][m - 1 - j] == s[m - 1];
    LeadingSpaceBound(s[j..], m - 1 - j);
    var a := SkipSpace(s, j);
    NoArticleEnd(isWord, s, a, m, n, "the");
    NoArticleEnd(isWord, s, a, m, n, "a");
    NoArticleEnd(isWord, s, a, m, n, "an");
    assert Alternatives(isWord, s, a).None?;
    assert ArticleMatch(isWord, s, j).None?;
  }

  /** No article match starts from `i` to the whitespace run `[m, n)` when nothing from `i` to `n` is a line break. */
  lemma NoArticleBefore(isWord: char -> bool, s: string, i: nat, m: nat, n: nat)
    requires i < m < n < |s| && !IsSpace(s[m - 1]) && !IsSpace(s[n])
    requires forall q | m <= q < n :: IsSpace(s[q])
    requires forall q | i <= q <= n :: s[q] != '\r' && s[q] != '\n'
    ensures Unmatched(Article(isWord), s, i, m)
  {
    forall j | i <= j < m ensures Match(Article(isWord), s, j).None? {
      NoArticleAt(isWord, s, j, m, n);
    }
  }

  /** `a`, then a character that is not a word character: `the` and `an` do not match there. */
  lemma ArticleIsA(isWord: char -> bool, s: string, a: nat, e: nat)
    requires WordTest(isWord) && a < |s| && Fold(s[a]) == 'a' && Boundary(isWord, s, a)
    requires a + 1 == |s| || !isWord(s[a + 1])
    requires e == a + 1
    ensures Alternatives(isWord, s, a) == ArticleTail(s, e)
  {
    assert Fold(s[a + 0]) != Fold("the"[0]);
    assert AtFold(s, a, "a");
    if a + 1 < |s| && Fold(s[a + 1]) == 'n' {
      FoldToLetter(s[a + 1], 'n');
      assert false;
    }
    assert a + 1 < |s| ==> Fold(s[a + 1]) != Fold("an"[1]);
  }

  /** `an`, then a character that is not a word character. */
  lemma ArticleIsAn(isWord: char -> bool, s: string, a: nat, e: nat)
    requires WordTest(isWord) && a + 1 < |s| && Fold(s[a]) == 'a' && Fold(s[a + 1]) == 'n' && Boundary(isWord, s, a)
    requires a + 2 == |s| || !isWord(s[a + 2])
    requires e == a + 2
    ensures Alternatives(isWord, s, a) == ArticleTail(s, e)
  {
    FoldToLetter(s[a + 1], 'n');
    assert Fold(s[a + 0]) != Fold("the"[0]);
    assert !Boundary(isWord, s, a + 1);
    assert Fold(s[a + 0]) == Fold("an"[0]) && Fold(s[a + 1]) == Fold("an"[1]);
  }

  /** `the`, then a character that is not a word character. */
  lemma ArticleIsThe(isWord: char -> bool, s: string, a: nat, e: nat)
    requires a + 2 < |s| && Fold(s[a]) == 't' && Fold(s[a + 1]) == 'h' && Fold(s[a + 2]) == 'e' && isWord(s[a + 2])
    requires a + 3 == |s| || !isWord(s[a + 3])
    requires e == a + 3
    ensures Alternatives(isWord, s, a) == ArticleTail(s, e)
  {
    assert Boundary(isWord, s, a + 3);
    assert AtFold(s, a, "the") by {
      assert Fold(s[a + 0]) == Fold("the"[0]) && Fold(s[a + 1]) == Fold("the"[1]) && Fold(s[a + 2]) == Fold("the"[2]);
    }
    assert ArticleEnd(isWord, s, a, "the") == ArticleTail(s, a + 3);
    assert !AtFold(s, a, "a") by { assert Fold(s[a + 0]) != Fold("a"[0]); }
    assert !AtFold(s, a, "an") by { assert Fold(s[a + 0]) != Fold("an"[0]); }
  }

  /**
    At an article word that starts a word and ends one, the pattern's group takes
    that word, after the alternatives that fail: `a` before `an` fails on `an`
    because `\b` does not hold between its letters.
   */
  lemma ArticleMatchIs(isWord: char -> bool, s: string, i: nat, a: nat, art: string)
    requires WordTest(isWord) && IsArticle(art) && i <= |s| && SkipSpace(s, i) == a
    requires At(s, a, art) && (a == 0 || !isWord(s[a - 1]))
    requires a + |art| == |s| || !isWord(s[a + |art|])
    ensures ArticleMatch(isWord, s, i) == ArticleTail(s, a + |art|)
  {
    AlternativesIs(isWord, s, a, art, a + |art|);
  }

  /** The article group at a word boundary before `art` takes `art`. */
  lemma AlternativesIs(isWord: char -> bool, s: string, a: nat, art: string, e: nat)
    requires WordTest(isWord) && IsArticle(art) && At(s, a, art) && (a == 0 || !isWord(s[a - 1]))
    requires e == a + |art| && (e == |s| || !isWord(s[e]))
    ensures ArticleWord(isWord, s, a) == ArticleTail(s, e)
  {
    assert s[a + 0] == art[0];
    FoldToLetter(art[0], Fold(art[0]));
    assert Boundary(isWord, s, a);
    if |art| == 1 {
      ArticleIsA(isWord, s, a, e);
    } else if |art| == 2 {
      assert s[a + 1] == art[1];
      ArticleIsAn(isWord, s, a, e);
    } else {
      assert s[a + 1] == art[1] && s[a + 2] == art[2];
      FoldToLetter(s[a + 2], 'e');
      ArticleIsThe(isWord, s, a, e);
    }
  }

  /** At the end of the text, the trailing `\s*` takes all the whitespace. */
  lemma TailAtEnd(s: string, e: nat)
    requires e <= |s| && forall q | e <= q < |s| :: IsSpace(s[q])
    ensures ArticleTail(s, e) == Some(|s|)
  {
    var t := s[e..];
    assert AllSpace(t[..|s| - e]) by {
      assert t[..|s| - e] == t;
      forall k | 0 <= k < |t| ensures IsSpace(t[k]) {
        assert t[k] == s[e + k];
      }
    }
    LeadingSpaceIs(t, |s| - e);
  }

  /** `TailAtEnd` after the article word `art` at `n`. */
  lemma TailAtEndAfter(s: string, n: nat, art: string)
    requires n + |art| <= |s| && forall q | n + |art| <= q < |s| :: IsSpace(s[q])
    ensures ArticleTail(s, n + |art|) == Some(|s|)
  {
    TailAtEnd(s, n + |art|);
  }

  /**
    Whitespace from `e` up to a `//////` line at `c`, whose line break before the
    slashes ends with a line feed and which a line break follows: `\n`, `\r\n` and
    doubled breaks alike.
   */
  predicate SlashLineAfter(s: string, e: nat, c: nat) {
    e < c && c + 6 <= |s| && (forall q | e <= q < c :: IsSpace(s[q])) && s[c - 1] == '\n'
    && SlashesAt(s, c) && LineBreakAt(s, c + 6)
  }

  /**
    Before a `//////` line, the greedy `\s*` gives back only the line feed just before
    the slashes: the rest of the whitespace goes with the article.
   */
  lemma TailBeforeSlashes(s: string, e: nat, c: nat)
    requires SlashLineAfter(s, e, c)
    ensures ArticleTail(s, e) == Some(c - 1)
  {
    var t := s[e..];
    var u := t[..c - e];
    assert AllSpace(u) by {
      forall k | 0 <= k < |u| ensures IsSpace(u[k]) {
        assert u[k] == s[e + k];
      }
    }
    assert t[c - e] == s[c];
    LeadingSpaceIs(t, c - e);
    assert !Lookahead(s, e + (c - e));
    assert Lookahead(s, e + (c - e - 1));
    assert TrailingRun(s, e, c - e) == Some(c - e - 1);
  }

  /** The whitespace before a `//////` line starts with a whitespace character. */
  lemma SlashRunStarts(s: string, e: nat, c: nat)
    requires SlashLineAfter(s, e, c)
    ensures e < |s| && IsSpace(s[e])
  {
  }

  /**
    At the whitespace run `[m, n)` before an article word at `n`, the match takes
    the run, the word and the trailing part.
   */
  lemma ArticleRunAt(isWord: char -> bool, s: string, m: nat, n: nat, art: string)
    requires WordTest(isWord) && IsArticle(art) && 0 < m < n && n + |art| <= |s| && At(s, n, art)
    requires forall q | m <= q < n :: IsSpace(s[q])
    requires n + |art| == |s| || IsSpace(s[n + |art|])
    ensures Match(Article(isWord), s, m) == ArticleTail(s, n + |art|)
  {
    assert s[n + 0] == art[0];
    FoldToLetter(art[0], Fold(art[0]));
    var t := s[m..];
    var u := t[..n - m];
    assert AllSpace(u) by {
      forall k | 0 <= k < |u| ensures IsSpace(u[k]) {
        assert u[k] == s[m + k];
      }
    }
    assert t[n - m] == s[n];
    LeadingSpaceIs(t, n - m);
    assert IsSpace(s[n - 1]);
    assert SkipSpace(s, m) == n;
    ArticleMatchIs(isWord, s, m, n, art);
  }

  /**
    The scan over text whose first line break, if any, comes after an article
    word at `n` preceded by the whitespace run `[m, n)`: it keeps what comes
    before `m`, drops the match and goes on where the trailing part ends.
   */
  lemma ArticleSubFromTail(isWord: char -> bool, s: string, i: nat, m: nat, n: nat, art: string, r: nat)
    requires WordTest(isWord) && IsArticle(art) && ArticleAfterRun(s, i, m, n, art)
    requires n + |art| == |s| || IsSpace(s[n + |art|])
    requires ArticleTail(s, n + |art|) == Some(r)
    ensures Sub(Article(isWord), s, i) == s[i..m] + Sub(Article(isWord), s, r)
  {
    assert !IsSpace(s[n]) by {
      assert s[n + 0] == art[0];
      FoldToLetter(art[0], Fold(art[0]));
    }
    NoArticleBefore(isWord, s, i, m, n);
    ArticleRunAt(isWord, s, m, n, art);
    assert Replacement(Article(isWord)) == [];
    SubFirstMatch(Article(isWord), s, i, m, r);
  }

  /**
    An article word at `n` after the whitespace run `[m, n)`, which follows a
    non-space character at or after `i`, with no line break from `i` on.
   */
  predicate ArticleAfterRun(s: string, i: nat, m: nat, n: nat, art: string) {
    i < m < n && n + |art| <= |s| && At(s, n, art)
    && !IsSpace(s[m - 1]) && (forall q | m <= q < n :: IsSpace(s[q]))
    && (forall q | i <= q < n :: s[q] != '\r' && s[q] != '\n')
  }

  /**
    An article word at the end of the text, after whitespace and possibly
    followed by whitespace, is removed with that whitespace; the scan from the
    start `i` of its line keeps the rest of the line.
   */
  lemma ArticleAtEnd(isWord: char -> bool, s: string, i: nat, m: nat, n: nat, art: string)
    requires WordTest(isWord) && IsArticle(art) && ArticleAfterRun(s, i, m, n, art)
    requires forall q | n + |art| <= q < |s| :: IsSpace(s[q])
    ensures Sub(Article(isWord), s, i) == s[i..m]
  {
    TailAtEndAfter(s, n, art);
    assert n + |art| == |s| || IsSpace(s[n + |art|]);
    ArticleSubFromTail(isWord, s, i, m, n, art, |s|);
    SubAtEnd(Article(isWord), s, s[i..m]);
  }

  /**
    An article word before a `//////` line, after whitespace, is removed with that
    whitespace and with the whitespace after it except the line feed just before the
    slashes; the scan from the start `i` of its line keeps the rest of the line and
    goes on from that line feed.
   */
  lemma ArticleBeforeSlashLine(isWord: char -> bool, s: string, i: nat, m: nat, n: nat, art: string, c: nat)
    requires WordTest(isWord) && IsArticle(art) && ArticleAfterRun(s, i, m, n, art) && SlashLineAfter(s, n + |art|, c)
    ensures Sub(Article(isWord), s, i) == s[i..m] + Sub(Article(isWord), s, c - 1)
  {
    var e := n + |art|;
    var r := c - 1;
    TailBeforeSlashes(s, e, c);
    SlashRunStarts(s, e, c);
    ArticleSubFromTail(isWord, s, i, m, n, art, r);
  }

  // ---------------------------------------------------------------------------
  // Lemmas: article stripping over a whole MORT text

  /** Where `seg` ends with `the`, `a` or `an` in any letter case: the start of that word, or `|seg|`. */
  function ArticleSuffix(seg: string): (n: nat)
    ensures n <= |seg| && (n < |seg| ==> IsArticle(seg[n..]))
  {
    if |seg| >= 3 && IsArticle(seg[|seg| - 3..]) then |seg| - 3
    else if |seg| >= 2 && IsArticle(seg[|seg| - 2..]) then |seg| - 2
    else if |seg| >= 1 && IsArticle(seg[|seg| - 1..]) then |seg| - 1
    else |seg|
  }

  /** At most one suffix of a text is an article word: the three words end in different letters. */
  lemma ArticleSuffixUnique(seg: string, a: nat)
    requires a < |seg|
    ensures IsArticle(seg[a..]) <==> a == ArticleSuffix(seg)
  {
    var t := seg[a..];
    if IsArticle(t) {
      assert t[|t| - 1] == seg[|seg| - 1];
      if |seg| >= 3 {
        assert seg[|seg| - 3..][2] == seg[|seg| - 1];
      }
      if |seg| >= 2 {
        assert seg[|seg| - 2..][1] == seg[|seg| - 1];
      }
      if |seg| >= 1 {
        assert seg[|seg| - 1..][0] == seg[|seg| - 1];
      }
    }
  }

  /**
    A line the article scan sees whole: non-empty, trimmed, without line breaks,
    and not itself an article word (the pattern's leading `\s*` would then reach back
    over the line break before it).
   */
  predicate PlainLine(seg: string) {
    seg != [] && Trimmed(seg) && NoBreak(seg) && !IsArticle(seg)
  }

  /**
    Where the scan cuts `seg`: before the whitespace ahead of a final article word that
    starts a word, or nowhere (`|seg|`).
   */
  function ArticleCut(isWord: char -> bool, seg: string): (m: nat)
    ensures m <= |seg|
  {
    var n := ArticleSuffix(seg);
    if 0 < n < |seg| && !isWord(seg[n - 1]) then n - TrailingSpace(seg[..n]) else |seg|
  }

  /**
    Inside a line `[a, h)` that ends at a non-space character, before the end of the
    text or before whitespace, an alternative `w` matched at `a` must end the line:
    the lookahead needs a line break or the end, and the whitespace before it cannot
    hold the line's last character.
   */
  lemma EndInLine(isWord: char -> bool, s: string, a: nat, h: nat, w: string)
    requires a < h <= |s| && !IsSpace(s[h - 1]) && (h == |s| || IsSpace(s[h]))
    requires forall q | a <= q < h :: s[q] != '\r' && s[q] != '\n'
    requires forall k | 0 <= k < |w| :: 'a' <= w[k] <= 'z'
    ensures ArticleEnd(isWord, s, a, w).Some? ==> a + |w| == h
  {
    if AtFold(s, a, w) && Boundary(isWord, s, a + |w|) {
      var e := a + |w|;
      FoldedWord(s, a, w);
      assert e <= h;
      var k := LeadingSpace(s[e..]);
      var r := TrailingRun(s, e, k);
      TrailingRunIs(s, e, k, r);
      if r.Some? {
        forall q | a <= q < h ensures !Lookahead(s, q) {
          NoLookahead(s, q);
        }
        assert h <= e + r.value;
        SpaceInRun(s, e, k, h - 1);
      }
    }
  }

  /** Every index of a whitespace run holds whitespace. */
  lemma SpaceInRun(s: string, e: nat, k: nat, q: nat)
    requires e <= |s| && k <= |s| - e && AllSpace(s[e..][..k])
    ensures e <= q < e + k ==> IsSpace(s[q])
  {
    if e <= q < e + k {
      assert s[e..][..k][q - e] == s[q];
    }
  }

  /** The article group matches inside such a line only on an article word that ends it. */
  lemma WordInLine(isWord: char -> bool, s: string, a: nat, h: nat)
    requires a < h <= |s| && !IsSpace(s[h - 1]) && (h == |s| || IsSpace(s[h]))
    requires forall q | a <= q < h :: s[q] != '\r' && s[q] != '\n'
    ensures ArticleWord(isWord, s, a).Some? ==> IsArticle(s[a..h])
  {
    EndInLine(isWord, s, a, h, "the");
    EndInLine(isWord, s, a, h, "a");
    EndInLine(isWord, s, a, h, "an");
    var t := s[a..h];
    if AtFold(s, a, "the") && a + 3 == h {
      assert Fold(t[0]) == Fold("the"[0]) && Fold(t[1]) == Fold("the"[1]) && Fold(t[2]) == Fold("the"[2]);
    }
    if AtFold(s, a, "a") && a + 1 == h {
      assert Fold(t[0]) == Fold("a"[0]);
    }
    if AtFold(s, a, "an") && a + 2 == h {
      assert Fold(t[0]) == Fold("an"[0]) && Fold(t[1]) == Fold("an"[1]);
    }
  }

  /** The plain line `s[lo..h]`, which the end of the text or whitespace follows. */
  ghost predicate LineAt(s: string, lo: nat, h: nat) {
    lo < h <= |s| && PlainLine(s[lo..h]) && (h == |s| || IsSpace(s[h]))
  }

  /** `LineAt` index by index. */
  lemma LineFacts(s: string, lo: nat, h: nat)
    requires LineAt(s, lo, h)
    ensures !IsSpace(s[lo]) && !IsSpace(s[h - 1]) && !IsArticle(s[lo..h])
    ensures forall q | lo <= q < h :: s[q] != '\r' && s[q] != '\n'
  {
    var seg := s[lo..h];
    assert seg[0] == s[lo] && seg[h - lo - 1] == s[h - 1];
    forall q | lo <= q < h ensures s[q] != '\r' && s[q] != '\n' {
      assert seg[q - lo] == s[q];
      assert s[q] in seg;
    }
  }

  /** An article word starts with an ASCII letter, a word character. */
  lemma ArticleLetter(isWord: char -> bool, s: string, a: nat, h: nat)
    requires WordTest(isWord) && a < h <= |s| && IsArticle(s[a..h])
    ensures isWord(s[a]) && !IsSpace(s[a])
  {
    assert s[a..h][0] == s[a];
    FoldToLetter(s[a], Fold(s[a]));
  }

  /** Inside a plain line, the scan matches at `j` only where `\s*` reaches the line's article word. */
  lemma MatchInLine(isWord: char -> bool, s: string, lo: nat, h: nat, j: nat)
    requires WordTest(isWord) && LineAt(s, lo, h) && lo <= j < h
    ensures Match(Article(isWord), s, j).Some? ==>
      SkipSpace(s, j) < h && IsArticle(s[SkipSpace(s, j)..h]) && Boundary(isWord, s, SkipSpace(s, j))
  {
    LineFacts(s, lo, h);
    LeadingSpaceBound(s[j..], h - 1 - j);
    WordInLine(isWord, s, SkipSpace(s, j), h);
  }

  /** A line without an article word the pattern can take: the scan copies it whole. */
  lemma LineKept(isWord: char -> bool, s: string, lo: nat, h: nat)
    requires WordTest(isWord) && LineAt(s, lo, h) && ArticleCut(isWord, s[lo..h]) == h - lo
    ensures Unmatched(Article(isWord), s, lo, h)
  {
    KeptFacts(isWord, s, lo, h);
    forall j | lo <= j < h ensures Match(Article(isWord), s, j).None? {
      MatchInLine(isWord, s, lo, h, j);
    }
  }

  /** In such a line, an article word that ends it does not start a word. */
  lemma KeptFacts(isWord: char -> bool, s: string, lo: nat, h: nat)
    requires WordTest(isWord) && LineAt(s, lo, h) && ArticleCut(isWord, s[lo..h]) == h - lo
    ensures forall a | lo <= a < h && IsArticle(s[a..h]) :: !Boundary(isWord, s, a)
  {
    var seg := s[lo..h];
    forall a | lo <= a < h && IsArticle(s[a..h]) ensures !Boundary(isWord, s, a) {
      assert seg[a - lo..] == s[a..h];
      KeptSuffix(isWord, seg, a - lo);
      ArticleLetter(isWord, s, a, h);
      assert seg[a - lo - 1] == s[a - 1];
    }
  }

  /** In a line `ArticleCut` keeps whole, a final article word follows a word character. */
  lemma KeptSuffix(isWord: char -> bool, seg: string, k: nat)
    requires PlainLine(seg) && ArticleCut(isWord, seg) == |seg| && k < |seg| && IsArticle(seg[k..])
    ensures 0 < k && isWord(seg[k - 1])
  {
    ArticleSuffixUnique(seg, k);
    assert seg[0..] == seg;
  }

  /** `ArticleCut` within the line: the whitespace run `[c, k)` before a final article word at `k` that starts a word. */
  lemma CutInLine(isWord: char -> bool, seg: string)
    requires PlainLine(seg) && ArticleCut(isWord, seg) < |seg|
    ensures var k := ArticleSuffix(seg); var c := ArticleCut(isWord, seg);
      0 < c <= k < |seg| && IsArticle(seg[k..]) && !isWord(seg[k - 1]) && !IsSpace(seg[c - 1])
      && forall q | c <= q < k :: IsSpace(seg[q])
  {
    var k := ArticleSuffix(seg);
    var t := TrailingSpace(seg[..k]);
    assert seg[..k][k - t - 1] == seg[k - t - 1];
    forall q | k - t <= q < k ensures IsSpace(seg[q]) {
      assert seg[..k][k - t..][q - (k - t)] == seg[q];
    }
  }

  /** `CutInLine` at the line's place in the text. */
  lemma CutFacts(isWord: char -> bool, s: string, lo: nat, h: nat) returns (m: nat, n: nat)
    requires LineAt(s, lo, h) && ArticleCut(isWord, s[lo..h]) < h - lo
    ensures m == lo + ArticleCut(isWord, s[lo..h]) && n == lo + ArticleSuffix(s[lo..h])
    ensures lo < m <= n < h && IsArticle(s[n..h]) && !isWord(s[n - 1]) && !IsSpace(s[m - 1])
    ensures forall q | m <= q < n :: IsSpace(s[q])
  {
    var seg := s[lo..h];
    CutInLine(isWord, seg);
    m, n := lo + ArticleCut(isWord, seg), lo + ArticleSuffix(seg);
    assert seg[n - lo..] == s[n..h];
    assert seg[n - lo - 1] == s[n - 1] && seg[m - lo - 1] == s[m - 1];
    forall q | m <= q < n ensures IsSpace(s[q]) {
      assert seg[q - lo] == s[q];
    }
  }

  /** The later of two suffixes ending at `h` that is an article word is the only one. */
  lemma OneArticleEnding(s: string, a: nat, n: nat, h: nat)
    requires a < n < h <= |s| && IsArticle(s[n..h])
    ensures !IsArticle(s[a..h])
  {
    assert s[n..h][h - n - 1] == s[h - 1];
    assert |s[a..h]| > 0 ==> s[a..h][h - a - 1] == s[h - 1];
  }

  /**
    A line with an article word at `n` that starts a word, after the whitespace run
    `[m, n)`: the scan copies the line up to `m`, and the match there runs on past the word.
   */
  lemma LineCut(isWord: char -> bool, s: string, lo: nat, h: nat, m: nat, n: nat)
    requires WordTest(isWord) && LineAt(s, lo, h) && lo < m <= n < h
    requires IsArticle(s[n..h]) && !isWord(s[n - 1]) && !IsSpace(s[m - 1])
    requires forall q | m <= q < n :: IsSpace(s[q])
    ensures Unmatched(Article(isWord), s, lo, m)
    ensures Match(Article(isWord), s, m) == ArticleTail(s, h)
  {
    LineCutUnmatched(isWord, s, lo, h, m, n);
    LineCutMatch(isWord, s, h, m, n);
  }

  /** No match starts on the line before the whitespace run. */
  lemma LineCutUnmatched(isWord: char -> bool, s: string, lo: nat, h: nat, m: nat, n: nat)
    requires WordTest(isWord) && LineAt(s, lo, h) && lo < m <= n < h
    requires IsArticle(s[n..h]) && !IsSpace(s[m - 1])
    ensures Unmatched(Article(isWord), s, lo, m)
  {
    forall j | lo <= j < m ensures Match(Article(isWord), s, j).None? {
      LeadingSpaceBound(s[j..], m - 1 - j);
      OneArticleEnding(s, SkipSpace(s, j), n, h);
      MatchInLine(isWord, s, lo, h, j);
    }
  }

  /** The match at the start of the whitespace run takes the article and runs on past it. */
  lemma LineCutMatch(isWord: char -> bool, s: string, h: nat, m: nat, n: nat)
    requires WordTest(isWord) && m <= n < h <= |s| && (h == |s| || IsSpace(s[h]))
    requires IsArticle(s[n..h]) && 0 < n && !isWord(s[n - 1])
    requires forall q | m <= q < n :: IsSpace(s[q])
    ensures Match(Article(isWord), s, m) == ArticleTail(s, h)
  {
    ArticleLetter(isWord, s, n, h);
    SkipTo(s, m, n);
    var art := s[n..h];
    assert At(s, n, art);
    ArticleMatchIs(isWord, s, m, n, art);
  }

  /** `\s*` from `j` stops at `a`. */
  lemma SkipTo(s: string, j: nat, a: nat)
    requires j <= a < |s| && !IsSpace(s[a]) && forall q | j <= q < a :: IsSpace(s[q])
    ensures SkipSpace(s, j) == a
  {
    var t := s[j..];
    var u := t[..a - j];
    assert AllSpace(u) by {
      forall k | 0 <= k < |u| ensures IsSpace(u[k]) {
        assert u[k] == s[j + k];
      }
    }
    assert t[a - j] == s[a];
    LeadingSpaceIs(t, a - j);
  }

  /** No article word starts with a slash. */
  lemma NoWordAtSlash(isWord: char -> bool, s: string, a: nat)
    requires a < |s| && s[a] == '/'
    ensures ArticleWord(isWord, s, a).None?
  {
    assert Fold(s[a + 0]) == '/';
    assert Fold("the"[0]) == 't' && Fold("a"[0]) == 'a' && Fold("an"[0]) == 'a';
    assert !AtFold(s, a, "the") && !AtFold(s, a, "a") && !AtFold(s, a, "an");
  }

  /** `////// CRLF` at `g`, then a plain line. */
  ghost predicate SlashLineAt(s: string, g: nat, h: nat) {
    SlashesAt(s, g) && g + 8 <= |s| && s[g + 6] == '\r' && s[g + 7] == '\n' && LineAt(s, g + 8, h)
  }

  /**
    The pattern matches nowhere on a `//////` line: the slashes start no word, and
    after them `\s*` reaches the next line, whose first word ends no match.
   */
  lemma SlashLineUnmatched(isWord: char -> bool, s: string, g: nat, h: nat)
    requires WordTest(isWord) && SlashLineAt(s, g, h)
    ensures Unmatched(Article(isWord), s, g, g + 8)
  {
    LineFacts(s, g + 8, h);
    CrlfSpace();
    forall j | g <= j < g + 8 ensures Match(Article(isWord), s, j).None? {
      if j < g + 6 {
        SkipTo(s, j, j);
        NoWordAtSlash(isWord, s, j);
      } else {
        SkipTo(s, j, g + 8);
        WordInLine(isWord, s, g + 8, h);
      }
    }
  }

  /** `CRLF ////// CRLF` at `h`, then a plain line. */
  ghost predicate GapAt(s: string, h: nat, h2: nat) {
    h + 2 <= |s| && s[h] == '\r' && s[h + 1] == '\n' && SlashLineAt(s, h + 2, h2)
  }

  /** Nor does it match on the line break before a `//////` line. */
  lemma GapUnmatched(isWord: char -> bool, s: string, h: nat, h2: nat, f: nat, g: nat)
    requires WordTest(isWord) && GapAt(s, h, h2) && f == h + 1 && g == h + 10
    ensures Unmatched(Article(isWord), s, h, g) && Unmatched(Article(isWord), s, f, g)
  {
    SlashLineUnmatched(isWord, s, h + 2, h2);
    CrlfSpace();
    forall j | h <= j < h + 2 ensures Match(Article(isWord), s, j).None? {
      SkipTo(s, j, h + 2);
      NoWordAtSlash(isWord, s, h + 2);
    }
  }

  /** The two spellings of the break and separator line the scan leaves between lines. */
  lemma GapLiterals()
    ensures Delimiter(SlashLine) == ['\r', '\n', '/', '/', '/', '/', '/', '/', '\r', '\n']
    ensures "\n" + SlashLine + CRLF == ['\n', '/', '/', '/', '/', '/', '/', '\r', '\n']
    ensures SlashLine + CRLF == ['/', '/', '/', '/', '/', '/', '\r', '\n']
  {
  }

  /** `GapAt` as text. */
  lemma GapText(s: string, h: nat, h2: nat, f: nat, g: nat)
    requires GapAt(s, h, h2) && f == h + 1 && g == h + 10
    ensures s[h..g] == Delimiter(SlashLine) && s[f..g] == "\n" + SlashLine + CRLF
  {
    GapLiterals();
    assert s[h..h + 10] == ['\r', '\n', '/', '/', '/', '/', '/', '/', '\r', '\n'];
    assert s[h + 1..h + 10] == ['\n', '/', '/', '/', '/', '/', '/', '\r', '\n'];
  }

  /**
    What the scan leaves of a line before a `//////` line: the line up to its cut and
    the line feed of the break, when it loses an article word, or the line and the
    whole `CRLF ////// CRLF`.
   */
  function KeptLine(isWord: char -> bool, seg: string): string {
    var c := ArticleCut(isWord, seg);
    if c < |seg| then seg[..c] + "\n" + SlashLine + CRLF else seg + Delimiter(SlashLine)
  }

  /** `Unmatched` over two adjacent ranges. */
  lemma UnmatchedJoin(p: Pattern, s: string, i: nat, j: nat, k: nat)
    requires i <= j <= k <= |s| && Usable(p) && Unmatched(p, s, i, j) && Unmatched(p, s, j, k)
    ensures Unmatched(p, s, i, k)
  {
  }

  /** Before a `//////` line, the trailing part of the match ends on the line feed ahead of the slashes. */
  lemma TailBeforeGap(s: string, h: nat, h2: nat, f: nat)
    requires GapAt(s, h, h2) && f == h + 1
    ensures ArticleTail(s, h) == Some(f)
  {
    CrlfSpace();
    TailBeforeSlashes(s, h, h + 2);
  }

  /** A scan that copies `[i, a)`, deletes the match `[a, f)` and copies `[f, g)`. */
  lemma CopyDropCopy(p: Pattern, s: string, i: nat, a: nat, f: nat, g: nat)
    requires i <= a < f <= g <= |s| && Usable(p) && Replacement(p) == []
    requires Unmatched(p, s, i, a) && Match(p, s, a) == Some(f) && Unmatched(p, s, f, g)
    ensures Sub(p, s, i) == s[i..a] + (s[f..g] + Sub(p, s, g))
  {
    SubFirstMatch(p, s, i, a, f);
    SubCopies(p, s, f, g);
  }

  /** Regrouping a scan's output: what it keeps first, then the rest of the scan. */
  lemma Regroup(x: string, a: string, b: string, rest: string, out: string)
    requires x == a + (b + rest) && out == a + b
    ensures x == out + rest
  {
  }

  /** `KeptLine` of a line cut at `m`, with the line feed before the slashes at `f`. */
  lemma CutKept(isWord: char -> bool, s: string, lo: nat, m: nat, h: nat, f: nat, g: nat)
    requires lo < m < h && f == h + 1 && g == h + 10 && g <= |s| && m - lo == ArticleCut(isWord, s[lo..h])
    requires s[f..g] == "\n" + SlashLine + CRLF
    ensures KeptLine(isWord, s[lo..h]) == s[lo..m] + s[f..g]
  {
    var seg := s[lo..h];
    var c := m - lo;
    KeptOfCut(isWord, seg, c);
    SliceOfSlice(s, lo, m, h);
    assert seg[..c] == s[lo..m];
  }

  lemma KeptOfCut(isWord: char -> bool, seg: string, c: nat)
    requires c == ArticleCut(isWord, seg) < |seg|
    ensures KeptLine(isWord, seg) == seg[..c] + ("\n" + SlashLine + CRLF)
  {
  }

  /** A line that loses its article word before a `//////` line, with the next line at `g`. */
  lemma CutLineThenGap(isWord: char -> bool, s: string, lo: nat, h: nat, h2: nat, f: nat, g: nat)
    requires WordTest(isWord) && LineAt(s, lo, h) && GapAt(s, h, h2) && ArticleCut(isWord, s[lo..h]) < h - lo
    requires f == h + 1 && g == h + 10
    ensures Sub(Article(isWord), s, lo) == KeptLine(isWord, s[lo..h]) + Sub(Article(isWord), s, g)
  {
    var p := Article(isWord);
    var m, n := CutFacts(isWord, s, lo, h);
    LineCut(isWord, s, lo, h, m, n);
    TailBeforeGap(s, h, h2, f);
    GapUnmatched(isWord, s, h, h2, f, g);
    CopyDropCopy(p, s, lo, m, f, g);
    GapText(s, h, h2, f, g);
    CutKept(isWord, s, lo, m, h, f, g);
    Regroup(Sub(p, s, lo), s[lo..m], s[f..g], Sub(p, s, g), KeptLine(isWord, s[lo..h]));
  }

  /** `KeptLine` of a line that keeps its words. */
  lemma WholeKept(isWord: char -> bool, s: string, lo: nat, h: nat, g: nat)
    requires lo < h <= g <= |s| && ArticleCut(isWord, s[lo..h]) == h - lo && s[h..g] == Delimiter(SlashLine)
    ensures KeptLine(isWord, s[lo..h]) == s[lo..g]
  {
    SliceSplit(s, lo, h, g);
  }

  /** A line that keeps its words before a `//////` line, with the next line at `g`. */
  lemma KeptLineThenGap(isWord: char -> bool, s: string, lo: nat, h: nat, h2: nat, f: nat, g: nat)
    requires WordTest(isWord) && LineAt(s, lo, h) && GapAt(s, h, h2) && ArticleCut(isWord, s[lo..h]) == h - lo
    requires f == h + 1 && g == h + 10
    ensures Sub(Article(isWord), s, lo) == KeptLine(isWord, s[lo..h]) + Sub(Article(isWord), s, g)
  {
    var p := Article(isWord);
    LineKept(isWord, s, lo, h);
    GapUnmatched(isWord, s, h, h2, f, g);
    UnmatchedJoin(p, s, lo, h, g);
    SubCopies(p, s, lo, g);
    GapText(s, h, h2, f, g);
    WholeKept(isWord, s, lo, h, g);
  }

  /** A scan that copies `[i, a)` and deletes a match from `a` to the end. */
  lemma CopyDropRest(p: Pattern, s: string, i: nat, a: nat)
    requires i <= a < |s| && Usable(p) && Replacement(p) == []
    requires Unmatched(p, s, i, a) && Match(p, s, a) == Some(|s|)
    ensures Sub(p, s, i) == s[i..a]
  {
    SubFirstMatch(p, s, i, a, |s|);
    SubAtEnd(p, s, s[i..a]);
  }

  /** The last line: it loses a final article word, with the whitespace before it. */
  lemma LastLine(isWord: char -> bool, s: string, lo: nat)
    requires WordTest(isWord) && LineAt(s, lo, |s|)
    ensures Sub(Article(isWord), s, lo) == s[lo..][..ArticleCut(isWord, s[lo..])]
  {
    var p := Article(isWord);
    assert s[lo..|s|] == s[lo..];
    if ArticleCut(isWord, s[lo..]) < |s| - lo {
      var m, n := CutFacts(isWord, s, lo, |s|);
      LineCut(isWord, s, lo, |s|, m, n);
      TailAtEnd(s, |s|);
      CopyDropRest(p, s, lo, m);
      SliceOfSlice(s, lo, m, |s|);
    } else {
      LineKept(isWord, s, lo, |s|);
      SubCopiesRest(p, s, lo);
    }
  }

  /** Every line is plain. */
  ghost predicate PlainLines(segs: seq<string>) {
    forall k | 0 <= k < |segs| :: PlainLine(segs[k])
  }

  /**
    The reference for the article pattern over lines joined by `CRLF ////// CRLF`:
    each line loses a final article word that starts a word, with the whitespace
    before it, and a line that loses one before a `//////` line also loses the
    carriage return of the break after it.
   */
  function Dearticled(isWord: char -> bool, segs: seq<string>): string
    requires segs != []
  {
    if |segs| == 1 then segs[0][..ArticleCut(isWord, segs[0])]
    else KeptLine(isWord, segs[0]) + Dearticled(isWord, segs[1..])
  }

  /** Where the first line of a join sits in the text. */
  lemma JoinLayout(s: string, lo: nat, segs: seq<string>, h: nat)
    requires segs != [] && lo <= |s| && s[lo..] == Join(segs, Delimiter(SlashLine)) && h == lo + |segs[0]|
    ensures h <= |s| && s[lo..h] == segs[0]
    ensures |segs| == 1 ==> h == |s|
    ensures |segs| > 1 ==> (h + 10 <= |s| && s[h..h + 10] == Delimiter(SlashLine)
                            && s[h + 10..] == Join(segs[1..], Delimiter(SlashLine)))
  {
    GapLiterals();
    var d := Delimiter(SlashLine);
    if |segs| > 1 {
      var t := s[lo..];
      assert t == segs[0] + d + Join(segs[1..], d);
      assert s[lo..h] == t[..|segs[0]|];
      assert s[h..h + 10] == t[|segs[0]|..|segs[0]| + 10];
      assert s[h + 10..] == t[|segs[0]| + 10..];
    }
  }

  /** `CRLF ////// CRLF` character by character. */
  lemma DelimiterChars(s: string, h: nat, g: nat)
    requires g == h + 10 <= |s| && s[h..g] == Delimiter(SlashLine)
    ensures s[h] == '\r' && s[h + 1] == '\n' && SlashesAt(s, h + 2) && s[h + 8] == '\r' && s[h + 9] == '\n'
  {
    GapLiterals();
    assert forall k | 0 <= k < 10 :: s[h + k] == s[h..g][k];
  }

  /** The facts the line steps need, from the layout of a join with at least two lines. */
  lemma StepFacts(s: string, lo: nat, segs: seq<string>, h: nat, g: nat, h2: nat)
    requires |segs| > 1 && PlainLines(segs) && lo <= |s| && s[lo..] == Join(segs, Delimiter(SlashLine))
    requires h == lo + |segs[0]| && g == h + 10 && h2 == g + |segs[1]|
    ensures LineAt(s, lo, h) && GapAt(s, h, h2) && s[lo..h] == segs[0]
    ensures g <= |s| && s[g..] == Join(segs[1..], Delimiter(SlashLine))
  {
    JoinLayout(s, lo, segs, h);
    JoinLayout(s, g, segs[1..], h2);
    DelimiterChars(s, h, g);
    assert PlainLine(segs[0]) && PlainLine(segs[1]);
    CrlfSpace();
    if |segs| > 2 {
      DelimiterChars(s, h2, h2 + 10);
    }
  }

  /** One line before a `//////` line: the scan leaves `KeptLine` and goes on with the next line. */
  lemma LineStep(isWord: char -> bool, s: string, lo: nat, h: nat, h2: nat, f: nat, g: nat)
    requires WordTest(isWord) && LineAt(s, lo, h) && GapAt(s, h, h2) && f == h + 1 && g == h + 10
    ensures Sub(Article(isWord), s, lo) == KeptLine(isWord, s[lo..h]) + Sub(Article(isWord), s, g)
  {
    if ArticleCut(isWord, s[lo..h]) < h - lo {
      CutLineThenGap(isWord, s, lo, h, h2, f, g);
    } else {
      KeptLineThenGap(isWord, s, lo, h, h2, f, g);
    }
  }

  /** The scan over lines joined by `CRLF ////// CRLF` leaves `Dearticled`. */
  lemma {:induction false} ArticlesFrom(isWord: char -> bool, s: string, lo: nat, segs: seq<string>)
    requires WordTest(isWord) && segs != [] && PlainLines(segs) && lo <= |s| && s[lo..] == Join(segs, Delimiter(SlashLine))
    ensures Sub(Article(isWord), s, lo) == Dearticled(isWord, segs)
    decreases |segs|
  {
    var h := lo + |segs[0]|;
    if |segs| == 1 {
      JoinLayout(s, lo, segs, h);
      assert PlainLine(segs[0]);
      LastLine(isWord, s, lo);
    } else {
      var g := h + 10;
      StepFacts(s, lo, segs, h, g, g + |segs[1]|);
      LineStep(isWord, s, lo, h, g + |segs[1]|, h + 1, g);
      assert PlainLines(segs[1..]) by {
        forall k | 0 <= k < |segs| - 1 ensures PlainLine(segs[1..][k]) {
          assert segs[1..][k] == segs[k + 1];
        }
      }
      ArticlesFrom(isWord, s, g, segs[1..]);
    }
  }

  /**
    The article pattern over a stripped MORT text with the `//////` separator, whose
    segments are plain lines: the opening separator line stays, and each segment loses
    a final article word that starts a word, with the whitespace before it.
   */
  lemma ArticlesOfMort(isWord: char -> bool, segs: seq<string>)
    requires WordTest(isWord) && segs != [] && PlainLines(segs)
    ensures Sub(Article(isWord), SlashLine + CRLF + Join(segs, Delimiter(SlashLine)), 0)
         == SlashLine + CRLF + Dearticled(isWord, segs)
  {
    var p := Article(isWord);
    var s := SlashLine + CRLF + Join(segs, Delimiter(SlashLine));
    GapLiterals();
    assert s[8..] == Join(segs, Delimiter(SlashLine));
    assert s[..8] == SlashLine + CRLF;
    HeadFacts(s, segs);
    SlashLineUnmatched(isWord, s, 0, 8 + |segs[0]|);
    SubCopies(p, s, 0, 8);
    ArticlesFrom(isWord, s, 8, segs);
  }

  /**
    The article step on a request text in MORT form with the default separator, after
    the request handler's `strip()` (local_translator.py:104, 113): each plain line
    ends up without its final article.
   */
  lemma ArticlesOfRendered(isWord: char -> bool, segs: seq<string>, target: string)
    requires WordTest(isWord) && segs != [] && PlainLines(segs) && !IsEnglish(target)
    ensures StripArticles(isWord, Strip(Render(DefaultSeparator, segs)), target)
         == DefaultSeparator + CRLF + Dearticled(isWord, segs)
  {
    var j := Join(segs, Delimiter(SlashLine));
    assert DefaultSeparator == SlashLine;
    assert forall k | 0 <= k < |segs| :: segs[k] != [] by {
      forall k | 0 <= k < |segs| ensures segs[k] != [] {
        assert PlainLine(segs[k]);
      }
    }
    assert PlainLine(segs[|segs| - 1]);
    JoinHead(segs, Delimiter(SlashLine));
    var h := SlashLine + CRLF + j;
    assert h[0] == '/' && h[|h| - 1] == j[|j| - 1];
    assert Trimmed(h);
    assert Render(DefaultSeparator, segs) == h + CRLF;
    StripLine(h);
    ArticlesOfMort(isWord, segs);
  }

  /** The opening `////// CRLF` of such a text, then its first line. */
  lemma HeadFacts(s: string, segs: seq<string>)
    requires segs != [] && PlainLines(segs) && |s| >= 8 && s[..8] == SlashLine + CRLF
    requires s[8..] == Join(segs, Delimiter(SlashLine))
    ensures SlashLineAt(s, 0, 8 + |segs[0]|)
  {
    GapLiterals();
    assert forall k | 0 <= k < 8 :: s[k] == s[..8][k];
    JoinLayout(s, 8, segs, 8 + |segs[0]|);
    assert PlainLine(segs[0]);
    CrlfSpace();
    if |segs| > 1 {
      DelimiterChars(s, 8 + |segs[0]|, 8 + |segs[0]| + 10);
    }
  }

  // ---------------------------------------------------------------------------
  // Lemmas: the prepared request (local_translator.py:104, 113-114)

  /** A line without its final article, as the article step leaves it. */
  function CutLine(isWord: char -> bool, seg: string): (r: string)
    ensures |r| <= |seg| && r == seg[..|r|]
  {
    seg[..ArticleCut(isWord, seg)]
  }

  /** The lines after the article step. */
  function CutLines(isWord: char -> bool, segs: seq<string>): (r: seq<string>)
    ensures |r| == |segs| && forall k | 0 <= k < |segs| :: r[k] == CutLine(isWord, segs[k])
  {
    seq(|segs|, k requires 0 <= k < |segs| => CutLine(isWord, segs[k]))
  }

  /** The line breaks around each `//////` line after the article step: a cut line leaves only a line feed before it. */
  function CutGaps(isWord: char -> bool, segs: seq<string>): (r: seq<(string, string)>)
    requires segs != []
    ensures |r| == |segs| - 1
    ensures forall k | 0 <= k < |r| :: r[k] == (GapBefore(isWord, segs[k]), CRLF)
  {
    seq(|segs| - 1, k requires 0 <= k < |segs| - 1 => (GapBefore(isWord, segs[k]), CRLF))
  }

  /** The line break `KeptLine` leaves before a `//////` line. */
  function GapBefore(isWord: char -> bool, seg: string): string {
    if ArticleCut(isWord, seg) < |seg| then "\n" else CRLF
  }

  /** A kept line is its cut line, then its line break, then the `//////` line. */
  lemma KeptLineSplits(isWord: char -> bool, seg: string)
    ensures KeptLine(isWord, seg) == CutLine(isWord, seg) + GapBefore(isWord, seg) + SlashLine + CRLF
  {
    if ArticleCut(isWord, seg) == |seg| {
      assert seg[..|seg|] == seg;
      assert seg + Delimiter(SlashLine) == seg + CRLF + SlashLine + CRLF;
    }
  }

  /** The article step's output is the cut lines spliced with those line breaks. */
  lemma {:induction false} DearticledSpliced(isWord: char -> bool, segs: seq<string>)
    requires segs != []
    ensures Dearticled(isWord, segs) == Spliced(SlashLine, CutLines(isWord, segs), CutGaps(isWord, segs))
    decreases |segs|
  {
    if |segs| > 1 {
      var pieces := CutLines(isWord, segs);
      var gaps := CutGaps(isWord, segs);
      DearticledSpliced(isWord, segs[1..]);
      assert pieces[1..] == CutLines(isWord, segs[1..]);
      assert gaps[1..] == CutGaps(isWord, segs[1..]);
      assert gaps[0] == (GapBefore(isWord, segs[0]), CRLF);
      KeptLineSplits(isWord, segs[0]);
    }
  }

  /** A prefix of a text without `p` is without `p` too. */
  lemma FreePrefix(s: string, c: nat, p: string)
    requires c <= |s| && Free(s, p)
    ensures Free(s[..c], p)
  {
    forall j ensures !At(s[..c], j, p) {
      assert !At(s, j, p);
    }
  }

  /** A plain MORT segment, cut, is still a MORT segment. */
  lemma CutLineSegment(isWord: char -> bool, sep: string, seg: string)
    requires PlainLine(seg) && IsSegment(sep, seg)
    ensures IsSegment(sep, CutLine(isWord, seg))
  {
    var c := ArticleCut(isWord, seg);
    if c < |seg| {
      CutInLine(isWord, seg);
      assert seg[..c][0] == seg[0];
    } else {
      assert seg[..c] == seg;
    }
    FreePrefix(seg, c, sep);
  }

  /** The cut lines and their line breaks have the shape the injection scan needs. */
  lemma CutShape(isWord: char -> bool, segs: seq<string>)
    requires segs != [] && PlainLines(segs) && AllSegments(SlashLine, segs)
    ensures SplicedShape(SlashLine, CutLines(isWord, segs), CutGaps(isWord, segs))
  {
    var pieces := CutLines(isWord, segs);
    forall k | 0 <= k < |segs| ensures IsSegment(SlashLine, pieces[k]) {
      assert PlainLine(segs[k]) && IsSegment(SlashLine, segs[k]);
      CutLineSegment(isWord, SlashLine, segs[k]);
    }
  }

  /** The first piece of a splice ends before a line break, or where the splice ends. */
  lemma SplicedFirstPiece(sep: string, h: string, q: nat, t: nat, pieces: seq<string>, gaps: seq<(string, string)>)
    requires SplicedShape(sep, pieces, gaps) && q <= t <= |h| && h[q..t] == Spliced(sep, pieces, gaps)
    requires t == |h| || IsSpace(h[t])
    ensures q + |pieces[0]| <= t && h[q..q + |pieces[0]|] == pieces[0]
    ensures q + |pieces[0]| == |h| || IsSpace(h[q + |pieces[0]|])
  {
    if gaps != [] {
      var b := gaps[0].0;
      assert BreakRun(b);
      var z := sep + gaps[0].1 + Spliced(sep, pieces[1..], gaps[1..]);
      assert h[q..t] == pieces[0] + b + z;
      PartAt(h, q, t, pieces[0], b, z);
      assert h[q + |pieces[0]|] == b[0];
    }
  }

  /** The scan over `SEP CRLF` and a splice from `q` to `t`: the opening line is kept and every gap is marked. */
  lemma InjectHeadedTo(sep: string, s: string, q: nat, t: nat, pieces: seq<string>, gaps: seq<(string, string)>)
    requires ValidSeparator(sep) && SplicedShape(sep, pieces, gaps) && q == |sep| + 2
    requires q <= t <= |s| && s[0..q] == sep + CRLF && s[q..t] == Spliced(sep, pieces, gaps)
    requires t == |s| || IsSpace(s[t])
    ensures Sub(Injection(sep), s, 0) == sep + CRLF + Join(pieces, Replacement(Injection(sep))) + Sub(Injection(sep), s, t)
  {
    var p := Injection(sep);
    PrefixAt(s, q, sep + CRLF);
    SplicedFirstPiece(sep, s, q, t, pieces, gaps);
    assert IsSegment(sep, pieces[0]);
    RenderHeadUnmatched(sep, s, pieces[0]);
    InjectSplicedFrom(sep, s, q, t, pieces, gaps);
    SubCopies(p, s, 0, q);
    Regroup(Sub(p, s, 0), sep + CRLF, Join(pieces, Replacement(p)), Sub(p, s, t), sep + CRLF + Join(pieces, Replacement(p)));
  }

  /** A text that starts with `x` has `x` at index 0. */
  lemma PrefixAt(s: string, q: nat, x: string)
    requires q <= |s| && s[0..q] == x
    ensures At(s, 0, x)
  {
    assert forall k | 0 <= k < q :: s[k] == s[0..q][k];
  }

  /** The same over a whole text `SEP CRLF` + splice. */
  lemma InjectHeaded(sep: string, h: string, pieces: seq<string>, gaps: seq<(string, string)>)
    requires ValidSeparator(sep) && SplicedShape(sep, pieces, gaps)
    requires h == sep + CRLF + Spliced(sep, pieces, gaps)
    ensures Sub(Injection(sep), h, 0) == sep + CRLF + Join(pieces, Replacement(Injection(sep)))
  {
    var q := |sep| + 2;
    assert h[0..q] == sep + CRLF && h[q..|h|] == Spliced(sep, pieces, gaps);
    InjectHeadedTo(sep, h, q, |h|, pieces, gaps);
    SubAtEnd(Injection(sep), h, sep + CRLF + Join(pieces, Replacement(Injection(sep))));
  }

  /**
    The text sent to the model for a MORT request with the default separator, whose
    segments are plain lines, to a non-English target: the opening `////// CRLF`, then
    each line without its final article, joined by the marked separator
    `~@\r\n\r\n//////\r\n@~`, whichever line break the article step left before it.
   */
  lemma PreparedMort(isWord: char -> bool, segs: seq<string>, target: string)
    requires WordTest(isWord) && segs != [] && PlainLines(segs) && AllSegments(DefaultSeparator, segs)
    requires !IsEnglish(target)
    ensures Inject(DefaultSeparator, StripArticles(isWord, Strip(Render(DefaultSeparator, segs)), target))
         == DefaultSeparator + CRLF + Join(CutLines(isWord, segs), Replacement(Injection(DefaultSeparator)))
  {
    var sep := DefaultSeparator;
    assert sep == SlashLine;
    DefaultSeparatorValid();
    ArticlesOfRendered(isWord, segs, target);
    DearticledSpliced(isWord, segs);
    CutShape(isWord, segs);
    var pieces := CutLines(isWord, segs);
    InjectHeaded(sep, sep + CRLF + Dearticled(isWord, segs), pieces, CutGaps(isWord, segs));
    var j := Join(pieces, Replacement(Injection(sep)));
    JoinMarkedTrimmed(sep, pieces);
    var h := sep + CRLF + j;
    HeadedTrimmed(sep, j);
    StripTrimmed(h);
  }

  // ---------------------------------------------------------------------------
  // Lemmas: the variant repair and the returned text (local_translator.py:51-57, 147)

  /**
    The variant repair renders MORT: empty, or `SEP CRLF` first and `CRLF` last with no
    trailing separator line; its segments are non-empty, trimmed and separator-free,
    and reading them back gives them again.
   */
  lemma VariantRepairShape(sep: string, text: string)
    requires ValidSeparator(sep)
    ensures AllSegments(sep, Segments(sep, Collapsed(sep, text)))
    ensures VariantRepair(sep, text) == [] ||
      (StartsWith(VariantRepair(sep, text), sep + CRLF) && EndsWith(VariantRepair(sep, text), CRLF)
       && !EndsWith(VariantRepair(sep, text), Delimiter(sep)))
    ensures ExtractSegments(sep, VariantRepair(sep, text)) == Segments(sep, Collapsed(sep, text))
  {
    var segs := Segments(sep, Collapsed(sep, text));
    SegmentsAreSegments(sep, Collapsed(sep, text));
    if segs != [] {
      RenderShape(sep, segs);
    }
    ExtractRendered(sep, segs);
  }

  /** One repetition of `SEP\s*` in the run scan. */
  lemma SepRunStep(sep: string, fold: bool, s: string, i: nat, k: nat)
    requires |sep| > 0 && i <= |s| && SepAt(sep, fold, s, i)
    requires i + |sep| <= |s| && SkipSpace(s, i + |sep|) == k
    ensures k <= |s| && SepRunScan(sep, fold, s, i) == (SepRunScan(sep, fold, s, k).0 + 1, SepRunScan(sep, fold, s, k).1)
  {
  }

  /**
    Two separators with only whitespace between them start a run: the scan replaces
    the whole run, up to at least the second separator, by one `SEP CRLF`
    (local_translator.py:55 and :65).
   */
  lemma SepRunCollapses(sep: string, fold: bool, s: string, i: nat, j: nat)
    requires ValidSeparator(sep) && i + |sep| <= j <= |s|
    requires SepAt(sep, fold, s, i) && SepAt(sep, fold, s, j) && !IsSpace(s[j])
    requires forall q | i + |sep| <= q < j :: IsSpace(s[q])
    ensures Match(SepRun(sep, fold), s, i).Some? && j + |sep| <= Match(SepRun(sep, fold), s, i).value
    ensures Sub(SepRun(sep, fold), s, i) == sep + CRLF + Sub(SepRun(sep, fold), s, Match(SepRun(sep, fold), s, i).value)
  {
    var t := s[i + |sep|..];
    var w := t[..j - i - |sep|];
    forall q | 0 <= q < |w| ensures IsSpace(w[q]) {
      assert w[q] == s[i + |sep| + q];
    }
    assert t[j - i - |sep|] == s[j];
    LeadingSpaceIs(t, j - i - |sep|);
    assert SkipSpace(s, i + |sep|) == j;
    SepRunStep(sep, fold, s, i, j);
    SepRunStep(sep, fold, s, j, SkipSpace(s, j + |sep|));
    SubSome(SepRun(sep, fold), s, i, Match(SepRun(sep, fold), s, i).value);
  }

  /** A separator not followed, after whitespace, by another is not a run, and the scan copies it on. */
  lemma SepRunSingle(sep: string, fold: bool, s: string, i: nat)
    requires ValidSeparator(sep) && i < |s|
    requires SepAt(sep, fold, s, i) && !SepAt(sep, fold, s, SkipSpace(s, i + |sep|))
    ensures Match(SepRun(sep, fold), s, i).None?
    ensures Sub(SepRun(sep, fold), s, i) == [s[i]] + Sub(SepRun(sep, fold), s, i + 1)
  {
    var k := SkipSpace(s, i + |sep|);
    assert SepRunScan(sep, fold, s, k) == (0, k);
    SubNone(SepRun(sep, fold), s, i);
  }

  /** `lstrip(chars)` goes through a prefix made of `chars`. */
  lemma {:induction false} LStripCharsSkip(p: string, rest: string, chars: string)
    requires forall k | 0 <= k < |p| :: p[k] in chars
    ensures LStripChars(p + rest, chars) == LStripChars(rest, chars)
    decreases |p|
  {
    if p == [] {
      assert p + rest == rest;
    } else {
      assert (p + rest)[0] == p[0];
      assert (p + rest)[1..] == p[1..] + rest;
      LStripCharsSkip(p[1..], rest, chars);
    }
  }

  /** `lstrip(chars)` drops a prefix made of `chars` and stops at the first character outside them. */
  lemma LStripCharsPrefix(p: string, rest: string, chars: string)
    requires forall k | 0 <= k < |p| :: p[k] in chars
    requires rest == [] || rest[0] !in chars
    ensures LStripChars(p + rest, chars) == rest
  {
    LStripCharsSkip(p, rest, chars);
  }

  /** Every character of `chars` is in `chars`. */
  lemma SelfMembers(chars: string)
    ensures forall k | 0 <= k < |chars| :: chars[k] in chars
  {
  }

  /** `strip()` of a trimmed line with its line break. */
  lemma StripLine(h: string)
    requires Trimmed(h)
    ensures Strip(h + CRLF) == h
  {
    StripPadded("", h, CRLF);
    assert "" + h + CRLF == h + CRLF;
  }

  /**
    The returned text is the segments joined by separator lines, without the leading
    separator line and the final line break, when the first segment does not itself
    start with a character of `SEP CRLF` (local_translator.py:147).
   */
  lemma FinalTextJoins(sep: string, cleaned: string)
    requires ValidSeparator(sep)
    requires Segments(sep, Collapsed(sep, cleaned)) != []
    requires Segments(sep, Collapsed(sep, cleaned))[0][0] !in sep + CRLF
    ensures FinalText(sep, cleaned) == Join(Segments(sep, Collapsed(sep, cleaned)), Delimiter(sep))
  {
    SegmentsAreSegments(sep, Collapsed(sep, cleaned));
    FinalOfRender(sep, Segments(sep, Collapsed(sep, cleaned)));
  }

  lemma FinalOfRender(sep: string, segs: seq<string>)
    requires ValidSeparator(sep) && segs != [] && AllSegments(sep, segs) && segs[0][0] !in sep + CRLF
    ensures Strip(LStripChars(Render(sep, segs), sep + CRLF)) == Join(segs, Delimiter(sep))
  {
    var j := Join(segs, Delimiter(sep));
    JoinTrimmed(sep, segs);
    JoinHead(segs, Delimiter(sep));
    assert Render(sep, segs) == (sep + CRLF) + (j + CRLF);
    StripSetThenLine(sep + CRLF, j);
  }

  lemma StripSetThenLine(chars: string, j: string)
    requires j != [] && Trimmed(j) && j[0] !in chars
    ensures Strip(LStripChars(chars + (j + CRLF), chars)) == j
  {
    SelfMembers(chars);
    assert (j + CRLF)[0] == j[0];
    LStripCharsPrefix(chars, j + CRLF, chars);
    StripLine(j);
  }

  /** `"/help"` has no separator run and is one segment. */
  lemma CollapsedHelp(t: string)
    requires t == "/help"
    ensures Segments(DefaultSeparator, Collapsed(DefaultSeparator, t)) == [t]
  {
    DefaultSeparatorValid();
    FreeOfFirst(t, "\n");
    NormalizeNoLf(t);
    StripTrimmed(t);
    assert Unmatched(SepRun(DefaultSeparator, true), t, 0, |t|);
    SubCopiesRest(SepRun(DefaultSeparator, true), t, 0);
    assert IsSegment(DefaultSeparator, t);
    SegmentsOfOne(DefaultSeparator, "", t, "");
    assert "" + t + "" == t;
  }

  /**
    The final `lstrip` takes `SEP CRLF` as a set of characters: when the only
    segment starts with characters of that set, they are dropped with the separator
    line (local_translator.py:147).
   */
  lemma FinalStripsCharSet(sep: string, t: string, p: string, h: string)
    requires ValidSeparator(sep) && Segments(sep, Collapsed(sep, t)) == [t]
    requires t == p + h && forall k | 0 <= k < |p| :: p[k] in sep + CRLF
    requires h != [] && Trimmed(h) && h[0] !in sep + CRLF
    ensures FinalText(sep, t) == h
  {
    RenderOne(sep, t);
    StripSetPrefixThen(sep + CRLF, p, h);
  }

  lemma RenderOne(sep: string, t: string)
    ensures Render(sep, [t]) == (sep + CRLF) + (t + CRLF)
  {
    assert Join([t], Delimiter(sep)) == t;
  }

  /** `lstrip(chars)` then `strip()` of `chars p h CRLF` is `h` when `p` is made of `chars` and `h` starts outside them. */
  lemma StripSetPrefixThen(chars: string, p: string, h: string)
    requires forall k | 0 <= k < |p| :: p[k] in chars
    requires h != [] && Trimmed(h) && h[0] !in chars
    ensures Strip(LStripChars(chars + ((p + h) + CRLF), chars)) == h
  {
    SelfMembers(chars);
    LStripCharsSkip(chars, (p + h) + CRLF, chars);
    assert (p + h) + CRLF == p + (h + CRLF);
    assert (h + CRLF)[0] == h[0];
    LStripCharsPrefix(p, h + CRLF, chars);
    StripLine(h);
  }

  /** A reply whose only segment is `/help` comes back as `help`. */
  lemma FinalDropsLeadingSlash(t: string)
    requires t == "/help"
    ensures FinalText(DefaultSeparator, t) == "help"
  {
    DefaultSeparatorValid();
    CollapsedHelp(t);
    HelpPieces(t, "/", "help");
    FinalStripsCharSet(DefaultSeparator, t, "/", "help");
  }

  lemma HelpPieces(t: string, p: string, h: string)
    requires t == "/help" && p == "/" && h == "help"
    ensures t == p + h && forall k | 0 <= k < |p| :: p[k] in DefaultSeparator + CRLF
    ensures h != [] && Trimmed(h) && h[0] !in DefaultSeparator + CRLF
  {
    assert (DefaultSeparator + CRLF)[0] == '/';
    assert p[0] == '/';
  }

  // ---------------------------------------------------------------------------
  // Lemmas: the reply after the context (local_translator.py:141-144)

  /** The first `~@` of `x ~@ y` is the one after `x` when `x` has none of its own. */
  lemma FindMarkerAfter(x: string, y: string)
    requires Free(x, "~@")
    ensures Find(x + "~@" + y, "~@") == |x|
  {
    var s := x + "~@" + y;
    assert s == x + ("~@" + y);
    assert At(s, |x|, "~@");
    forall j | 0 <= j < |x| ensures !At(s, j, "~@") {
      if j + 2 <= |x| {
        AtLeftIff(x, "~@" + y, j, "~@");
      } else {
        assert s[j + 1] != "~@"[1];
      }
    }
    FindIs(s, "~@", |x|);
  }

  /** With a context, only the trimmed text after the first `~@` of the reply is kept. */
  lemma AfterMarkerOf(x: string, y: string)
    requires Free(x, "~@")
    ensures AfterMarker(x + "~@" + y) == Strip(y)
  {
    FindMarkerAfter(x, y);
    var s := x + "~@" + y;
    assert s[|x| + 2..] == y;
  }

  /** A reply without `~@` is kept whole. */
  lemma AfterNoMarker(t: string)
    requires Free(t, "~@")
    ensures AfterMarker(t) == t
  {
  }

  /** `"some leaked context ~@ Bonjour"` becomes `"Bonjour"`. */
  lemma LeakedContext(t: string)
    requires t == "some leaked context ~@ Bonjour"
    ensures AfterMarker(t) == "Bonjour"
  {
    LeakedSplit(t, " Bonjour");
    BonjourStripped(" Bonjour");
  }

  lemma LeakedSplit(t: string, y: string)
    requires t == "some leaked context ~@ Bonjour" && y == " Bonjour"
    ensures AfterMarker(t) == Strip(y)
  {
    var x := "some leaked context ";
    LeakedPrefix(x);
    assert t == x + "~@" + y;
    AfterMarkerOf(x, y);
  }

  lemma BonjourStripped(y: string)
    requires y == " Bonjour"
    ensures Strip(y) == "Bonjour"
  {
    StripPadded(" ", "Bonjour", "");
    assert " " + "Bonjour" + "" == y;
  }

  lemma LeakedPrefix(x: string)
    requires x == "some leaked context "
    ensures Free(x, "~@")
  {
    forall k | 0 <= k < |x| ensures x[k] != '~' {
    }
    FreeOfFirst(x, "~@");
  }

  // ---------------------------------------------------------------------------
  // Lemmas: context selection (local_translator.py:105-111)

  /** No proper suffix of the tag is a prefix of it: only its first character is `P`. */
  lemma TagNoBorder()
    ensures forall k | 0 < k < |ContextTag| :: ContextTag[k] != 'P'
  {
  }

  lemma FindTagAfter(x: string, y: string)
    requires Free(x, ContextTag)
    ensures Find(x + ContextTag + y, ContextTag) == |x|
  {
    var s := x + ContextTag + y;
    assert s == x + (ContextTag + y);
    assert At(s, |x|, ContextTag);
    TagNoBorder();
    forall j | 0 <= j < |x| ensures !At(s, j, ContextTag) {
      if j + |ContextTag| <= |x| {
        AtLeftIff(x, ContextTag + y, j, ContextTag);
      } else {
        assert s[j + (|x| - j)] == 'P';
        assert ContextTag[|x| - j] != 'P';
      }
    }
    FindIs(s, ContextTag, |x|);
  }

  /**
    With context enabled and the tag present, the context is the trimmed text before
    the first tag and the text to translate the trimmed rest, whatever the slot holds.
   */
  lemma ContextBeforeTag(slot: string, x: string, y: string)
    requires Free(x, ContextTag)
    ensures SelectContext(true, slot, x + ContextTag + y) == Selected(Strip(x), Strip(y))
  {
    FindTagAfter(x, y);
    var s := x + ContextTag + y;
    assert s[..|x|] == x && s[|x| + |ContextTag|..] == y;
  }

  /** With context enabled and no tag, the context is the slot (possibly empty) and the text is kept. */
  lemma ContextFromSlot(slot: string, t: string)
    requires Free(t, ContextTag)
    ensures SelectContext(true, slot, t) == Selected(slot, t)
  {
  }

  // ---------------------------------------------------------------------------
  // Lemmas: the context slot (local_translator.py:119-122)

  lemma AtShift(s: string, m: nat, j: int, p: string)
    requires m <= |s|
    ensures At(s[m..], j, p) <==> (0 <= j && At(s, m + j, p))
  {
  }

  /** The separator occurs at `k`, and at no later index nor overlapping it from the left. */
  ghost predicate LastAt(s: string, sep: string, k: nat) {
    At(s, k, sep) && forall j: int | k - |sep| < j && j != k :: !At(s, j, sep)
  }

  /** The last piece of `split(sep)` is what follows the last, non-overlapped separator. */
  lemma {:induction false} SplitLast(s: string, sep: string, k: nat)
    requires |sep| > 0 && LastAt(s, sep, k)
    ensures LastPiece(Split(s, sep)) == s[k + |sep|..]
    decreases |s|
  {
    var i := Find(s, sep);
    assert 0 <= i <= k;
    var t := s[i + |sep|..];
    SplitAt(s, sep, i);
    LastOfCons(s[..i], Split(t, sep));
    if i == k {
      SplitRest(s, sep, k);
    } else {
      var j := ShiftedLast(s, sep, i, k, t);
      SplitLast(t, sep, j);
    }
  }

  lemma LastOfCons(a: string, rest: seq<string>)
    requires |rest| > 0
    ensures LastPiece([a] + rest) == LastPiece(rest)
  {
  }

  /** After the last separator there is no separator. */
  lemma SplitRest(s: string, sep: string, k: nat)
    requires |sep| > 0 && LastAt(s, sep, k)
    ensures Split(s[k + |sep|..], sep) == [s[k + |sep|..]]
  {
    var t := s[k + |sep|..];
    forall j ensures !At(t, j, sep) {
      AtShift(s, k + |sep|, j, sep);
    }
    SplitNone(t, sep);
  }

  /** `LastAt` holds of the text after an earlier separator at `i`, at the shifted index `j`. */
  lemma ShiftedLast(s: string, sep: string, i: nat, k: nat, t: string) returns (j: nat)
    requires |sep| > 0 && LastAt(s, sep, k) && i < k && At(s, i, sep) && t == s[i + |sep|..]
    ensures j < |t| && LastAt(t, sep, j) && t[j + |sep|..] == s[k + |sep|..]
  {
    j := k - i - |sep|;
    AtShift(s, i + |sep|, j, sep);
    forall q: int | j - |sep| < q && q != j ensures !At(t, q, sep) {
      AtShift(s, i + |sep|, q, sep);
    }
  }

  /** A marker-free piece followed by the closing `~@` loses the marker and nothing else. */
  lemma MarkersGone(y: string)
    requires '~' !in y && '@' !in y
    ensures Replace(Replace(y + "~@", "~@", ""), "@~", "") == y
  {
    var s := y + "~@";
    assert At(s, |y|, "~@");
    forall j | 0 <= j < |y| ensures !At(s, j, "~@") {
      assert s[j + 0] == y[j] && s[j + 0] != "~@"[0];
    }
    FindIs(s, "~@", |y|);
    ReplaceAt(s, "~@", "", |y|);
    assert s[..|y|] == y && s[|y| + 2..] == [];
    assert Replace(s, "~@", "") == y;
    FreeOfFirst(y, "@~");
  }

  /**
    The slot becomes the text after the last separator of the injected text, trimmed,
    with the closing `~@` removed.
   */
  lemma SlotIsLastPiece(sep: string, x: string, y: string)
    requires ValidSeparator(sep) && '~' !in y && '@' !in y
    requires LastAt(x + sep + y + "~@", sep, |x|)
    ensures SlotOf(sep, x + sep + y + "~@") == Strip(y)
  {
    var s := x + sep + y + "~@";
    assert s[|x| + |sep|..] == y + "~@";
    SlotAfter(sep, s, |x|, y);
  }

  lemma SlotAfter(sep: string, s: string, k: nat, y: string)
    requires ValidSeparator(sep) && '~' !in y && '@' !in y
    requires LastAt(s, sep, k) && s[k + |sep|..] == y + "~@"
    ensures SlotOf(sep, s) == Strip(y)
  {
    SplitLast(s, sep, k);
    var last := LastPiece(Split(s, sep));
    assert last == y + "~@";
    MarkersGone(y);
    assert Replace(Replace(last, "~@", ""), "@~", "") == y;
  }

  /** A marker-free text in which the separator does not occur is the slot whole, trimmed. */
  lemma SlotOfPlain(sep: string, y: string)
    requires ValidSeparator(sep) && Free(y, sep) && '~' !in y && '@' !in y
    ensures SlotOf(sep, y + "~@") == Strip(y)
  {
    var s := y + "~@";
    forall j: int ensures !At(s, j, sep) {
      if 0 <= j && j + |sep| <= |s| {
        if j + |sep| <= |y| {
          AtLeftIff(y, "~@", j, sep);
        } else {
          var q := if j <= |y| then |y| else j;
          assert s[q] in "~@";
          assert q - j < |sep| && s[j + (q - j)] == s[q];
          assert sep[q - j] in "~@" ==> !At(s, j, sep);
        }
      }
    }
    SplitNone(s, sep);
    MarkersGone(y);
  }

  /** The marked last piece `CRLF @~ z ~@` loses both markers and keeps its line break. */
  lemma MarkedTailGone(z: string)
    requires '~' !in z && '@' !in z
    ensures Replace(Replace(CRLF + "@~" + z + "~@", "~@", ""), "@~", "") == CRLF + z
  {
    ClosingGone(z);
    OpeningGone(z);
  }

  /** The closing `~@` is the first one in `CRLF @~ z ~@`. */
  lemma ClosingGone(z: string)
    requires '~' !in z && '@' !in z
    ensures Replace(CRLF + "@~" + z + "~@", "~@", "") == CRLF + "@~" + z
  {
    var s := CRLF + "@~" + z + "~@";
    var e := |z| + 4;
    assert s[0] == '\r' && s[1] == '\n' && s[2] == '@' && s[3] == '~';
    assert s[4] == (if z == [] then '~' else z[0]);
    assert forall j | 4 <= j < e :: s[j] == z[j - 4];
    assert s[e] == '~' && s[e + 1] == '@';
    FindIs(s, "~@", e);
    ReplaceAt(s, "~@", "", e);
    assert s[..e] == CRLF + "@~" + z && s[e + 2..] == [];
    assert Replace(s[e + 2..], "~@", "") == [];
  }

  /** The opening `@~` is the only one in `CRLF @~ z`. */
  lemma OpeningGone(z: string)
    requires '@' !in z
    ensures Replace(CRLF + "@~" + z, "@~", "") == CRLF + z
  {
    var t := CRLF + "@~" + z;
    assert t[0] == '\r' && t[1] == '\n' && t[2] == '@' && t[3] == '~';
    FindIs(t, "@~", 2);
    ReplaceAt(t, "@~", "", 2);
    assert t[..2] == CRLF && t[4..] == z;
    FreeOfFirst(z, "@~");
    assert Replace(z, "@~", "") == z;
  }

  /**
    When the last separator is followed by a marked piece `CRLF @~ z ~@`, as the injection
    leaves the last segment of a request with two or more, the slot is `z`, trimmed.
   */
  lemma SlotOfMarkedTail(sep: string, x: string, z: string)
    requires ValidSeparator(sep) && '~' !in z && '@' !in z
    requires LastAt(x + sep + CRLF + "@~" + z + "~@", sep, |x|)
    ensures SlotOf(sep, x + sep + CRLF + "@~" + z + "~@") == Strip(z)
  {
    var s := x + sep + CRLF + "@~" + z + "~@";
    assert s[|x| + |sep|..] == CRLF + "@~" + z + "~@";
    SlotAfterMarked(sep, s, |x|, z);
  }

  lemma SlotAfterMarked(sep: string, s: string, k: nat, z: string)
    requires ValidSeparator(sep) && '~' !in z && '@' !in z
    requires LastAt(s, sep, k) && s[k + |sep|..] == CRLF + "@~" + z + "~@"
    ensures SlotOf(sep, s) == Strip(z)
  {
    SplitLast(s, sep, k);
    MarkedTailGone(z);
    CrlfSpace();
    StripLeadSpace(CRLF, z);
  }

  /** An occurrence of `//////` covers only `/` characters. */
  lemma SlashesOver(s: string, j: int, q: nat)
    requires j <= q < j + 6
    ensures At(s, j, SlashLine) ==> s[q] == '/'
  {
    if At(s, j, SlashLine) {
      assert s[j + (q - j)] == SlashLine[q - j];
    }
  }

  /** A `//////` line after a line feed, followed by a marked piece free of it, is the last separator. */
  lemma MarkedTailLastAt(s: string, k: nat, z: string)
    requires 0 < k && k + 6 <= |s| && s[k - 1] == '\n' && s[k..k + 6] == SlashLine
    requires s[k + 6..] == CRLF + "@~" + z + "~@" && Free(z, SlashLine) && '~' !in z && '@' !in z
    ensures LastAt(s, SlashLine, k)
  {
    var a := k + 6;
    assert s[a] == '\r' && s[a + 1] == '\n' && s[a + 2] == '@' && s[a + 3] == '~';
    assert forall q | a + 4 <= q < a + 4 + |z| :: s[q] == z[q - a - 4];
    assert forall q | a + 4 + |z| <= q < |s| :: s[q] in "~@";
    forall j: int | k - 6 < j && j != k ensures !At(s, j, SlashLine) {
      if j < k {
        SlashesOver(s, j, k - 1);
      } else if j <= a {
        SlashesOver(s, j, a);
      } else if j < a + 4 {
        SlashesOver(s, j, j);
      } else if j + 6 <= a + 4 + |z| {
        if At(s, j, SlashLine) {
          forall i | 0 <= i < 6 ensures z[j - a - 4 + i] == SlashLine[i] {
            assert s[j + i] == z[j - a - 4 + i];
          }
          assert At(z, j - a - 4, SlashLine);
        }
      } else if j + 6 <= |s| {
        SlashesOver(s, j, j + 5);
      }
    }
    assert At(s, k, SlashLine) by {
      forall i | 0 <= i < 6 ensures s[k + i] == SlashLine[i] {
        assert s[k..k + 6][i] == s[k + i];
      }
    }
  }

  /**
    Stripping leading separator characters and then whitespace cannot pass a `~`: the
    text after the sixth-to-last character of `x` is kept, and so is its last character.
   */
  lemma FramedKeepsTail(x: string, w: string, chars: string) returns (y: string)
    requires 6 <= |x| && x[|x| - 6] == '~' && '~' !in chars && w != [] && !IsSpace(w[|w| - 1])
    ensures Strip(LStripChars(x + w, chars)) == y + w && 0 < |y| && y[|y| - 1] == x[|x| - 1]
  {
    var s := x + w;
    var r := LStripChars(s, chars);
    var d := |s| - |r|;
    assert s[|x| - 6] == '~';
    assert d <= |x| - 6;
    assert r == s[d..];
    SuffixFrom(x, w, d);
    var i := |x| - 6 - d;
    assert r[i] == x[|x| - 6];
    assert r[|r| - 1] == w[|w| - 1];
    var n := StripKeepsEnd(r, i);
    SuffixFrom(x[d..], w, n);
    assert x[d..][n..] == x[d + n..];
    y := x[d + n..];
  }

  /** A prefix of a string holds only characters of that string. */
  lemma PrefixChars(a: string, b: string)
    requires |a| <= |b| && a == b[..|a|]
    ensures forall c | c in a :: c in b
  {
    forall c | c in a ensures c in b {
      var i :| 0 <= i < |a| && a[i] == c;
      assert b[i] == c;
    }
  }

  /**
    The injected request of two or more lines, cut before its last separator: a head that
    ends in the marked `~@ CRLF CRLF`, then the separator, `CRLF @~` and the last line.
   */
  lemma MarkedLast(sep: string, pieces: seq<string>) returns (x: string)
    requires |pieces| >= 2
    ensures sep + CRLF + Join(pieces, Replacement(Injection(sep))) == x + sep + CRLF + "@~" + pieces[|pieces| - 1]
    ensures 6 <= |x| && x[|x| - 6] == '~' && x[|x| - 1] == '\n'
  {
    var r := Replacement(Injection(sep));
    var n := |pieces|;
    JoinLast(pieces, r);
    var mark := "~@" + CRLF + CRLF;
    x := sep + CRLF + Join(pieces[..n - 1], r) + mark;
    assert r == mark + (sep + CRLF + "@~");
    assert x[|x| - 6..] == mark;
    assert x[|x| - 6] == mark[0] && x[|x| - 1] == mark[5];
  }

  /**
    The context-case trim of line 115, or none, keeps a head ending in a line feed before
    the marked last line `////// CRLF @~ z`.
   */
  lemma FramedHead(injected: string, context: string, x: string, z: string) returns (y: string)
    requires injected == x + (SlashLine + CRLF + "@~" + z) && Trimmed(injected)
    requires 6 <= |x| && x[|x| - 6] == '~' && x[|x| - 1] == '\n' && IsSegment(SlashLine, z)
    ensures FramedText(SlashLine, context, injected) == y + (SlashLine + CRLF + "@~" + z)
    ensures 0 < |y| && y[|y| - 1] == '\n'
  {
    y := x;
    if context != [] && StartsWith(Strip(injected), SlashLine + CRLF) {
      y := TrimmedHead(injected, x, z);
    }
  }

  lemma TrimmedHead(injected: string, x: string, z: string) returns (y: string)
    requires injected == x + (SlashLine + CRLF + "@~" + z) && Trimmed(injected)
    requires 6 <= |x| && x[|x| - 6] == '~' && x[|x| - 1] == '\n' && IsSegment(SlashLine, z)
    ensures Strip(LStripChars(Strip(injected), SlashLine + CRLF)) == y + (SlashLine + CRLF + "@~" + z)
    ensures 0 < |y| && y[|y| - 1] == '\n'
  {
    var w := SlashLine + CRLF + "@~" + z;
    StripTrimmed(injected);
    var chars := SlashLine + CRLF;
    assert chars == ['/', '/', '/', '/', '/', '/', '\r', '\n'];
    assert '~' !in chars;
    assert w[|w| - 1] == z[|z| - 1];
    assert !IsSpace(w[|w| - 1]);
    y := FramedKeepsTail(x, w, chars);
  }

  /** The slot of the injected request of two or more segments, with or without a context: its last segment. */
  lemma InjectedSlot(context: string, pieces: seq<string>)
    requires |pieces| >= 2 && AllSegments(SlashLine, pieces)
    requires '~' !in pieces[|pieces| - 1] && '@' !in pieces[|pieces| - 1]
    ensures SlotOf(SlashLine, FramedText(SlashLine, context, SlashLine + CRLF + Join(pieces, Replacement(Injection(SlashLine)))) + "~@")
         == pieces[|pieces| - 1]
  {
    var z := pieces[|pieces| - 1];
    var injected := SlashLine + CRLF + Join(pieces, Replacement(Injection(SlashLine)));
    var x := InjectedLayout(pieces);
    var y := FramedHead(injected, context, x, z);
    MarkedAfterHead(FramedText(SlashLine, context, injected) + "~@", y, SlashLine + CRLF + "@~" + z, z);
  }

  /** The injected request of two or more segments is trimmed and ends in its marked last segment. */
  lemma InjectedLayout(pieces: seq<string>) returns (x: string)
    requires |pieces| >= 2 && AllSegments(SlashLine, pieces)
    ensures SlashLine + CRLF + Join(pieces, Replacement(Injection(SlashLine)))
         == x + (SlashLine + CRLF + "@~" + pieces[|pieces| - 1])
    ensures Trimmed(SlashLine + CRLF + Join(pieces, Replacement(Injection(SlashLine))))
    ensures 6 <= |x| && x[|x| - 6] == '~' && x[|x| - 1] == '\n' && IsSegment(SlashLine, pieces[|pieces| - 1])
  {
    DefaultSeparatorValid();
    JoinMarkedTrimmed(SlashLine, pieces);
    HeadedTrimmed(SlashLine, Join(pieces, Replacement(Injection(SlashLine))));
    x := MarkedLast(SlashLine, pieces);
  }

  /** The closing `~@` after a head ending in a line feed and the marked last line `////// CRLF @~ z`. */
  lemma MarkedAfterHead(s: string, y: string, w: string, z: string)
    requires s == (y + w) + "~@" && w == SlashLine + CRLF + "@~" + z
    requires 0 < |y| && y[|y| - 1] == '\n' && IsSegment(SlashLine, z) && '~' !in z && '@' !in z
    ensures SlotOf(SlashLine, s) == z
  {
    var k := |y|;
    assert s[k - 1] == '\n';
    assert s[k..k + 6] == SlashLine;
    assert s[k + 6..] == CRLF + "@~" + z + "~@";
    MarkedTailLastAt(s, k, z);
    DefaultSeparatorValid();
    SlotAfterMarked(SlashLine, s, k, z);
    StripTrimmed(z);
  }

  /** The last line after the article step holds no marker character when the line did not. */
  lemma LastCutFacts(isWord: char -> bool, segs: seq<string>, pieces: seq<string>)
    requires segs != [] && '~' !in segs[|segs| - 1] && '@' !in segs[|segs| - 1] && pieces == CutLines(isWord, segs)
    ensures |pieces| == |segs| && pieces[|pieces| - 1] == CutLine(isWord, segs[|segs| - 1])
    ensures '~' !in pieces[|pieces| - 1] && '@' !in pieces[|pieces| - 1]
  {
    var last := segs[|segs| - 1];
    var cut := CutLine(isWord, last);
    PrefixChars(cut, last);
  }

  /**
    The slot a MORT request of two or more plain lines leaves (local_translator.py:113-122):
    its last line without its final article, whether or not a context frames the request.
   */
  lemma PreparedSlot(isWord: char -> bool, segs: seq<string>, target: string, context: string)
    requires WordTest(isWord) && |segs| >= 2 && PlainLines(segs) && AllSegments(DefaultSeparator, segs)
    requires !IsEnglish(target) && '~' !in segs[|segs| - 1] && '@' !in segs[|segs| - 1]
    ensures SlotOf(DefaultSeparator, Prepare(DefaultSeparator, isWord, context, Strip(Render(DefaultSeparator, segs)), target))
         == CutLine(isWord, segs[|segs| - 1])
  {
    var pieces := CutLines(isWord, segs);
    var framed := FramedText(SlashLine, context, SlashLine + CRLF + Join(pieces, Replacement(Injection(SlashLine)))) + "~@";
    assert SlotOf(SlashLine, framed) == CutLine(isWord, segs[|segs| - 1]) by {
      LastCutFacts(isWord, segs, pieces);
      CutShape(isWord, segs);
      InjectedSlot(context, pieces);
    }
    PreparedFramed(isWord, segs, target, context);
  }

  /** The prepared request of a plain-line MORT text, as `PreparedMort` gives its injected form. */
  lemma PreparedFramed(isWord: char -> bool, segs: seq<string>, target: string, context: string)
    requires WordTest(isWord) && segs != [] && PlainLines(segs) && AllSegments(DefaultSeparator, segs) && !IsEnglish(target)
    ensures Prepare(DefaultSeparator, isWord, context, Strip(Render(DefaultSeparator, segs)), target)
         == FramedText(SlashLine, context, SlashLine + CRLF + Join(CutLines(isWord, segs), Replacement(Injection(SlashLine)))) + "~@"
  {
    PreparedMort(isWord, segs, target);
  }
}
