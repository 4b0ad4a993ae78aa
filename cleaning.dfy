/**
  The two text cleaners of src/utils/formatters.py: `MORTFormatter.clean_response`
  (whitespace collapse) and `sanitize_text` (script and tag removal). `html.unescape`
  is a parameter: the model says nothing about what it does.
 */
module Cleaning {
  import opened Wrappers
  import opened PyText

  // ---------------------------------------------------------------------------
  // clean_response (formatters.py:50-61)

  /** `' '.join(s.split())`: the words of `s`, separated by single spaces. */
  function Collapse(s: string): string {
    Join(Words(s), " ")
  }

  /** `clean_response`. */
  function CleanResponse(text: string, unescape: string -> string): string {
    if text == [] then "" else Strip(Collapse(unescape(text)))
  }

  /**
    The cleaned text is trimmed, its only whitespace is single spaces between
    words, and its words are exactly the words of the unescaped input, in order.
   */
  lemma CleanResponseWords(text: string, unescape: string -> string)
    ensures var r := CleanResponse(text, unescape);
      Trimmed(r) && SingleSpaced(r) && (text != [] ==> Words(r) == Words(unescape(text)))
    ensures text == [] ==> CleanResponse(text, unescape) == []
  {
    if text != [] {
      var w := Words(unescape(text));
      JoinSingleSpaced(w);
      StripTrimmed(Join(w, " "));
      WordsOfJoin(w);
    }
  }

  // ---------------------------------------------------------------------------
  // sanitize_text (formatters.py:68-82)

  const ScriptOpen: string := "<script"
  const ScriptClose: string := "</script>"

  /**
    The length of the match of `<script[^>]*>.*?</script>` (IGNORECASE, DOTALL) at
    the start of `s`, if there is one: `[^>]*>` ends at the first `>` after the
    opening word, and the lazy `.*?` stops at the first closing tag after that.
   */
  function ScriptMatch(s: string): (r: Option<nat>)
    ensures r.Some? ==> 16 <= r.value <= |s| && AtFold(s, 0, ScriptOpen) && AtFold(s, r.value - 9, ScriptClose)
  {
    if !AtFold(s, 0, ScriptOpen) then None
    else
      var g := FindFrom(s, ">", 7);
      if g < 0 then None
      else
        var e := FindFoldFrom(s, ScriptClose, g + 1);
        if e < 0 then None else Some(e + 9)
  }

  /** `re.sub(r'<script[^>]*>.*?</script>', '', s, flags=re.IGNORECASE | re.DOTALL)`. */
  function ScriptStrip(s: string): (r: string)
    decreases |s|
    ensures |r| <= |s|
    ensures forall k | 0 <= k < |r| :: r[k] in s
  {
    if s == [] then []
    else match ScriptMatch(s)
      case Some(n) => ScriptStrip(s[n..])
      case None => [s[0]] + ScriptStrip(s[1..])
  }

  /** `<[^>]+>` matches at the start of `s` (it always ends at the first `>`): its length. */
  function TagMatch(s: string): (r: Option<nat>)
    ensures r.Some? ==> 3 <= r.value <= |s| && s[0] == '<' && s[r.value - 1] == '>'
  {
    if 2 <= |s| && s[0] == '<' && s[1] != '>' then
      var g := FindFrom(s, ">", 1);
      if g < 0 then None else assert s[g + 0] == ">"[0]; Some(g + 1)
    else None
  }

  /** `re.sub(r'<[^>]+>', '', s)`. */
  function TagStrip(s: string): (r: string)
    decreases |s|
    ensures |r| <= |s|
    ensures forall k | 0 <= k < |r| :: r[k] in s
  {
    if s == [] then []
    else match TagMatch(s)
      case Some(n) => TagStrip(s[n..])
      case None => [s[0]] + TagStrip(s[1..])
  }

  /** `sanitize_text`. */
  function SanitizeText(text: string, unescape: string -> string): (r: string)
    ensures Trimmed(r)
    ensures text == [] ==> r == []
  {
    if text == [] then "" else Strip(unescape(TagStrip(ScriptStrip(text))))
  }

  /** A tag `<`, one or more characters other than `>`, then `>`, from `i` to `j`. */
  predicate TagAt(s: string, i: int, j: int) {
    0 <= i && i + 1 < j < |s| && s[i] == '<' && s[j] == '>' && forall k | i < k < j :: s[k] != '>'
  }

  ghost predicate NoTags(s: string) {
    forall i, j :: !TagAt(s, i, j)
  }

  lemma TagAtShift(c: char, t: string, i: int, j: int)
    requires 1 <= i
    ensures TagAt([c] + t, i, j) <==> TagAt(t, i - 1, j - 1)
  {
    var s := [c] + t;
    if TagAt(s, i, j) {
      forall k | i - 1 < k < j - 1 ensures t[k] != '>' {
        assert s[k + 1] == t[k];
      }
    }
    if TagAt(t, i - 1, j - 1) {
      forall k | i < k < j ensures s[k] != '>' {
        assert s[k] == t[k - 1];
      }
    }
  }

  /** The first character survives when tag removal does not start there. */
  lemma TagStripHead(s: string)
    requires s != [] && s[0] != '<'
    ensures TagStrip(s) == [s[0]] + TagStrip(s[1..])
  {
  }

  /** After tag removal no tag is left (formatters.py:77), whatever the unescaping does next. */
  lemma {:induction false} TagStripNoTags(s: string)
    ensures NoTags(TagStrip(s))
    decreases |s|
  {
    if s != [] {
      match TagMatch(s)
      case Some(n) =>
        TagStripNoTags(s[n..]);
      case None =>
        var t := TagStrip(s[1..]);
        var r := [s[0]] + t;
        TagStripNoTags(s[1..]);
        forall i, j ensures !TagAt(r, i, j) {
          if 1 <= i {
            TagAtShift(s[0], t, i, j);
          } else if i == 0 && s[0] == '<' && 2 <= |s| {
            if s[1] == '>' {
              TagStripHead(s[1..]);
              assert r[1] == '>';
            } else {
              FreeGt(s, t);
            }
          }
        }
    }
  }

  /** A `<` with no `>` after it in a text whose surviving characters come from that text. */
  lemma FreeGt(s: string, t: string)
    requires 2 <= |s| && s[1] != '>' && FindFrom(s, ">", 1) < 0
    requires forall k | 0 <= k < |t| :: t[k] in s[1..]
    ensures forall k | 0 <= k < |t| :: t[k] != '>'
  {
    forall k | 0 <= k < |t| ensures t[k] != '>' {
      var m :| 0 <= m < |s[1..]| && s[1..][m] == t[k];
      assert !At(s, m + 1, ">");
      assert s[m + 1 + 0] != ">"[0];
    }
  }

  /** Text with no `<` passes both removal steps unchanged. */
  lemma {:induction false} NoAngleUnchanged(s: string)
    requires '<' !in s
    ensures ScriptStrip(s) == s && TagStrip(s) == s
    decreases |s|
  {
    if s != [] {
      assert s[0] != ScriptOpen[0] && Fold(s[0]) != Fold(ScriptOpen[0]);
      NoAngleUnchanged(s[1..]);
    }
  }
}
