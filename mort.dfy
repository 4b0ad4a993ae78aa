/**
  The MORT segment format of `MORTFormatter` (src/utils/formatters.py): a text is a
  list of segments, each introduced by a separator line,

    SEP CRLF seg1 CRLF SEP CRLF seg2 ... CRLF SEP CRLF segN CRLF

  `Repair` is `validate_and_fix_format`: it normalises line endings, drops a
  leading and a trailing separator line, splits on the separator, trims the
  pieces, drops the blank ones and renders what is left in the shape above.
  The separator is a parameter; the gateway uses `DefaultSeparator`.
 */
module Mort {
  import opened PyText

  const DefaultSeparator: string := "//////"

  /**
    What the format needs of a separator: non-empty, free of whitespace and of the
    marker characters, and free of backslashes, which `re.sub` would read as escapes
    where the separator is pasted into a replacement template.
   */
  predicate ValidSeparator(sep: string) {
    |sep| > 0 && NoSpace(sep) && '~' !in sep && '@' !in sep && '\\' !in sep
  }

  /** The gateway's separator is a valid one. */
  lemma DefaultSeparatorValid()
    ensures ValidSeparator(DefaultSeparator)
  {
    var d := DefaultSeparator;
    assert forall k | 0 <= k < |d| :: d[k] == '/';
  }

  // ---------------------------------------------------------------------------
  // Line endings (formatters.py:20)

  /** `text.replace('\n', '\r\n').replace('\r\r\n', '\r\n')`. */
  function Normalize(t: string): string {
    Replace(Replace(t, "\n", CRLF), "\r\r\n", CRLF)
  }

  /** Every line feed is preceded by a carriage return. */
  ghost predicate LfAfterCr(s: string) {
    forall k | 0 <= k < |s| && s[k] == '\n' :: 0 < k && s[k - 1] == '\r'
  }

  /** Every line feed after the first character is preceded by a carriage return; slices keep this. */
  ghost predicate InnerLfAfterCr(s: string) {
    forall k | 0 < k < |s| && s[k] == '\n' :: s[k - 1] == '\r'
  }

  lemma NoLfChars(t: string)
    requires Find(t, "\n") < 0
    ensures forall k | 0 <= k < |t| :: t[k] != '\n'
  {
    forall k | 0 <= k < |t| ensures t[k] != '\n' {
      assert !At(t, k, "\n");
    }
  }

  /** Text without line feeds is already normal. */
  lemma NormalizeNoLf(t: string)
    requires Find(t, "\n") < 0
    ensures Normalize(t) == t
  {
    NoLfChars(t);
    forall j | 0 <= j && j + 3 <= |t| ensures !At(t, j, "\r\r\n") {
      assert t[j + 2] != "\r\r\n"[2];
    }
    assert Find(t, "\r\r\n") == -1;
  }

  /**
    Normalisation works line feed by line feed: a line feed already preceded by a
    carriage return stays as it is, any other one gains a carriage return.
   */
  lemma NormalizeStep(t: string, i: nat)
    requires Find(t, "\n") == i
    ensures Normalize(t) == t[..i] + (if 0 < i && t[i - 1] == '\r' then "\n" else CRLF) + Normalize(t[i + 1..])
  {
    var a := t[..i];
    var r1b := Replace(t[i + 1..], "\n", CRLF);
    ReplaceAt(t, "\n", CRLF, i);
    forall j | 0 <= j < i ensures a[j] != '\n' {
      assert !At(t, j, "\n");
    }
    if 0 < i && t[i - 1] == '\r' {
      var a' := t[..i - 1];
      assert a == a' + "\r";
      CrBeforeLf(a', r1b);
      ConcatAssoc(a', "\r", "\n", Normalize(t[i + 1..]));
    } else {
      LfAlone(a, r1b);
    }
  }

  /** In `a' CR CR LF r`, with no line feed in `a'`, the first `CR CR LF` is the one after `a'`. */
  lemma CrBeforeLf(a': string, r: string)
    requires forall j | 0 <= j < |a'| :: a'[j] != '\n'
    ensures Replace(a' + "\r" + CRLF + r, "\r\r\n", CRLF) == a' + CRLF + Replace(r, "\r\r\n", CRLF)
  {
    var u := a' + "\r" + CRLF + r;
    var i := |a'|;
    assert u[i] == '\r' && u[i + 1] == '\r' && u[i + 2] == '\n';
    assert At(u, i, "\r\r\n");
    forall j | 0 <= j < i ensures !At(u, j, "\r\r\n") {
      assert u[j + 2] != "\r\r\n"[2];
    }
    FindIs(u, "\r\r\n", i);
    ReplaceAt(u, "\r\r\n", CRLF, i);
    assert u[i + 3..] == r;
    assert u[..i] == a';
  }

  /** In `a CR LF r`, with no line feed in `a` and no carriage return ending it, no `CR CR LF` starts before `r`. */
  lemma LfAlone(a: string, r: string)
    requires forall j | 0 <= j < |a| :: a[j] != '\n'
    requires a == [] || a[|a| - 1] != '\r'
    ensures Replace(a + CRLF + r, "\r\r\n", CRLF) == a + CRLF + Replace(r, "\r\r\n", CRLF)
  {
    var u := a + CRLF + r;
    var i := |a|;
    forall j | j < |a + CRLF| ensures !At(u, j, "\r\r\n") {
      if 0 <= j && j + 3 <= |u| {
        if j + 2 < i {
          assert u[j + 2] != "\r\r\n"[2];
        } else if j + 2 == i {
          assert u[j + 2] != "\r\r\n"[2];
        } else if j + 2 == i + 1 {
          assert u[j] != "\r\r\n"[0];
        } else if j == i {
          assert u[j + 1] != "\r\r\n"[1];
        } else {
          assert u[j] != "\r\r\n"[0];
        }
      }
    }
    ReplaceShift(a + CRLF, r, "\r\r\n", CRLF);
  }

  lemma LfAfterCrConcat(x: string, y: string)
    requires LfAfterCr(x) && LfAfterCr(y)
    ensures LfAfterCr(x + y)
  {
    var s := x + y;
    forall k | 0 <= k < |s| && s[k] == '\n' ensures 0 < k && s[k - 1] == '\r' {
      if k < |x| {
        assert x[k] == '\n';
      } else {
        assert y[k - |x|] == '\n';
        assert s[k - 1] == y[k - |x| - 1];
      }
    }
  }

  lemma InnerSlice(s: string, a: nat, b: nat)
    requires InnerLfAfterCr(s) && a <= b <= |s|
    ensures InnerLfAfterCr(s[a..b])
  {
    var t := s[a..b];
    forall k | 0 < k < |t| && t[k] == '\n' ensures t[k - 1] == '\r' {
      assert s[a + k] == '\n';
    }
  }

  /** After normalisation every line feed is preceded by a carriage return (formatters.py:20). */
  lemma {:induction false} NormalizeCanonical(t: string)
    ensures LfAfterCr(Normalize(t))
    decreases |t|
  {
    var i := Find(t, "\n");
    if i < 0 {
      NormalizeNoLf(t);
      NoLfChars(t);
    } else {
      NormalizeStep(t, i);
      NormalizeCanonical(t[i + 1..]);
      var a := t[..i];
      forall j | 0 <= j < i ensures a[j] != '\n' {
        assert !At(t, j, "\n");
      }
      var m := if 0 < i && t[i - 1] == '\r' then "\n" else CRLF;
      assert LfAfterCr(a + m);
      LfAfterCrConcat(a + m, Normalize(t[i + 1..]));
    }
  }

  /** Normalisation leaves normal text alone; in particular it is idempotent. */
  lemma {:induction false} NormalizeFixed(s: string)
    requires LfAfterCr(s)
    ensures Normalize(s) == s
    decreases |s|
  {
    var i := Find(s, "\n");
    if i < 0 {
      NormalizeNoLf(s);
    } else {
      assert At(s, i, "\n");
      assert s[i + 0] == "\n"[0];
      var b := s[i + 1..];
      LfAfterCrAfterLf(s, i);
      NormalizeStep(s, i);
      NormalizeFixed(b);
      assert s == s[..i] + "\n" + b;
    }
  }

  /** A normal text's line feed follows a carriage return, and what comes after it is normal. */
  lemma LfAfterCrAfterLf(s: string, i: nat)
    requires LfAfterCr(s) && i < |s| && s[i] == '\n'
    ensures 0 < i && s[i - 1] == '\r' && LfAfterCr(s[i + 1..])
  {
    var b := s[i + 1..];
    forall k | 0 <= k < |b| && b[k] == '\n' ensures 0 < k && b[k - 1] == '\r' {
      assert s[i + 1 + k] == '\n';
      assert s[i + k] == '\r';
    }
  }
  // ---------------------------------------------------------------------------
  // Separator lines at the ends (formatters.py:26, 29)

  /**
    The length of the longest prefix of the whitespace run `w` that ends in CRLF,
    or 0 when there is none: how far the greedy `\s*\r\n` reaches.
   */
  function LastCrlfEnd(w: string): (j: nat)
    ensures j <= |w|
    ensures j == 0 || (2 <= j && w[j - 2] == '\r' && w[j - 1] == '\n')
  {
    if |w| < 2 then 0
    else if w[|w| - 2] == '\r' && w[|w| - 1] == '\n' then |w|
    else LastCrlfEnd(w[..|w| - 1])
  }

  /**
    `re.sub(r'^\s*' + SEP + r'\s*\r\n', '', t)`. Without MULTILINE `^` matches only
    at the start, so at most one match is removed. The first `\s*` takes the whole
    leading run (the separator does not start with whitespace); the second one
    takes the longest part of the following run that still leaves a CRLF to end on.
   */
  function StripLeadingSep(sep: string, t: string): (r: string)
    requires |sep| > 0
    ensures r == t || (|r| < |t| && r == t[|t| - |r|..])
  {
    var a := LeadingSpace(t);
    if !At(t, a, sep) then t
    else
      var e := a + |sep|;
      var j := LastCrlfEnd(t[e..][..LeadingSpace(t[e..])]);
      if j == 0 then t else t[e + j..]
  }

  /**
    `\r\n\s*SEP\s*$` matches at index `i`. The first `\s*` must take the whole run
    after the CRLF (the separator does not start with whitespace), and the match
    then reaches the end of the text exactly when only whitespace follows the
    separator.
   */
  predicate TrailMatchAt(sep: string, t: string, i: int)
    requires |sep| > 0
  {
    0 <= i && i + 2 <= |t| && t[i] == '\r' && t[i + 1] == '\n' &&
    var d := i + 2 + LeadingSpace(t[i + 2..]);
    At(t, d, sep) && AllSpace(t[d + |sep|..])
  }

  /** The leftmost index at or after `i` where the trailing-separator pattern matches, or -1. */
  function FirstTrailMatch(sep: string, t: string, i: nat): (r: int)
    requires |sep| > 0
    decreases |t| - i
    ensures r == -1 || (i <= r && TrailMatchAt(sep, t, r))
    ensures r == -1 ==> forall j :: i <= j ==> !TrailMatchAt(sep, t, j)
    ensures r >= 0 ==> forall j :: i <= j < r ==> !TrailMatchAt(sep, t, j)
  {
    if i + 2 > |t| then -1
    else if TrailMatchAt(sep, t, i) then i
    else FirstTrailMatch(sep, t, i + 1)
  }

  /** `re.sub(r'\r\n\s*' + SEP + r'\s*$', '', t)`: the leftmost match runs to the end of the text. */
  function StripTrailingSep(sep: string, t: string): (r: string)
    requires |sep| > 0
    ensures |r| <= |t| && r == t[..|r|]
  {
    var i := FirstTrailMatch(sep, t, 0);
    if i < 0 then t else t[..i]
  }

  // ---------------------------------------------------------------------------
  // Segments and rendering (formatters.py:32-39, 47)

  /** `[s.strip() for s in pieces if s.strip()]`. */
  function NonBlank(pieces: seq<string>): (r: seq<string>)
    ensures forall k | 0 <= k < |r| :: r[k] != [] && Trimmed(r[k])
  {
    if pieces == [] then []
    else (if Strip(pieces[0]) != [] then [Strip(pieces[0])] else []) + NonBlank(pieces[1..])
  }

  /** The trimmed, non-blank pieces of `t` between separators, in order. */
  function Segments(sep: string, t: string): seq<string>
    requires |sep| > 0
  {
    NonBlank(Split(t, sep))
  }

  /** What the format admits as a segment: non-empty, trimmed and free of the separator. */
  ghost predicate IsSegment(sep: string, s: string) {
    s != [] && Trimmed(s) && Free(s, sep)
  }

  ghost predicate AllSegments(sep: string, segs: seq<string>) {
    forall k | 0 <= k < |segs| :: IsSegment(sep, segs[k])
  }

  /** The line between two segments. */
  function Delimiter(sep: string): string {
    CRLF + sep + CRLF
  }

  /** The output shape: `SEP CRLF seg1 CRLF SEP CRLF seg2 ... segN CRLF`, or empty. */
  function Render(sep: string, segs: seq<string>): string {
    if segs == [] then "" else sep + CRLF + Join(segs, Delimiter(sep)) + CRLF
  }

  /** The segments `validate_and_fix_format` keeps (formatters.py:20-32). */
  function RepairedSegments(sep: string, t: string): seq<string>
    requires |sep| > 0
  {
    Segments(sep, StripTrailingSep(sep, StripLeadingSep(sep, Strip(Normalize(t)))))
  }

  /** formatters.py:20-39 without the guard; also `_validate_and_fix_mort_format` of the cloud translator. */
  function RepairBody(sep: string, t: string): string
    requires |sep| > 0
  {
    Render(sep, RepairedSegments(sep, t))
  }

  /** `validate_and_fix_format` (formatters.py:14-39). */
  function Repair(sep: string, t: string): (r: string)
    requires ValidSeparator(sep)
    ensures t == [] ==> r == []
  {
    if t == [] then "" else RepairBody(sep, t)
  }

  /** `extract_segments` (formatters.py:41-48). */
  function ExtractSegments(sep: string, t: string): (r: seq<string>)
    requires ValidSeparator(sep)
    ensures t == [] ==> r == []
  {
    if t == [] then [] else Segments(sep, t)
  }

  /**
    `format_translation_response` (formatters.py:63-66): the output is already in
    the format, and its segments are the ones kept from the input.
   */
  function FormatTranslationResponse(text: string, sep: string): (r: string)
    requires ValidSeparator(sep)
    ensures Repair(sep, r) == r
    ensures ExtractSegments(sep, r) == RepairedSegments(sep, text)
  {
    RepairIdempotent(sep, text);
    RepairIsRendering(sep, text);
    if text == [] then
      RepairedSegmentsOfEmpty(sep);
      Repair(sep, text)
    else
      ExtractRendered(sep, RepairedSegments(sep, text));
      Repair(sep, text)
  }
  // ---------------------------------------------------------------------------
  // Lemmas: what the kept segments are

  /** The kept form of one piece: its trimmed text, or nothing when it is blank. */
  function Kept(p: string): seq<string> {
    if Strip(p) != [] then [Strip(p)] else []
  }

  lemma NonBlankCons(p: string, rest: seq<string>)
    ensures NonBlank([p] + rest) == Kept(p) + NonBlank(rest)
  {
    assert ([p] + rest)[1..] == rest;
  }

  /** `Segments` piece by piece: a text without the separator is one piece. */
  lemma SegmentsWhole(sep: string, u: string)
    requires |sep| > 0 && Find(u, sep) < 0
    ensures Segments(sep, u) == Kept(u)
  {
    SplitNone(u, sep);
    NonBlankCons(u, []);
    assert [u] + [] == [u];
  }

  /** Up to the first separator, then the rest. */
  lemma SegmentsAt(sep: string, u: string, i: nat)
    requires |sep| > 0 && Find(u, sep) == i
    ensures Segments(sep, u) == Kept(u[..i]) + Segments(sep, u[i + |sep|..])
  {
    SplitAt(u, sep, i);
    NonBlankCons(u[..i], Split(u[i + |sep|..], sep));
  }

  /** The trimmed form of a separator-free piece is a segment, or empty. */
  lemma PieceSegment(sep: string, p: string)
    requires Free(p, sep)
    ensures Strip(p) == [] || IsSegment(sep, Strip(p))
    ensures InnerLfAfterCr(p) ==> LfAfterCr(Strip(p))
  {
    var a, b := StripSlice(p);
    FreeSlice(p, sep, a, b);
    if InnerLfAfterCr(p) {
      InnerSlice(p, a, b);
    }
  }

  lemma AllSegmentsConcat(sep: string, a: seq<string>, b: seq<string>)
    requires AllSegments(sep, a) && AllSegments(sep, b)
    ensures AllSegments(sep, a + b)
  {
    forall k | 0 <= k < |a + b| ensures IsSegment(sep, (a + b)[k]) {
      if k < |a| {
        assert (a + b)[k] == a[k];
      } else {
        assert (a + b)[k] == b[k - |a|];
      }
    }
  }

  lemma AllLfAfterCrConcat(a: seq<string>, b: seq<string>)
    requires AllLfAfterCr(a) && AllLfAfterCr(b)
    ensures AllLfAfterCr(a + b)
  {
    forall k | 0 <= k < |a + b| ensures LfAfterCr((a + b)[k]) {
      if k < |a| {
        assert (a + b)[k] == a[k];
      } else {
        assert (a + b)[k] == b[k - |a|];
      }
    }
  }

  /** Every kept piece is a segment (formatters.py:32). */
  lemma {:induction false} SegmentsAreSegments(sep: string, u: string)
    requires |sep| > 0
    ensures AllSegments(sep, Segments(sep, u))
    decreases |u|
  {
    var i := Find(u, sep);
    if i < 0 {
      SegmentsWhole(sep, u);
      KeptSegments(sep, u);
    } else {
      SegmentsAt(sep, u, i);
      SplitHeadFree(u, sep, i);
      KeptSegments(sep, u[..i]);
      SegmentsAreSegments(sep, u[i + |sep|..]);
      AllSegmentsConcat(sep, Kept(u[..i]), Segments(sep, u[i + |sep|..]));
    }
  }

  /** The piece kept from a separator-free text is a segment. */
  lemma KeptSegments(sep: string, p: string)
    requires Free(p, sep) || Find(p, sep) < 0
    ensures AllSegments(sep, Kept(p))
  {
    assert Free(p, sep);
    PieceSegment(sep, p);
  }

  ghost predicate AllLfAfterCr(segs: seq<string>) {
    forall k | 0 <= k < |segs| :: LfAfterCr(segs[k])
  }

  /** The piece before the first separator keeps normal line endings. */
  lemma HeadLfAfterCr(sep: string, u: string, i: nat)
    requires |sep| > 0 && InnerLfAfterCr(u) && Find(u, sep) == i
    ensures AllLfAfterCr(Kept(u[..i]))
  {
    var head := u[..i];
    SplitHeadFree(u, sep, i);
    InnerSlice(u, 0, i);
    assert u[0..i] == head;
    PieceSegment(sep, head);
  }

  /** So does the text after it. */
  lemma RestInner(sep: string, u: string, i: nat)
    requires |sep| > 0 && InnerLfAfterCr(u) && Find(u, sep) == i
    ensures InnerLfAfterCr(u[i + |sep|..])
  {
    InnerSlice(u, i + |sep|, |u|);
    assert u[i + |sep|..|u|] == u[i + |sep|..];
  }

  lemma SegmentsLfAfterCrWhole(sep: string, u: string)
    requires |sep| > 0 && InnerLfAfterCr(u) && Find(u, sep) < 0
    ensures AllLfAfterCr(Segments(sep, u))
  {
    SegmentsWhole(sep, u);
    PieceSegment(sep, u);
  }

  /** Normal line endings carry over to the segments. */
  lemma {:induction false} SegmentsLfAfterCr(sep: string, u: string)
    requires |sep| > 0 && InnerLfAfterCr(u)
    ensures AllLfAfterCr(Segments(sep, u))
    decreases |u|
  {
    var i := Find(u, sep);
    if i < 0 {
      SegmentsLfAfterCrWhole(sep, u);
    } else {
      var h := Kept(u[..i]);
      var t := Segments(sep, u[i + |sep|..]);
      SegmentsAt(sep, u, i);
      assert AllLfAfterCr(t) by {
        RestInner(sep, u, i);
        SegmentsLfAfterCr(sep, u[i + |sep|..]);
      }
      assert AllLfAfterCr(h) by {
        HeadLfAfterCr(sep, u, i);
      }
      AllLfAfterCrConcat(h, t);
    }
  }

  /** The first separator after a padded segment and a line break is the one that follows them. */
  lemma FindAfterSegment(sep: string, x: string, y: string)
    requires ValidSeparator(sep) && Free(x, sep) && |x| > 0 && x[|x| - 1] == '\n'
    ensures Find(x + sep + y, sep) == |x|
  {
    var s := x + sep + y;
    assert At(s, |x|, sep) by {
      assert s[|x|..|x| + |sep|] == sep;
    }
    forall j | 0 <= j < |x| ensures !At(s, j, sep) {
      if j + |sep| <= |x| {
        AtLeftIff(x, sep + y, j, sep);
        assert s == x + (sep + y);
      } else {
        assert s[|x| - 1] == '\n';
        NotAtOverSpace(s, j, sep, |x| - 1);
      }
    }
    FindIs(s, sep, |x|);
  }

  /** One padded segment is its own only segment. */
  lemma SegmentsOfOne(sep: string, w1: string, seg: string, w2: string)
    requires ValidSeparator(sep) && AllSpace(w1) && AllSpace(w2) && IsSegment(sep, seg)
    ensures Segments(sep, w1 + seg + w2) == [seg]
  {
    var s := w1 + seg + w2;
    FreePadded(w1, seg, w2, sep);
    SegmentsWhole(sep, s);
    StripPadded(w1, seg, w2);
  }

  lemma Regroup(w1: string, a: string, sep: string, t: string, w2: string)
    ensures w1 + (a + Delimiter(sep) + t) + w2 == (w1 + a + CRLF) + sep + (CRLF + t + w2)
  {
  }

  lemma JoinHeadSplit(sep: string, w1: string, segs: seq<string>, w2: string)
    requires |segs| > 1
    ensures w1 + Join(segs, Delimiter(sep)) + w2
         == (w1 + segs[0] + CRLF) + sep + (CRLF + Join(segs[1..], Delimiter(sep)) + w2)
  {
    var tail := Join(segs[1..], Delimiter(sep));
    assert Join(segs, Delimiter(sep)) == segs[0] + Delimiter(sep) + tail;
    Regroup(w1, segs[0], sep, tail, w2);
  }

  /** A padded first segment ends at the first separator. */
  lemma HeadSegment(sep: string, w1: string, seg: string, y: string)
    requires ValidSeparator(sep) && AllSpace(w1) && IsSegment(sep, seg)
    ensures Find((w1 + seg + CRLF) + sep + y, sep) == |w1 + seg + CRLF|
    ensures Kept(w1 + seg + CRLF) == [seg]
  {
    var x := w1 + seg + CRLF;
    FreePadded(w1, seg, CRLF, sep);
    FindAfterSegment(sep, x, y);
    StripPadded(w1, seg, CRLF);
  }

  /** Splitting at a known first separator. */
  lemma SegmentsCons(sep: string, x: string, y: string, seg: string)
    requires |sep| > 0 && Find(x + sep + y, sep) == |x| && Kept(x) == [seg]
    ensures Segments(sep, x + sep + y) == [seg] + Segments(sep, y)
  {
    var s := x + sep + y;
    SegmentsAt(sep, s, |x|);
    assert s[..|x|] == x;
    assert s[|x| + |sep|..] == y;
  }

  lemma ConsHeadTail(segs: seq<string>)
    requires |segs| > 0
    ensures [segs[0]] + segs[1..] == segs
  {
  }

  /** The inductive step of `SegmentsOfJoin`. */
  lemma SegmentsOfJoinStep(sep: string, w1: string, segs: seq<string>, w2: string)
    requires ValidSeparator(sep) && AllSpace(w1) && AllSpace(w2)
    requires |segs| > 1 && AllSegments(sep, segs)
    requires Segments(sep, CRLF + Join(segs[1..], Delimiter(sep)) + w2) == segs[1..]
    ensures Segments(sep, w1 + Join(segs, Delimiter(sep)) + w2) == segs
  {
    var x := w1 + segs[0] + CRLF;
    var y := CRLF + Join(segs[1..], Delimiter(sep)) + w2;
    JoinHeadSplit(sep, w1, segs, w2);
    HeadSegment(sep, w1, segs[0], y);
    SegmentsCons(sep, x, y, segs[0]);
    ConsHeadTail(segs);
  }

  /** Segments joined by delimiters, padded with whitespace, split back into themselves. */
  lemma {:induction false} SegmentsOfJoin(sep: string, w1: string, segs: seq<string>, w2: string)
    requires ValidSeparator(sep) && AllSpace(w1) && AllSpace(w2)
    requires |segs| > 0 && AllSegments(sep, segs)
    ensures Segments(sep, w1 + Join(segs, Delimiter(sep)) + w2) == segs
    decreases |segs|
  {
    if |segs| == 1 {
      SegmentsOfOne(sep, w1, segs[0], w2);
    } else {
      SegmentsOfJoin(sep, CRLF, segs[1..], w2);
      SegmentsOfJoinStep(sep, w1, segs, w2);
    }
  }

  /** A leading separator only opens an empty piece. */
  lemma SegmentsAfterSep(sep: string, y: string)
    requires |sep| > 0
    ensures Segments(sep, sep + y) == Segments(sep, y)
  {
    var r := sep + y;
    assert At(r, 0, sep) by {
      assert r[0..|sep|] == sep;
    }
    FindIs(r, sep, 0);
    SegmentsAt(sep, r, 0);
    assert r[..0] == "";
    assert r[|sep|..] == y;
    assert Kept("") == [];
  }

  /** Round trip: the segments of a rendering are the rendered segments (formatters.py:39, 47). */
  lemma ExtractRendered(sep: string, segs: seq<string>)
    requires ValidSeparator(sep) && AllSegments(sep, segs)
    ensures ExtractSegments(sep, Render(sep, segs)) == segs
  {
    if segs != [] {
      var y := CRLF + Join(segs, Delimiter(sep)) + CRLF;
      RenderAfterSep(sep, segs, y);
      SegmentsAfterSep(sep, y);
      CrlfSpace();
      SegmentsOfJoin(sep, CRLF, segs, CRLF);
    }
  }

  lemma RenderAfterSep(sep: string, segs: seq<string>, y: string)
    requires segs != [] && y == CRLF + Join(segs, Delimiter(sep)) + CRLF
    ensures Render(sep, segs) == sep + y && Render(sep, segs) != []
  {
    assert sep + CRLF + Join(segs, Delimiter(sep)) + CRLF == sep + y;
  }

  // ---------------------------------------------------------------------------
  // Lemmas: what a rendering looks like

  lemma DelimiterLfAfterCr(sep: string)
    requires NoSpace(sep)
    ensures LfAfterCr(Delimiter(sep)) && LfAfterCr(sep + CRLF)
  {
    var d := Delimiter(sep);
    forall k | 2 <= k < 2 + |sep| ensures d[k] != '\n' {
      assert d[k] == sep[k - 2];
    }
    var h := sep + CRLF;
    forall k | 0 <= k < |sep| ensures h[k] != '\n' {
      assert h[k] == sep[k];
    }
  }

  lemma {:induction false} JoinLfAfterCr(sep: string, segs: seq<string>)
    requires NoSpace(sep) && AllLfAfterCr(segs)
    ensures LfAfterCr(Join(segs, Delimiter(sep)))
    decreases |segs|
  {
    if |segs| > 1 {
      var tail := Join(segs[1..], Delimiter(sep));
      assert LfAfterCr(tail) by {
        JoinLfAfterCr(sep, segs[1..]);
      }
      DelimiterLfAfterCr(sep);
      LfAfterCrConcat(segs[0], Delimiter(sep));
      LfAfterCrConcat(segs[0] + Delimiter(sep), tail);
    }
  }

  lemma FramedLfAfterCr(sep: string, j: string)
    requires NoSpace(sep) && LfAfterCr(j)
    ensures LfAfterCr(sep + CRLF + j + CRLF)
  {
    DelimiterLfAfterCr(sep);
    LfAfterCrConcat(sep + CRLF, j);
    LfAfterCrConcat(sep + CRLF + j, CRLF);
  }

  /** A rendering of normal segments is itself normal, so normalisation leaves it alone. */
  lemma RenderLfAfterCr(sep: string, segs: seq<string>)
    requires NoSpace(sep) && AllLfAfterCr(segs)
    ensures LfAfterCr(Render(sep, segs))
  {
    if segs != [] {
      JoinLfAfterCr(sep, segs);
      FramedLfAfterCr(sep, Join(segs, Delimiter(sep)));
    }
  }

  /** The joined segments begin and end with the first and last characters of the end segments. */
  lemma JoinTrimmed(sep: string, segs: seq<string>)
    requires |segs| > 0 && AllSegments(sep, segs)
    ensures Join(segs, Delimiter(sep)) != [] && Trimmed(Join(segs, Delimiter(sep)))
  {
    JoinHead(segs, Delimiter(sep));
    assert IsSegment(sep, segs[0]) && IsSegment(sep, segs[|segs| - 1]);
  }

  /** The joined segments do not end with the separator: the last segment is free of it, and a line break precedes it. */
  lemma {:induction false} JoinNotEndsWithSep(sep: string, segs: seq<string>)
    requires ValidSeparator(sep) && |segs| > 0 && AllSegments(sep, segs)
    ensures !EndsWith(Join(segs, Delimiter(sep)), sep)
    decreases |segs|
  {
    var j := Join(segs, Delimiter(sep));
    if |segs| == 1 {
      assert IsSegment(sep, segs[0]);
    } else {
      var x := segs[0] + Delimiter(sep);
      var tail := Join(segs[1..], Delimiter(sep));
      assert j == x + tail;
      var p := |j| - |sep|;
      if |sep| <= |tail| {
        JoinNotEndsWithSep(sep, segs[1..]);
        AtRightIff(x, tail, p, sep);
      } else if 0 <= p {
        assert j[|x| - 1] == '\n';
        NotAtOverSpace(j, p, sep, |x| - 1);
      }
    }
  }

  /** Nothing in trimmed text that does not end with the separator matches the trailing-separator pattern. */
  lemma NoTrailMatch(sep: string, t: string)
    requires ValidSeparator(sep) && |t| > 0 && !IsSpace(t[|t| - 1]) && !EndsWith(t, sep)
    ensures StripTrailingSep(sep, t) == t
  {
    forall i | 0 <= i && i + 2 <= |t| && t[i] == '\r' && t[i + 1] == '\n' ensures !TrailMatchAt(sep, t, i) {
      NoTrailMatchAt(sep, t, i, i + 2 + LeadingSpace(t[i + 2..]));
    }
  }

  lemma NoTrailMatchAt(sep: string, t: string, i: nat, d: nat)
    requires ValidSeparator(sep) && |t| > 0 && !IsSpace(t[|t| - 1]) && !EndsWith(t, sep)
    requires i + 2 <= |t| && d == i + 2 + LeadingSpace(t[i + 2..])
    ensures !TrailMatchAt(sep, t, i)
  {
    if d + |sep| < |t| {
      var rest := t[d + |sep|..];
      assert rest[|rest| - 1] == t[|t| - 1];
    }
  }

  /** A leading `SEP CRLF` before non-space text is what the leading-separator pattern removes. */
  lemma StripLeadingSepOf(sep: string, y: string)
    requires ValidSeparator(sep) && |y| > 0 && !IsSpace(y[0])
    ensures StripLeadingSep(sep, sep + CRLF + y) == y
  {
    var x := sep + CRLF + y;
    assert !IsSpace(x[0]);
    LeadingSpaceIs(x, 0);
    assert At(x, 0, sep);
    var rest := x[|sep|..];
    assert rest == CRLF + y;
    assert AllSpace(rest[..2]) && rest[2] == y[0];
    LeadingSpaceIs(rest, 2);
    assert rest[..2] == CRLF;
    assert LastCrlfEnd(CRLF) == 2;
    assert x[|sep| + 2..] == y;
  }

  /** Stripping `SEP CRLF j CRLF` drops the final line break. */
  lemma StripFramed(sep: string, j: string)
    requires NoSpace(sep) && |sep| > 0 && |j| > 0 && !IsSpace(j[|j| - 1])
    ensures Strip(sep + CRLF + j + CRLF) == sep + CRLF + j
  {
    var x := sep + CRLF + j;
    assert x[0] == sep[0] && x[|x| - 1] == j[|j| - 1];
    assert sep + CRLF + j + CRLF == "" + x + CRLF;
    StripPadded("", x, CRLF);
  }

  /** The first four repair steps take `SEP CRLF j CRLF` back to `j`. */
  lemma PipelineOfFramed(sep: string, j: string, r: string)
    requires ValidSeparator(sep) && r == sep + CRLF + j + CRLF && LfAfterCr(r)
    requires j != [] && Trimmed(j) && !EndsWith(j, sep)
    ensures StripTrailingSep(sep, StripLeadingSep(sep, Strip(Normalize(r)))) == j
  {
    NormalizeFixed(r);
    StripFramed(sep, j);
    StripLeadingSepOf(sep, j);
    NoTrailMatch(sep, j);
  }

  /** What the repair pipeline keeps of a rendering: the join of its segments. */
  lemma RepairPipelineOfRender(sep: string, segs: seq<string>)
    requires ValidSeparator(sep) && |segs| > 0 && AllSegments(sep, segs) && AllLfAfterCr(segs)
    ensures StripTrailingSep(sep, StripLeadingSep(sep, Strip(Normalize(Render(sep, segs)))))
         == Join(segs, Delimiter(sep))
  {
    var j := Join(segs, Delimiter(sep));
    JoinLfAfterCr(sep, segs);
    FramedLfAfterCr(sep, j);
    JoinTrimmed(sep, segs);
    JoinNotEndsWithSep(sep, segs);
    PipelineOfFramed(sep, j, Render(sep, segs));
  }

  /** Repairing a rendering of well-formed segments finds exactly those segments again. */
  lemma RepairedSegmentsOfRender(sep: string, segs: seq<string>)
    requires ValidSeparator(sep) && AllSegments(sep, segs) && AllLfAfterCr(segs)
    ensures RepairedSegments(sep, Render(sep, segs)) == segs
  {
    if segs == [] {
      RepairedSegmentsOfEmpty(sep);
    } else {
      RepairPipelineOfRender(sep, segs);
      SegmentsOfBareJoin(sep, segs);
    }
  }

  lemma RepairedSegmentsOfEmpty(sep: string)
    requires |sep| > 0
    ensures RepairedSegments(sep, "") == []
  {
    NormalizeEmpty();
    StripSepsEmpty(sep);
    SegmentsEmpty(sep);
  }

  lemma NormalizeEmpty()
    ensures Normalize("") == ""
  {
    ReplaceEmpty("\n", CRLF);
    ReplaceEmpty("\r\r\n", CRLF);
  }

  lemma ReplaceEmpty(pat: string, rep: string)
    requires |pat| > 0
    ensures Replace("", pat, rep) == ""
  {
    assert !At("", Find("", pat), pat);
  }

  lemma StripSepsEmpty(sep: string)
    requires |sep| > 0
    ensures StripTrailingSep(sep, StripLeadingSep(sep, Strip(""))) == ""
  {
    assert Strip("") == "";
    assert StripLeadingSep(sep, "") == "";
  }

  lemma SegmentsEmpty(sep: string)
    requires |sep| > 0
    ensures Segments(sep, "") == []
  {
    SplitNone("", sep);
    NonBlankCons("", []);
    assert [""] + [] == [""];
  }

  lemma SegmentsOfBareJoin(sep: string, segs: seq<string>)
    requires ValidSeparator(sep) && |segs| > 0 && AllSegments(sep, segs)
    ensures Segments(sep, Join(segs, Delimiter(sep))) == segs
  {
    var j := Join(segs, Delimiter(sep));
    assert "" + j + "" == j;
    SegmentsOfJoin(sep, "", segs, "");
  }

  // ---------------------------------------------------------------------------
  // Lemmas: what the repair guarantees

  /** Each repair step keeps the text normal: it takes slices. */
  lemma RepairInputInner(sep: string, t: string)
    requires |sep| > 0
    ensures InnerLfAfterCr(StripTrailingSep(sep, StripLeadingSep(sep, Strip(Normalize(t)))))
  {
    var n := Normalize(t);
    NormalizeCanonical(t);
    InnerStrip(n);
    InnerLeading(sep, Strip(n));
    InnerTrailing(sep, StripLeadingSep(sep, Strip(n)));
  }

  lemma InnerStrip(s: string)
    requires InnerLfAfterCr(s)
    ensures InnerLfAfterCr(Strip(s))
  {
    var a, b := StripSlice(s);
    InnerSlice(s, a, b);
  }

  lemma InnerLeading(sep: string, s: string)
    requires |sep| > 0 && InnerLfAfterCr(s)
    ensures InnerLfAfterCr(StripLeadingSep(sep, s))
  {
    var r := StripLeadingSep(sep, s);
    InnerSlice(s, |s| - |r|, |s|);
    assert r == s[|s| - |r|..|s|];
  }

  lemma InnerTrailing(sep: string, s: string)
    requires |sep| > 0 && InnerLfAfterCr(s)
    ensures InnerLfAfterCr(StripTrailingSep(sep, s))
  {
    var r := StripTrailingSep(sep, s);
    InnerSlice(s, 0, |r|);
    assert r == s[0..|r|];
  }

  /**
    The repaired segments are well formed: non-empty, trimmed, free of the
    separator, and with every line feed after a carriage return (formatters.py:20, 32).
   */
  lemma RepairedSegmentsValid(sep: string, t: string)
    requires |sep| > 0
    ensures AllSegments(sep, RepairedSegments(sep, t)) && AllLfAfterCr(RepairedSegments(sep, t))
  {
    var u := StripTrailingSep(sep, StripLeadingSep(sep, Strip(Normalize(t))));
    RepairInputInner(sep, t);
    SegmentsAreSegments(sep, u);
    SegmentsLfAfterCr(sep, u);
  }

  /**
    The output is empty or the rendering of well-formed segments: `SEP CRLF`, the
    segments joined by `CRLF SEP CRLF`, and a final CRLF (formatters.py:35-39).
   */
  lemma RepairIsRendering(sep: string, t: string)
    requires ValidSeparator(sep)
    ensures var segs := RepairedSegments(sep, t);
      AllSegments(sep, segs) && AllLfAfterCr(segs) && Repair(sep, t) == (if t == [] then "" else Render(sep, segs))
  {
    RepairedSegmentsValid(sep, t);
  }

  /** Repair is idempotent (formatters.py:14-39). */
  lemma RepairIdempotent(sep: string, t: string)
    requires ValidSeparator(sep)
    ensures Repair(sep, Repair(sep, t)) == Repair(sep, t)
  {
    if t != [] {
      var segs := RepairedSegments(sep, t);
      RepairedSegmentsValid(sep, t);
      RepairedSegmentsOfRender(sep, segs);
      if segs != [] {
        assert Render(sep, segs)[0] == sep[0];
      }
    }
  }

  /** A rendering of well-formed segments is left as it is. */
  lemma RepairRendered(sep: string, segs: seq<string>)
    requires ValidSeparator(sep) && AllSegments(sep, segs) && AllLfAfterCr(segs)
    ensures Repair(sep, Render(sep, segs)) == Render(sep, segs)
  {
    RepairedSegmentsOfRender(sep, segs);
  }

  lemma TrailMatchAtCrlf(sep: string, j: string)
    requires ValidSeparator(sep)
    ensures TrailMatchAt(sep, j + CRLF + sep, |j|)
  {
    var t := j + CRLF + sep;
    assert t[|j| + 2..] == sep;
    LeadingSpaceIs(sep, 0);
    assert t[|j| + 2 + |sep|..] == "";
  }

  /** Before the last two characters of `j`, the whitespace run stops inside `j` and `SEP` ends the text. */
  lemma NoTrailMatchInside(sep: string, t: string, n: nat, i: nat)
    requires ValidSeparator(sep) && i + 2 < n <= |t| && !IsSpace(t[n - 1]) && !IsSpace(t[|t| - 1]) && n + |sep| < |t|
    ensures !TrailMatchAt(sep, t, i)
  {
    var w := t[i + 2..];
    assert w[n - 1 - (i + 2)] == t[n - 1];
    LeadingSpaceBound(w, n - 1 - (i + 2));
    var d := i + 2 + LeadingSpace(w);
    assert t[d + |sep|..][|t| - d - |sep| - 1] == t[|t| - 1];
  }

  lemma NoTrailMatchBefore(sep: string, j: string)
    requires ValidSeparator(sep) && j != [] && Trimmed(j)
    ensures forall i | 0 <= i < |j| :: !TrailMatchAt(sep, j + CRLF + sep, i)
  {
    var t := j + CRLF + sep;
    assert t[|j| - 1] == j[|j| - 1];
    assert t[|t| - 1] == sep[|sep| - 1];
    forall i | 0 <= i < |j| ensures !TrailMatchAt(sep, t, i) {
      if i + 2 < |j| {
        NoTrailMatchInside(sep, t, |j|, i);
      }
    }
  }

  /** In `j CRLF SEP` the trailing-separator pattern first matches at the CRLF, so exactly `j` is left. */
  lemma StripTrailingSepOf(sep: string, j: string)
    requires ValidSeparator(sep) && j != [] && Trimmed(j)
    ensures StripTrailingSep(sep, j + CRLF + sep) == j
  {
    TrailMatchAtCrlf(sep, j);
    NoTrailMatchBefore(sep, j);
    assert (j + CRLF + sep)[..|j|] == j;
  }

  /** The first four repair steps take `SEP CRLF j CRLF SEP CRLF` back to `j`. */
  lemma PipelineOfTrailed(sep: string, j: string, r: string)
    requires ValidSeparator(sep) && r == sep + CRLF + j + CRLF + sep + CRLF && LfAfterCr(r)
    requires j != [] && Trimmed(j)
    ensures StripTrailingSep(sep, StripLeadingSep(sep, Strip(Normalize(r)))) == j
  {
    NormalizeFixed(r);
    var y := j + CRLF + sep;
    var x := sep + CRLF + y;
    assert r == "" + x + CRLF;
    assert x[0] == sep[0] && x[|x| - 1] == sep[|sep| - 1];
    StripPadded("", x, CRLF);
    assert y[0] == j[0];
    StripLeadingSepOf(sep, y);
    StripTrailingSepOf(sep, j);
  }

  /**
    A separator line after the last segment is dropped: the output has no trailing
    separator line (formatters.py:29, 39).
   */
  lemma RepairDropsTrailingSep(sep: string, segs: seq<string>)
    requires ValidSeparator(sep) && segs != [] && AllSegments(sep, segs) && AllLfAfterCr(segs)
    ensures Repair(sep, Render(sep, segs) + sep + CRLF) == Render(sep, segs)
  {
    var j := Join(segs, Delimiter(sep));
    var r := Render(sep, segs) + sep + CRLF;
    assert LfAfterCr(r) by {
      RenderLfAfterCr(sep, segs);
      DelimiterLfAfterCr(sep);
      LfAfterCrConcat(Render(sep, segs), sep + CRLF);
    }
    JoinTrimmed(sep, segs);
    PipelineOfTrailed(sep, j, r);
    SegmentsOfBareJoin(sep, segs);
  }

  /** Text without the separator repairs to a single segment: its normalised, trimmed self (formatters.py:20-39). */
  lemma RepairNoSeparator(sep: string, t: string)
    requires ValidSeparator(sep) && Free(t, sep) && Strip(Normalize(t)) != []
    ensures Repair(sep, t) == sep + CRLF + Strip(Normalize(t)) + CRLF
  {
    NormalizeEmpty();
    assert Strip("") == "";
    assert t != [];
    var x := Strip(Normalize(t));
    NormalizedStripFree(sep, t);
    StripSepsOfFree(sep, x);
    SegmentsOfSingle(sep, x);
    assert Join([x], Delimiter(sep)) == x;
  }

  lemma NormalizedStripFree(sep: string, t: string)
    requires ValidSeparator(sep) && Free(t, sep)
    ensures Free(Strip(Normalize(t)), sep)
  {
    var n := Normalize(t);
    ReplaceKeepsFree(t, "\n", CRLF, sep);
    ReplaceKeepsFree(Replace(t, "\n", CRLF), "\r\r\n", CRLF, sep);
    var a, b := StripSlice(n);
    FreeSlice(n, sep, a, b);
  }

  /** A trimmed text without the separator has no leading or trailing separator to strip. */
  lemma StripSepsOfFree(sep: string, x: string)
    requires ValidSeparator(sep) && Free(x, sep) && x != [] && Trimmed(x)
    ensures StripTrailingSep(sep, StripLeadingSep(sep, x)) == x
  {
    LeadingSpaceIs(x, 0);
    assert StripLeadingSep(sep, x) == x;
    assert StripTrailingSep(sep, x) == x;
  }

  lemma SegmentsOfSingle(sep: string, x: string)
    requires ValidSeparator(sep) && Free(x, sep) && x != [] && Trimmed(x)
    ensures Segments(sep, x) == [x]
  {
    assert "" + x + "" == x;
    SegmentsOfOne(sep, "", x, "");
  }

  lemma FramedNotEndsWithSep(sep: string, j: string)
    requires NoSpace(sep) && |sep| > 0 && j != [] && !EndsWith(j, sep)
    ensures !EndsWith(sep + CRLF + j, sep)
  {
    var h := sep + CRLF;
    var x := h + j;
    var p := |x| - |sep|;
    if |sep| <= |j| {
      AtRightIff(h, j, p, sep);
    } else {
      assert x[|sep| + 1] == '\n';
      NotAtOverSpace(x, p, sep, |sep| + 1);
    }
  }

  /**
    A non-empty rendering starts with `SEP CRLF`, ends with `CRLF`, and does not end
    with a separator line `CRLF SEP CRLF` (formatters.py:35-39).
   */
  lemma RenderShape(sep: string, segs: seq<string>)
    requires ValidSeparator(sep) && segs != [] && AllSegments(sep, segs)
    ensures StartsWith(Render(sep, segs), sep + CRLF)
    ensures EndsWith(Render(sep, segs), CRLF)
    ensures !EndsWith(Render(sep, segs), Delimiter(sep))
  {
    var j := Join(segs, Delimiter(sep));
    var x := sep + CRLF + j;
    var r := x + CRLF;
    assert r == Render(sep, segs);
    assert r[..|sep| + 2] == sep + CRLF;
    assert r[|r| - 2..] == CRLF;
    JoinTrimmed(sep, segs);
    JoinNotEndsWithSep(sep, segs);
    FramedNotEndsWithSep(sep, j);
    DelimiterNotAtEnd(x, sep);
  }

  /** A text that does not end with the separator gains no separator line from a final CRLF. */
  lemma DelimiterNotAtEnd(x: string, sep: string)
    requires |sep| > 0 && !EndsWith(x, sep)
    ensures !EndsWith(x + CRLF, Delimiter(sep))
  {
    var r := x + CRLF;
    var d := Delimiter(sep);
    assert d[2..2 + |sep|] == sep;
    if |d| <= |r| {
      var i := |r| - |d|;
      AtSub(r, i, d, 2, 2 + |sep|);
      assert i + 2 == |x| - |sep|;
      AtLeftIff(x, CRLF, |x| - |sep|, sep);
    }
  }

  lemma NoLfFind(t: string)
    requires forall k | 0 <= k < |t| :: t[k] != '\n'
    ensures Find(t, "\n") == -1
  {
    forall j ensures !At(t, j, "\n") {
      if 0 <= j < |t| {
        assert t[j + 0] != "\n"[0];
      }
    }
  }

  /** A single line feed not after a carriage return gains one; the rest is untouched. */
  lemma NormalizeOneLf(a: string, b: string)
    requires forall k | 0 <= k < |a| :: a[k] != '\n'
    requires forall k | 0 <= k < |b| :: b[k] != '\n'
    requires a != [] && a[|a| - 1] != '\r'
    ensures Normalize(a + "\n" + b) == a + CRLF + b
  {
    var t := a + "\n" + b;
    forall j | 0 <= j < |a| ensures !At(t, j, "\n") {
      assert t[j + 0] == a[j];
    }
    assert t[|a| + 0] == '\n';
    FindIs(t, "\n", |a|);
    NormalizeStep(t, |a|);
    assert t[..|a|] == a && t[|a| + 1..] == b && t[|a| - 1] == a[|a| - 1];
    NoLfFind(b);
    NormalizeNoLf(b);
  }

  lemma NormalizeHello(t: string)
    requires t == "Hello.\nGoodbye."
    ensures Normalize(t) == "Hello.\r\nGoodbye."
  {
    HelloSplit();
    NormalizeOneLf("Hello.", "Goodbye.");
  }

  lemma HelloSplit()
    ensures "Hello.\nGoodbye." == "Hello." + "\n" + "Goodbye."
    ensures "Hello.\r\nGoodbye." == "Hello." + CRLF + "Goodbye."
  {
  }

  lemma RepairHello(t: string)
    requires t == "Hello.\nGoodbye."
    ensures Repair(DefaultSeparator, t) == DefaultSeparator + CRLF + "Hello.\r\nGoodbye." + CRLF
  {
    DefaultSeparatorValid();
    FreeOfFirst(t, DefaultSeparator);
    NormalizeHello(t);
    var n := Normalize(t);
    assert Trimmed(n);
    StripTrimmed(n);
    RepairNoSeparator(DefaultSeparator, t);
  }

  lemma HelloRendered()
    ensures DefaultSeparator + CRLF + "Hello.\r\nGoodbye." + CRLF == "//////\r\nHello.\r\nGoodbye.\r\n"
  {
  }

  /** `"Hello.\nGoodbye."` has no separator and becomes one segment. */
  lemma ExampleNoSeparator(t: string)
    requires t == "Hello.\nGoodbye."
    ensures Repair(DefaultSeparator, t) == "//////\r\nHello.\r\nGoodbye.\r\n"
  {
    RepairHello(t);
    HelloRendered();
  }

  lemma HiIsSegment()
    ensures AllSegments(DefaultSeparator, ["Hi"]) && AllLfAfterCr(["Hi"])
  {
    DefaultSeparatorValid();
    FreeOfFirst("Hi", DefaultSeparator);
    assert IsSegment(DefaultSeparator, "Hi");
  }

  lemma RenderHi()
    ensures Render(DefaultSeparator, ["Hi"]) + DefaultSeparator + CRLF == "//////\r\nHi\r\n//////\r\n"
    ensures Render(DefaultSeparator, ["Hi"]) == "//////\r\nHi\r\n"
  {
    assert Join(["Hi"], Delimiter(DefaultSeparator)) == "Hi";
  }

  /** `"//////\r\nHi\r\n//////\r\n"` loses its trailing separator line. */
  lemma ExampleTrailingSeparator()
    ensures Repair(DefaultSeparator, "//////\r\nHi\r\n//////\r\n") == "//////\r\nHi\r\n"
  {
    DefaultSeparatorValid();
    HiIsSegment();
    RenderHi();
    RepairDropsTrailingSep(DefaultSeparator, ["Hi"]);
  }
}
