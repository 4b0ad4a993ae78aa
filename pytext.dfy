/**
  The parts of Python's `str` type that the gateway relies on, as total functions
  on `string`. A Dafny `string` is a sequence of Unicode scalar values, as a Python
  `str` is a sequence of code points, so lengths and indices agree.
 */
module PyText {

  const CRLF: string := "\r\n"

  /** `str.isspace()`; the same set is used by `\s`, `str.strip()` and `str.split()`. */
  predicate IsSpace(c: char) {
    c == ' ' || '\t' <= c <= '\r' || '\U{1C}' <= c <= '\U{1F}' || c == '\U{85}' || c == '\U{A0}' ||
    c == '\U{1680}' || '\U{2000}' <= c <= '\U{200A}' || c == '\U{2028}' || c == '\U{2029}' ||
    c == '\U{202F}' || c == '\U{205F}' || c == '\U{3000}'
  }

  predicate AllSpace(s: string) {
    forall k | 0 <= k < |s| :: IsSpace(s[k])
  }

  predicate NoSpace(s: string) {
    forall k | 0 <= k < |s| :: !IsSpace(s[k])
  }

  /** A line break is whitespace. */
  lemma CrlfSpace()
    ensures AllSpace(CRLF) && IsSpace('\r') && IsSpace('\n')
  {
    assert CRLF[0] == '\r' && CRLF[1] == '\n';
  }

  /** Neither end of `s` is whitespace: what `str.strip()` returns. */
  predicate Trimmed(s: string) {
    s == [] || (!IsSpace(s[0]) && !IsSpace(s[|s| - 1]))
  }

  /** The length of the longest all-whitespace prefix. */
  function LeadingSpace(s: string): (n: nat)
    ensures n <= |s| && AllSpace(s[..n])
    ensures n < |s| ==> !IsSpace(s[n])
  {
    if s == [] || !IsSpace(s[0]) then 0
    else
      var m := LeadingSpace(s[1..]);
      assert forall k | 1 <= k < 1 + m :: s[k] == s[1..][..m][k - 1];
      1 + m
  }

  /** Where a greedy `\s*` that starts at `i` ends. */
  function SkipSpace(s: string, i: nat): (j: nat)
    requires i <= |s|
    ensures i <= j <= |s|
  {
    i + LeadingSpace(s[i..])
  }

  /** The length of the longest all-whitespace suffix. */
  function TrailingSpace(s: string): (n: nat)
    ensures n <= |s| && AllSpace(s[|s| - n..])
    ensures n < |s| ==> !IsSpace(s[|s| - n - 1])
  {
    if s == [] || !IsSpace(s[|s| - 1]) then 0
    else
      var m := TrailingSpace(s[..|s| - 1]);
      SpaceSuffixGrows(s, m);
      1 + m
  }

  /** A whitespace suffix of `s` without its last character, with that character, is one of `s`. */
  lemma SpaceSuffixGrows(s: string, m: nat)
    requires m < |s| && AllSpace(s[..|s| - 1][|s| - 1 - m..]) && IsSpace(s[|s| - 1])
    ensures AllSpace(s[|s| - 1 - m..])
    ensures m + 1 < |s| ==> s[|s| - m - 2] == s[..|s| - 1][|s| - 1 - m - 1]
  {
    var t := s[..|s| - 1];
    var u := s[|s| - 1 - m..];
    forall k | 0 <= k < |u| ensures IsSpace(u[k]) {
      if k < m {
        assert u[k] == t[|s| - 1 - m..][k];
      }
    }
  }

  /** `str.strip()` with no argument. */
  function Strip(s: string): (r: string)
    ensures Trimmed(r)
  {
    var t := s[LeadingSpace(s)..];
    t[..|t| - TrailingSpace(t)]
  }

  /** `str.lstrip(chars)`: drops leading characters that occur in `chars` (a set, not a prefix). */
  function LStripChars(s: string, chars: string): (r: string)
    ensures |r| <= |s| && r == s[|s| - |r|..]
    ensures r == [] || r[0] !in chars
    ensures forall k | 0 <= k < |s| - |r| :: s[k] in chars
  {
    if s != [] && s[0] in chars then LStripChars(s[1..], chars) else s
  }

  /** `p` occurs in `s` at index `i`. */
  predicate At(s: string, i: int, p: string) {
    0 <= i && i + |p| <= |s| && forall k | 0 <= k < |p| :: s[i + k] == p[k]
  }

  /** `p` occurs nowhere in `s`. */
  ghost predicate Free(s: string, p: string) {
    forall j :: !At(s, j, p)
  }

  predicate StartsWith(s: string, p: string) {
    At(s, 0, p)
  }

  predicate EndsWith(s: string, p: string) {
    |p| <= |s| && At(s, |s| - |p|, p)
  }

  /** `s.find(p, i)`: the first index at or after `i` where `p` occurs, or -1. */
  function FindFrom(s: string, p: string, i: nat): (r: int)
    decreases |s| - i
    ensures r == -1 || (i <= r && At(s, r, p))
    ensures r == -1 ==> forall j :: i <= j ==> !At(s, j, p)
    ensures r >= 0 ==> forall j :: i <= j < r ==> !At(s, j, p)
  {
    if i + |p| > |s| then -1
    else if At(s, i, p) then i
    else FindFrom(s, p, i + 1)
  }

  /** `s.find(p)`. */
  function Find(s: string, p: string): (r: int)
    ensures r == -1 || At(s, r, p)
    ensures r == -1 ==> forall j :: !At(s, j, p)
    ensures r >= 0 ==> forall j :: j < r ==> !At(s, j, p)
  {
    FindFrom(s, p, 0)
  }

  /** `s.split(sep)`: the pieces between non-overlapping occurrences, left to right. */
  function Split(s: string, sep: string): (r: seq<string>)
    requires |sep| > 0
    decreases |s|
    ensures |r| >= 1
  {
    var i := Find(s, sep);
    if i < 0 then [s] else [s[..i]] + Split(s[i + |sep|..], sep)
  }

  /** `d.join(parts)`. */
  function Join(parts: seq<string>, d: string): string {
    if |parts| == 0 then ""
    else if |parts| == 1 then parts[0]
    else parts[0] + d + Join(parts[1..], d)
  }

  /** `s.replace(pat, rep)`: non-overlapping occurrences, left to right. */
  function Replace(s: string, pat: string, rep: string): string
    requires |pat| > 0
    decreases |s|
  {
    var i := Find(s, pat);
    if i < 0 then s else s[..i] + rep + Replace(s[i + |pat|..], pat, rep)
  }

  /** `s.split()` with no argument: the maximal runs of non-whitespace characters. */
  function Words(s: string): (r: seq<string>)
    decreases |s|
    ensures forall k | 0 <= k < |r| :: r[k] != [] && NoSpace(r[k])
  {
    var t := s[LeadingSpace(s)..];
    if t == [] then []
    else
      var n := WordLength(t);
      [t[..n]] + Words(t[n..])
  }

  /** The length of the longest whitespace-free prefix. */
  function WordLength(s: string): (n: nat)
    ensures n <= |s| && NoSpace(s[..n])
    ensures n < |s| ==> IsSpace(s[n])
  {
    if s == [] || IsSpace(s[0]) then 0
    else
      var m := WordLength(s[1..]);
      assert s[..1 + m] == [s[0]] + s[1..][..m];
      1 + m
  }

  /**
    The character equivalence `re.IGNORECASE` applies: ASCII letters, plus the
    non-ASCII characters that `re` treats as equal to ASCII ones (dotted and
    dotless I, long s, Kelvin sign).
   */
  function Fold(c: char): char {
    if 'A' <= c <= 'Z' then (c as int + 32) as char
    else if c == '\U{130}' || c == '\U{131}' then 'i'
    else if c == '\U{17F}' then 's'
    else if c == '\U{212A}' then 'k'
    else c
  }

  /** `p` matches `s` at index `i` under `re.IGNORECASE`. */
  predicate AtFold(s: string, i: int, p: string) {
    0 <= i && i + |p| <= |s| && forall k | 0 <= k < |p| :: Fold(s[i + k]) == Fold(p[k])
  }

  /** A case-insensitive `FindFrom`, as `re.IGNORECASE` searches. */
  function FindFoldFrom(s: string, p: string, i: nat): (r: int)
    decreases |s| - i
    ensures r == -1 || (i <= r && AtFold(s, r, p))
    ensures r == -1 ==> forall j :: i <= j ==> !AtFold(s, j, p)
    ensures r >= 0 ==> forall j :: i <= j < r ==> !AtFold(s, j, p)
  {
    if i + |p| > |s| then -1
    else if AtFold(s, i, p) then i
    else FindFoldFrom(s, p, i + 1)
  }

  // ---------------------------------------------------------------------------
  // Lemmas about the helpers

  lemma {:induction false} LeadingSpaceIs(s: string, n: nat)
    requires n <= |s| && AllSpace(s[..n]) && (n < |s| ==> !IsSpace(s[n]))
    ensures LeadingSpace(s) == n
  {
    if n > 0 {
      assert IsSpace(s[..n][0]);
      assert s[1..][..n - 1] == s[..n][1..];
      LeadingSpaceIs(s[1..], n - 1);
    }
  }

  /** The whitespace suffix is the one that cannot be extended: neither a shorter nor a longer one qualifies. */
  lemma TrailingSpaceIs(s: string, n: nat)
    requires n <= |s| && AllSpace(s[|s| - n..]) && (n < |s| ==> !IsSpace(s[|s| - n - 1]))
    ensures TrailingSpace(s) == n
  {
  }

  /** Stripping whitespace padding off a trimmed string gives that string back. */
  lemma StripPadded(w1: string, x: string, w2: string)
    requires AllSpace(w1) && AllSpace(w2) && Trimmed(x)
    ensures Strip(w1 + x + w2) == x
  {
    var s := w1 + x + w2;
    if x == [] {
      assert AllSpace(s) by {
        forall k | 0 <= k < |s| ensures IsSpace(s[k]) {
          if k < |w1| { assert s[k] == w1[k]; } else { assert s[k] == w2[k - |w1|]; }
        }
      }
      assert s[..|s|] == s;
      LeadingSpaceIs(s, |s|);
    } else {
      assert s[..|w1|] == w1;
      assert s[|w1|] == x[0];
      LeadingSpaceIs(s, |w1|);
      var t := s[|w1|..];
      assert t == x + w2;
      assert t[|t| - |w2|..] == w2;
      assert t[|t| - |w2| - 1] == x[|x| - 1];
      TrailingSpaceIs(t, |w2|);
      assert t[..|t| - |w2|] == x;
    }
  }

  lemma StripTrimmed(x: string)
    requires Trimmed(x)
    ensures Strip(x) == x
  {
    StripPadded("", x, "");
    assert "" + x + "" == x;
  }

  /** `Strip(s)` is the slice `s[a..b]` with whitespace on both sides. */
  lemma StripSlice(s: string) returns (a: nat, b: nat)
    ensures a <= b <= |s| && Strip(s) == s[a..b]
    ensures AllSpace(s[..a]) && AllSpace(s[b..])
  {
    a := LeadingSpace(s);
    var t := s[a..];
    var n := TrailingSpace(t);
    b := |s| - n;
    assert t[..|t| - n] == s[a..b];
    assert forall k | 0 <= k < |s| - b :: s[b..][k] == t[|t| - n..][k];
  }

  lemma FindIs(s: string, p: string, k: nat)
    requires At(s, k, p)
    requires forall j :: 0 <= j < k ==> !At(s, j, p)
    ensures Find(s, p) == k
  {
  }

  lemma FreeSlice(s: string, p: string, a: nat, b: nat)
    requires a <= b <= |s| && Free(s, p)
    ensures Free(s[a..b], p)
  {
    forall j | 0 <= j && j + |p| <= b - a ensures !At(s[a..b], j, p) {
      assert !At(s, a + j, p);
      assert forall k | 0 <= k < |p| :: s[a..b][j + k] == p[k] <==> s[a + j + k] == p[k];
    }
  }

  /** An occurrence of a whitespace-free pattern never covers a whitespace character. */
  lemma NotAtOverSpace(s: string, j: int, p: string, k: int)
    requires NoSpace(p) && 0 <= k < |s| && IsSpace(s[k]) && j <= k < j + |p|
    ensures !At(s, j, p)
  {
    assert !IsSpace(p[k - j]);
  }

  /** Occurrences inside the left part of a concatenation are occurrences in that part. */
  lemma AtLeftIff(a: string, b: string, j: int, p: string)
    requires j + |p| <= |a|
    ensures At(a + b, j, p) <==> At(a, j, p)
  {
    if 0 <= j {
      assert forall k | 0 <= k < |p| :: (a + b)[j + k] == p[k] <==> a[j + k] == p[k];
    }
  }

  /** Occurrences inside the right part of a concatenation are occurrences in that part. */
  lemma AtRightIff(a: string, b: string, j: int, p: string)
    requires |a| <= j
    ensures At(a + b, j, p) <==> At(b, j - |a|, p)
  {
    assert forall k | 0 <= k < |p| && j + k < |a + b| :: (a + b)[j + k] == p[k] <==> b[j - |a| + k] == p[k];
  }

  /** Whitespace between two pattern-free strings cannot create an occurrence of a whitespace-free pattern. */
  lemma FreeAcrossSpace(a: string, w: string, b: string, p: string)
    requires Free(a, p) && Free(b, p) && AllSpace(w) && |w| > 0 && NoSpace(p) && |p| > 0
    ensures Free(a + w + b, p)
  {
    var s := a + w + b;
    forall j ensures !At(s, j, p) {
      if j + |p| <= |a| {
        assert s == a + (w + b);
        AtLeftIff(a, w + b, j, p);
      } else if |a| + |w| <= j {
        AtRightIff(a + w, b, j, p);
      } else if j <= |a| {
        assert s[|a|] == w[0];
        NotAtOverSpace(s, j, p, |a|);
      } else {
        assert s[j] == w[j - |a|];
        NotAtOverSpace(s, j, p, j);
      }
    }
  }

  /** A pattern that does not start with a character of `s` does not occur in it. */
  lemma FreeOfFirst(s: string, p: string)
    requires |p| > 0 && p[0] !in s
    ensures Free(s, p)
  {
  }

  /** Replacing a pattern by something non-empty and all-whitespace cannot create a whitespace-free pattern. */
  lemma {:induction false} ReplaceKeepsFree(s: string, pat: string, rep: string, p: string)
    requires |pat| > 0 && |p| > 0 && NoSpace(p) && AllSpace(rep) && |rep| > 0 && Free(s, p)
    ensures Free(Replace(s, pat, rep), p)
    decreases |s|
  {
    var i := Find(s, pat);
    if i >= 0 {
      var rest := s[i + |pat|..];
      FreeSlice(s, p, i + |pat|, |s|);
      assert rest == s[i + |pat|..|s|];
      ReplaceKeepsFree(rest, pat, rep, p);
      FreeSlice(s, p, 0, i);
      FreeAcrossSpace(s[..i], rep, Replace(rest, pat, rep), p);
    }
  }
  /** The first occurrence in `x + y`, when none starts inside `x`, is the first one in `y`, shifted. */
  lemma FindShift(x: string, y: string, p: string)
    requires forall j :: j < |x| ==> !At(x + y, j, p)
    ensures Find(x + y, p) == (if Find(y, p) < 0 then -1 else |x| + Find(y, p))
  {
    var k := Find(y, p);
    forall j | |x| <= j ensures At(x + y, j, p) <==> At(y, j - |x|, p) {
      AtRightIff(x, y, j, p);
    }
    if k >= 0 {
      FindIs(x + y, p, |x| + k);
    }
  }

  /** Replacing in `x + y`, when no occurrence starts inside `x`, leaves `x` alone. */
  lemma ReplaceShift(x: string, y: string, pat: string, rep: string)
    requires |pat| > 0
    requires forall j :: j < |x| ==> !At(x + y, j, pat)
    ensures Replace(x + y, pat, rep) == x + Replace(y, pat, rep)
  {
    FindShift(x, y, pat);
    if Find(y, pat) >= 0 {
      ReplaceShiftFound(x, y, pat, rep);
    }
  }

  lemma ReplaceShiftFound(x: string, y: string, pat: string, rep: string)
    requires |pat| > 0
    requires Find(y, pat) >= 0 && Find(x + y, pat) == |x| + Find(y, pat)
    ensures Replace(x + y, pat, rep) == x + Replace(y, pat, rep)
  {
    var k := Find(y, pat);
    var s := x + y;
    var i := |x| + k;
    var t := Replace(y[k + |pat|..], pat, rep);
    ConcatSlices(x, y, k, |pat|);
    var u := s[..i];
    var v := s[i + |pat|..];
    assert v == y[k + |pat|..];
    assert Replace(v, pat, rep) == t;
    ReplaceAt(s, pat, rep, i);
    assert Replace(s, pat, rep) == u + rep + t;
    assert u == x + y[..k];
    ReplaceAt(y, pat, rep, k);
    ConcatAssoc(x, y[..k], rep, t);
  }

  /** One step of `Replace` at a known first occurrence. */
  lemma ReplaceAt(s: string, pat: string, rep: string, i: nat)
    requires |pat| > 0 && Find(s, pat) == i
    ensures Replace(s, pat, rep) == s[..i] + rep + Replace(s[i + |pat|..], pat, rep)
  {
    assert i >= 0;
  }

  lemma ConcatSlices(x: string, y: string, k: nat, m: nat)
    requires k + m <= |y|
    ensures (x + y)[..|x| + k] == x + y[..k] && (x + y)[|x| + k + m..] == y[k + m..]
  {
  }

  lemma ConcatAssoc(a: string, b: string, c: string, d: string)
    ensures a + b + c + d == a + (b + c + d)
  {
  }

  /** A whitespace-free string is one word. */
  lemma WordLengthIs(s: string, n: nat)
    requires n <= |s| && NoSpace(s[..n]) && (n < |s| ==> IsSpace(s[n]))
    ensures WordLength(s) == n
    decreases n
  {
    if n > 0 {
      assert !IsSpace(s[..n][0]);
      assert s[1..][..n - 1] == s[..n][1..];
      WordLengthIs(s[1..], n - 1);
    }
  }

  /** Joining non-empty whitespace-free words with single spaces and splitting again gives the words back. */
  lemma {:induction false} WordsOfJoin(w: seq<string>)
    requires forall k | 0 <= k < |w| :: w[k] != [] && NoSpace(w[k])
    ensures Words(Join(w, " ")) == w
    decreases |w|
  {
    if |w| == 1 {
      var s := w[0];
      LeadingSpaceIs(s, 0);
      assert s[..|s|] == s;
      WordLengthIs(s, |s|);
      assert s[|s|..] == [];
    } else if |w| > 1 {
      WordsOfJoin(w[1..]);
      JoinHead(w[1..], " ");
      WordsCons(w[0], Join(w[1..], " "));
      assert w == [w[0]] + w[1..];
    }
  }

  /** A word, a space and a text that starts with a non-space character split into that word and the text's words. */
  lemma WordsCons(x: string, rest: string)
    requires x != [] && NoSpace(x) && rest != [] && !IsSpace(rest[0])
    ensures Words(x + " " + rest) == [x] + Words(rest)
  {
    assert x + " " + rest == x + (" " + rest);
    WordsHead(x, " " + rest);
    WordsAfterSpace(rest);
  }

  /** A leading word ends at the first whitespace character. */
  lemma WordsHead(x: string, u: string)
    requires x != [] && NoSpace(x) && u != [] && IsSpace(u[0])
    ensures Words(x + u) == [x] + Words(u)
  {
    var s := x + u;
    assert s[0] == x[0];
    LeadingSpaceIs(s, 0);
    assert s[0..] == s;
    assert s[..|x|] == x;
    WordLengthIs(s, |x|);
    assert s[|x|..] == u;
  }

  /** A single leading space is skipped. */
  lemma WordsAfterSpace(rest: string)
    requires rest != [] && !IsSpace(rest[0])
    ensures Words(" " + rest) == Words(rest)
  {
    var u := " " + rest;
    assert u[..1] == " ";
    LeadingSpaceIs(u, 1);
    assert u[1..] == rest;
    LeadingSpaceIs(rest, 0);
    assert rest[0..] == rest;
  }

  /** A join of non-empty parts starts with the first part's first character and ends with the last part's last one. */
  lemma {:induction false} JoinHead(w: seq<string>, d: string)
    requires |w| > 0 && forall k | 0 <= k < |w| :: w[k] != []
    ensures |Join(w, d)| > 0 && Join(w, d)[0] == w[0][0]
    ensures Join(w, d)[|Join(w, d)| - 1] == w[|w| - 1][|w[|w| - 1]| - 1]
    decreases |w|
  {
    if |w| > 1 {
      JoinHead(w[1..], d);
    }
  }

  /** Single spacing: every whitespace character is a plain space between two non-whitespace characters. */
  predicate SingleSpaced(s: string) {
    forall k | 0 <= k < |s| && IsSpace(s[k]) :: s[k] == ' ' && 0 < k < |s| - 1 && !IsSpace(s[k - 1]) && !IsSpace(s[k + 1])
  }

  /** Words joined by single spaces are trimmed and single-spaced. */
  lemma {:induction false} JoinSingleSpaced(w: seq<string>)
    requires forall k | 0 <= k < |w| :: w[k] != [] && NoSpace(w[k])
    ensures Trimmed(Join(w, " ")) && SingleSpaced(Join(w, " "))
    decreases |w|
  {
    if |w| > 1 {
      JoinSingleSpaced(w[1..]);
      JoinHead(w[1..], " ");
      var rest := Join(w[1..], " ");
      var s := w[0] + " " + rest;
      forall k | 0 <= k < |s| && IsSpace(s[k])
        ensures s[k] == ' ' && 0 < k < |s| - 1 && !IsSpace(s[k - 1]) && !IsSpace(s[k + 1])
      {
        if k > |w[0]| {
          assert s[k] == rest[k - |w[0]| - 1];
          assert s[k - 1] == rest[k - |w[0]| - 2];
          assert s[k + 1] == rest[k - |w[0]|];
        } else {
          assert k == |w[0]|;
        }
      }
    }
  }
  /** The first piece of a split is free of the separator. */
  lemma SplitHeadFree(s: string, sep: string, i: nat)
    requires |sep| > 0 && Find(s, sep) == i
    ensures Free(s[..i], sep)
  {
    forall j | 0 <= j && j + |sep| <= i ensures !At(s[..i], j, sep) {
      assert s[..i] + s[i..] == s;
      AtLeftIff(s[..i], s[i..], j, sep);
    }
  }

  /** A whitespace character at index `k` bounds the leading whitespace run. */
  lemma {:induction false} LeadingSpaceBound(s: string, k: nat)
    requires k < |s| && !IsSpace(s[k])
    ensures LeadingSpace(s) <= k
    decreases k
  {
    if k > 0 && IsSpace(s[0]) {
      LeadingSpaceBound(s[1..], k - 1);
    }
  }

  /** Whitespace padding around a pattern-free string cannot create an occurrence of a whitespace-free pattern. */
  lemma FreePadded(w1: string, x: string, w2: string, p: string)
    requires AllSpace(w1) && AllSpace(w2) && Free(x, p) && NoSpace(p) && |p| > 0
    ensures Free(w1 + x + w2, p)
  {
    var s := w1 + x + w2;
    forall j | 0 <= j && j + |p| <= |s| ensures !At(s, j, p) {
      if j < |w1| {
        assert s[j] == w1[j];
        NotAtOverSpace(s, j, p, j);
      } else if j + |p| <= |w1| + |x| {
        AtLeftIff(w1 + x, w2, j, p);
        AtRightIff(w1, x, j, p);
      } else {
        var k := if j < |w1| + |x| then |w1| + |x| else j;
        assert s[k] == w2[k - |w1| - |x|];
        NotAtOverSpace(s, j, p, k);
      }
    }
  }

  /** An occurrence contains occurrences of each of its slices. */
  lemma AtSub(s: string, i: int, p: string, a: nat, b: nat)
    requires a <= b <= |p|
    ensures At(s, i, p) ==> At(s, i + a, p[a..b])
  {
    if At(s, i, p) {
      forall k | 0 <= k < b - a ensures s[i + a + k] == p[a..b][k] {
        assert s[i + (a + k)] == p[a + k];
      }
    }
  }
  /** One step of `Split` at a known first occurrence. */
  lemma SplitAt(s: string, sep: string, i: nat)
    requires |sep| > 0 && Find(s, sep) == i
    ensures Split(s, sep) == [s[..i]] + Split(s[i + |sep|..], sep)
  {
  }

  /** `Split` of a string without the separator. */
  lemma SplitNone(s: string, sep: string)
    requires |sep| > 0 && Find(s, sep) < 0
    ensures Split(s, sep) == [s]
  {
  }

  /** A join of two or more parts is the join of all but the last, the delimiter, then the last. */
  lemma {:induction false} JoinLast(w: seq<string>, d: string)
    requires |w| >= 2
    ensures Join(w, d) == Join(w[..|w| - 1], d) + d + w[|w| - 1]
    decreases |w|
  {
    if |w| == 2 {
      assert w[..1] == [w[0]] && w[1..] == [w[1]];
    } else {
      JoinLast(w[1..], d);
      assert w[1..][..|w| - 2] == w[..|w| - 1][1..];
      assert w[..|w| - 1][0] == w[0];
    }
  }

  /** Leading whitespace does not change what `strip()` returns. */
  lemma StripLeadSpace(w: string, z: string)
    requires AllSpace(w)
    ensures Strip(w + z) == Strip(z)
  {
    var s := w + z;
    var n := LeadingSpace(z);
    var m := |w| + n;
    LeadingSpaceAll(z);
    forall k | 0 <= k < m ensures IsSpace(s[..m][k]) {
      if k < |w| {
        assert s[..m][k] == w[k];
      } else {
        assert s[..m][k] == z[k - |w|];
      }
    }
    assert m < |s| ==> s[m] == z[n];
    LeadingSpaceIs(s, m);
    assert s[m..] == z[n..];
  }

  /** Every character before `LeadingSpace(s)` is whitespace. */
  lemma LeadingSpaceAll(s: string)
    ensures forall k | 0 <= k < LeadingSpace(s) :: IsSpace(s[k])
  {
    var n := LeadingSpace(s);
    forall k | 0 <= k < n ensures IsSpace(s[k]) {
      assert s[..n][k] == s[k];
    }
  }

  /** A suffix of `x + w` that starts inside `x`. */
  lemma SuffixFrom(x: string, w: string, d: nat)
    requires d <= |x|
    ensures (x + w)[d..] == x[d..] + w
  {
  }

  /** `strip()` of a text that ends in non-whitespace removes only leading whitespace, and no more than up to `i`. */
  lemma StripKeepsEnd(s: string, i: nat) returns (n: nat)
    requires i < |s| && !IsSpace(s[i]) && !IsSpace(s[|s| - 1])
    ensures n <= i && Strip(s) == s[n..]
  {
    n := LeadingSpace(s);
    LeadingSpaceAll(s);
    var t := s[n..];
    assert t[|t| - 1] == s[|s| - 1];
    assert t[..|t| - 0] == t;
  }
}
