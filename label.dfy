/** The two word patterns `/артикул[:\s]+([A-Za-z0-9-]+)/i` and
    `/арт[\.:\s]+([A-Za-z0-9-]+)/i`, as a hand-written matcher: a regular
    expression `match` returns the capture of the leftmost position at which
    the pattern matches. The full word is tried first; the abbreviation
    only when the full word matches nowhere. */
module Label {
  import opened Util
  import opened Text

  const FullLabel: string := "артикул"
  const ShortLabel: string := "арт"

  /** `[A-Za-z0-9-]`; the `/i` flag adds nothing to this class, since no
      other character case-folds onto an ASCII letter without the `u` flag. */
  predicate IsTokenChar(c: char) {
    ('A' <= c <= 'Z') || ('a' <= c <= 'z') || ('0' <= c <= '9') || c == '-'
  }

  /** `[\.:\s]`, the separator after the abbreviated word. */
  predicate IsShortSeparator(c: char) {
    c == '.' || c == ':' || IsWhite(c)
  }

  /** The letter a case-insensitive comparison sees, for comparing against
      the lower-case Cyrillic letters of the labels. Without the `u` flag a
      JavaScript `/i` pattern compares characters by their upper-case
      forms: such a letter then matches itself, its capital and, for `т`,
      also U+1C84 and U+1C85, whose upper-case form is `Т`. */
  function FoldLabelChar(c: char): (r: char)
    ensures c in "артикул" ==> r == c
    ensures c in "АРТИКУЛ" ==> r as int == c as int + 32 && r in "артикул"
    ensures r in "артикул" ==> c == r || c as int == r as int - 32 || c == '\U{1C84}' || c == '\U{1C85}'
  {
    if c == '\U{1C84}' || c == '\U{1C85}' then 'т' else LowerChar(c)
  }

  /** `s` starts with `word`, letter case aside (the scanning form). */
  predicate FoldedPrefix(s: string, word: string) {
    |word| <= |s| && (word == [] || (FoldLabelChar(s[0]) == word[0] && FoldedPrefix(s[1..], word[1..])))
  }

  // ---- What the pattern means, stated as a regular-expression match ----

  /** The word, letter case aside, stands at position `i`. */
  ghost predicate LabelAt(s: string, i: nat, word: string) {
    i + |word| <= |s| && forall j :: 0 <= j < |word| ==> FoldLabelChar(s[i + j]) == word[j]
  }

  /** `word sep+ (token+)` matches at `i` with the token starting at `p`
      and capturing `t`: the word, one or more separators up to `p`, then
      `t`, a run of token characters that the greedy `+` extends as far as it
      goes. */
  ghost predicate CapturedAt(s: string, i: nat, word: string, sep: char -> bool, p: nat, t: string) {
    && LabelAt(s, i, word)
    && i + |word| < p && p + |t| <= |s|
    && (forall j :: i + |word| <= j < p ==> sep(s[j]))
    && t != [] && s[p..p + |t|] == t
    && (forall j :: 0 <= j < |t| ==> IsTokenChar(t[j]))
    && (p + |t| == |s| || !IsTokenChar(s[p + |t|]))
  }

  ghost predicate MatchesAt(s: string, i: nat, word: string, sep: char -> bool, t: string) {
    exists p :: CapturedAt(s, i, word, sep, p, t)
  }

  /** The pattern's leftmost match captures `t`. */
  ghost predicate LeftmostMatch(s: string, word: string, sep: char -> bool, t: string) {
    exists i :: 0 <= i <= |s| && MatchesAt(s, i, word, sep, t)
                && forall j, u :: 0 <= j < i ==> !MatchesAt(s, j, word, sep, u)
  }

  ghost predicate MatchesNowhere(s: string, word: string, sep: char -> bool) {
    forall i, u :: 0 <= i <= |s| ==> !MatchesAt(s, i, word, sep, u)
  }

  /** No token character is also a separator. */
  ghost predicate SeparatesTokens(sep: char -> bool) {
    forall c :: IsTokenChar(c) ==> !sep(c)
  }

  // ---- The matcher ----

  /** The capture of `sep+ (token+)` starting at `q`, if it matches there. */
  function TokenAfter(s: string, q: nat, sep: char -> bool): (r: Option<string>)
    requires q <= |s|
    ensures r.Some? ==> r.value != [] && forall j :: 0 <= j < |r.value| ==> IsTokenChar(r.value[j])
  {
    var k := LeadingRun(s[q..], sep);
    if k == 0 then None
    else
      var n := LeadingRun(s[q + k..], IsTokenChar);
      if n == 0 then None else Some(s[q + k..][..n])
  }

  /** The capture of the pattern at position `i`, if it matches there. */
  function MatchAt(s: string, i: nat, word: string, sep: char -> bool): (r: Option<string>)
    requires i <= |s|
    ensures r.Some? ==> r.value != [] && forall j :: 0 <= j < |r.value| ==> IsTokenChar(r.value[j])
  {
    if !FoldedPrefix(s[i..], word) then None else TokenAfter(s, i + |word|, sep)
  }

  /** The capture of the leftmost match at a position `from` or later. */
  function FindFrom(s: string, from: nat, word: string, sep: char -> bool): (r: Option<string>)
    requires from <= |s| + 1
    ensures r.Some? ==> exists i :: from <= i <= |s| && MatchAt(s, i, word, sep) == r
                                    && forall j :: from <= j < i ==> MatchAt(s, j, word, sep).None?
    ensures r.None? ==> forall j :: from <= j <= |s| ==> MatchAt(s, j, word, sep).None?
    decreases |s| + 1 - from
  {
    if from > |s| then None
    else
      match MatchAt(s, from, word, sep)
      case Some(t) => Some(t)
      case None => FindFrom(s, from + 1, word, sep)
  }

  /** `text.match(full) || text.match(short)`, keeping the capture. */
  function MatchLabel(text: string): (r: Option<string>)
    ensures r.Some? ==> r.value != [] && forall j :: 0 <= j < |r.value| ==> IsTokenChar(r.value[j])
  {
    match FindFrom(text, 0, FullLabel, IsColonOrWhite)
    case Some(t) => Some(t)
    case None => FindFrom(text, 0, ShortLabel, IsShortSeparator)
  }

  // ---- The matcher does what the pattern means ----

  lemma {:induction false} FoldedPrefixIff(s: string, i: nat, word: string)
    requires i <= |s|
    ensures FoldedPrefix(s[i..], word) <==> LabelAt(s, i, word)
    decreases word
  {
    if word != [] && |word| <= |s| - i {
      FoldedPrefixIff(s, i + 1, word[1..]);
      assert s[i..][1..] == s[i + 1..];
      assert forall j :: 1 <= j < |word| ==> word[1..][j - 1] == word[j] && s[i + 1 + (j - 1)] == s[i + j];
    }
  }

  /** The run the scan measures from `a`, read back as positions of `s`. */
  lemma RunInPlace(s: string, a: nat, p: char -> bool)
    requires a <= |s|
    ensures var e := a + LeadingRun(s[a..], p);
            && e <= |s|
            && (forall j :: a <= j < e ==> p(s[j]))
            && (e == |s| || !p(s[e]))
  {
    var n := LeadingRun(s[a..], p);
    assert forall j :: a <= j < a + n ==> s[j] == s[a..][j - a];
    assert a + n == |s| || s[a + n] == s[a..][n];
  }

  /** Where the capture after the word lies in `s`. */
  lemma TokenAfterSound(s: string, q: nat, sep: char -> bool)
    requires q <= |s|
    ensures TokenAfter(s, q, sep).Some? ==>
              var p := q + LeadingRun(s[q..], sep);
              var e := p + |TokenAfter(s, q, sep).value|;
              && q < p < e <= |s|
              && TokenAfter(s, q, sep).value == s[p..e]
              && (forall j :: q <= j < p ==> sep(s[j]))
              && (forall j :: p <= j < e ==> IsTokenChar(s[j]))
              && (e == |s| || !IsTokenChar(s[e]))
  {
    if TokenAfter(s, q, sep).Some? {
      var p := q + LeadingRun(s[q..], sep);
      var n := LeadingRun(s[p..], IsTokenChar);
      RunInPlace(s, q, sep);
      RunInPlace(s, p, IsTokenChar);
      assert TokenAfter(s, q, sep).value == s[p..][..n] == s[p..p + n];
    }
  }

  /** Runs of separators and token characters after the word make a match. */
  lemma CapturedFromRuns(s: string, i: nat, word: string, sep: char -> bool, p: nat, t: string)
    requires LabelAt(s, i, word) && i + |word| < p && p + |t| <= |s| && t != [] && t == s[p..p + |t|]
    requires forall j :: i + |word| <= j < p ==> sep(s[j])
    requires forall j :: p <= j < p + |t| ==> IsTokenChar(s[j])
    requires p + |t| == |s| || !IsTokenChar(s[p + |t|])
    ensures MatchesAt(s, i, word, sep, t)
  {
    assert forall j :: 0 <= j < |t| ==> t[j] == s[p + j];
    assert CapturedAt(s, i, word, sep, p, t);
  }

  /** A capture at `i` is the word there followed by a capture after it. */
  lemma MatchAtParts(s: string, i: nat, word: string, sep: char -> bool)
    requires i <= |s|
    ensures MatchAt(s, i, word, sep).Some? ==>
              LabelAt(s, i, word) && TokenAfter(s, i + |word|, sep) == MatchAt(s, i, word, sep)
  {
    FoldedPrefixIff(s, i, word);
  }

  /** What the scan at one position finds is a match of the pattern there. */
  lemma MatchAtSound(s: string, i: nat, word: string, sep: char -> bool)
    requires i <= |s|
    ensures MatchAt(s, i, word, sep).Some? ==> MatchesAt(s, i, word, sep, MatchAt(s, i, word, sep).value)
  {
    MatchAtParts(s, i, word, sep);
    if MatchAt(s, i, word, sep).Some? {
      var q := i + |word|;
      TokenAfterSound(s, q, sep);
      var p := q + LeadingRun(s[q..], sep);
      CapturedFromRuns(s, i, word, sep, p, MatchAt(s, i, word, sep).value);
    }
  }

  /** The separators between the word and the token are the whole run. */
  lemma SeparatorRun(s: string, q: nat, p: nat, sep: char -> bool)
    requires q < p < |s|
    requires forall j :: q <= j < p ==> sep(s[j])
    requires !sep(s[p])
    ensures LeadingRun(s[q..], sep) == p - q
  {
    assert forall j :: 0 <= j < p - q ==> s[q..][j] == s[q + j];
    LeadingRunExact(s[q..], sep, p - q);
  }

  /** The greedy token is the whole run of token characters. */
  lemma TokenRun(s: string, p: nat, t: string)
    requires p + |t| <= |s| && s[p..p + |t|] == t
    requires forall j :: 0 <= j < |t| ==> IsTokenChar(t[j])
    requires p + |t| == |s| || !IsTokenChar(s[p + |t|])
    ensures LeadingRun(s[p..], IsTokenChar) == |t| && s[p..][..|t|] == t
  {
    assert s[p..][..|t|] == t;
    LeadingRunExact(s[p..], IsTokenChar, |t|);
  }

  /** The scan's capture after the word, given the two runs it measures. */
  lemma TokenAfterFromRuns(s: string, q: nat, sep: char -> bool, p: nat, t: string)
    requires q < p && p + |t| <= |s| && t != []
    requires LeadingRun(s[q..], sep) == p - q
    requires LeadingRun(s[p..], IsTokenChar) == |t| && s[p..][..|t|] == t
    ensures TokenAfter(s, q, sep) == Some(t)
  {
  }

  /** The runs a match is made of are the ones the scan measures. */
  lemma CapturedTokenAfter(s: string, q: nat, sep: char -> bool, p: nat, t: string)
    requires q < p && p + |t| <= |s| && t != [] && s[p..p + |t|] == t
    requires forall j :: q <= j < p ==> sep(s[j])
    requires !sep(t[0])
    requires forall j :: 0 <= j < |t| ==> IsTokenChar(t[j])
    requires p + |t| == |s| || !IsTokenChar(s[p + |t|])
    ensures TokenAfter(s, q, sep) == Some(t)
  {
    assert s[p] == t[0];
    SeparatorRun(s, q, p, sep);
    TokenRun(s, p, t);
    TokenAfterFromRuns(s, q, sep, p, t);
  }

  /** The word at `i` followed by a capture after it is a capture at `i`. */
  lemma MatchAtOf(s: string, i: nat, word: string, sep: char -> bool, t: string)
    requires i + |word| <= |s| && LabelAt(s, i, word) && TokenAfter(s, i + |word|, sep) == Some(t)
    ensures MatchAt(s, i, word, sep) == Some(t)
  {
    FoldedPrefixIff(s, i, word);
  }

  /** A match of the pattern at one position is what the scan finds there. */
  lemma MatchAtComplete(s: string, i: nat, word: string, sep: char -> bool, t: string)
    requires i <= |s| && SeparatesTokens(sep)
    ensures MatchesAt(s, i, word, sep, t) ==> MatchAt(s, i, word, sep) == Some(t)
  {
    if MatchesAt(s, i, word, sep, t) {
      var p: nat :| CapturedAt(s, i, word, sep, p, t);
      assert IsTokenChar(t[0]);
      CapturedTokenAfter(s, i + |word|, sep, p, t);
      MatchAtOf(s, i, word, sep, t);
    }
  }

  lemma MatchAtIff(s: string, i: nat, word: string, sep: char -> bool, t: string)
    requires i <= |s| && SeparatesTokens(sep)
    ensures MatchAt(s, i, word, sep) == Some(t) <==> MatchesAt(s, i, word, sep, t)
  {
    MatchAtSound(s, i, word, sep);
    MatchAtComplete(s, i, word, sep, t);
  }

  /** The scan stops at the first position where the pattern matches. */
  lemma {:induction false} FindFromReaches(s: string, from: nat, i: nat, word: string, sep: char -> bool)
    requires from <= i <= |s| && MatchAt(s, i, word, sep).Some?
    requires forall j :: from <= j < i ==> MatchAt(s, j, word, sep).None?
    ensures FindFrom(s, from, word, sep) == MatchAt(s, i, word, sep)
    decreases i - from
  {
    if from < i {
      FindFromReaches(s, from + 1, i, word, sep);
    }
  }

  lemma {:induction false} FindFromNone(s: string, from: nat, word: string, sep: char -> bool)
    requires from <= |s| + 1
    requires forall j :: from <= j <= |s| ==> MatchAt(s, j, word, sep).None?
    ensures FindFrom(s, from, word, sep).None?
    decreases |s| + 1 - from
  {
    if from <= |s| {
      FindFromNone(s, from + 1, word, sep);
    }
  }

  lemma FindFromFindsLeftmost(s: string, word: string, sep: char -> bool, t: string)
    requires SeparatesTokens(sep)
    ensures FindFrom(s, 0, word, sep) == Some(t) ==> LeftmostMatch(s, word, sep, t)
  {
    if FindFrom(s, 0, word, sep) == Some(t) {
      var i :| 0 <= i <= |s| && MatchAt(s, i, word, sep) == Some(t)
               && forall j :: 0 <= j < i ==> MatchAt(s, j, word, sep).None?;
      MatchAtIff(s, i, word, sep, t);
      forall j, u | 0 <= j < i
        ensures !MatchesAt(s, j, word, sep, u)
      {
        MatchAtIff(s, j, word, sep, u);
      }
    }
  }

  lemma LeftmostIsFound(s: string, word: string, sep: char -> bool, t: string)
    requires SeparatesTokens(sep)
    ensures LeftmostMatch(s, word, sep, t) ==> FindFrom(s, 0, word, sep) == Some(t)
  {
    if LeftmostMatch(s, word, sep, t) {
      var i :| 0 <= i <= |s| && MatchesAt(s, i, word, sep, t)
               && forall j, u :: 0 <= j < i ==> !MatchesAt(s, j, word, sep, u);
      MatchAtIff(s, i, word, sep, t);
      forall j | 0 <= j < i
        ensures MatchAt(s, j, word, sep).None?
      {
        MatchAtSound(s, j, word, sep);
      }
      FindFromReaches(s, 0, i, word, sep);
    }
  }

  lemma FindFromNoneIff(s: string, word: string, sep: char -> bool)
    requires SeparatesTokens(sep)
    ensures FindFrom(s, 0, word, sep).None? <==> MatchesNowhere(s, word, sep)
  {
    if FindFrom(s, 0, word, sep).None? {
      forall i, u | 0 <= i <= |s|
        ensures !MatchesAt(s, i, word, sep, u)
      {
        MatchAtIff(s, i, word, sep, u);
      }
    }
    if MatchesNowhere(s, word, sep) {
      forall j | 0 <= j <= |s|
        ensures MatchAt(s, j, word, sep).None?
      {
        MatchAtSound(s, j, word, sep);
      }
      FindFromNone(s, 0, word, sep);
    }
  }

  /** Scanning from the start finds the leftmost match of one pattern. */
  lemma FindFromStartIff(s: string, word: string, sep: char -> bool, t: string)
    requires SeparatesTokens(sep)
    ensures FindFrom(s, 0, word, sep) == Some(t) <==> LeftmostMatch(s, word, sep, t)
    ensures FindFrom(s, 0, word, sep).None? <==> MatchesNowhere(s, word, sep)
  {
    FindFromFindsLeftmost(s, word, sep, t);
    LeftmostIsFound(s, word, sep, t);
    FindFromNoneIff(s, word, sep);
  }

  lemma SeparatorsSeparate()
    ensures SeparatesTokens(IsColonOrWhite) && SeparatesTokens(IsShortSeparator)
  {
  }

  /** The word matcher returns the capture of the full word's leftmost
      match, and the abbreviation's leftmost match only when the full word
      matches nowhere in the text. */
  lemma MatchLabelIsLeftmostMatch(text: string, t: string)
    ensures MatchLabel(text) == Some(t) <==>
              || LeftmostMatch(text, FullLabel, IsColonOrWhite, t)
              || (MatchesNowhere(text, FullLabel, IsColonOrWhite) && LeftmostMatch(text, ShortLabel, IsShortSeparator, t))
  {
    SeparatorsSeparate();
    FindFromStartIff(text, FullLabel, IsColonOrWhite, t);
    FindFromStartIff(text, ShortLabel, IsShortSeparator, t);
  }

  /** A separator run and a token of token characters after the full label,
      in any letter case, is what the matcher returns: the capture stops
      where the token does. */
  lemma {:induction false} FullLabelCapture(l: string, w: string, t: string, rest: string)
    requires |l| == |FullLabel| && forall j :: 0 <= j < |l| ==> FoldLabelChar(l[j]) == FullLabel[j]
    requires w != [] && forall j :: 0 <= j < |w| ==> IsColonOrWhite(w[j])
    requires t != [] && forall j :: 0 <= j < |t| ==> IsTokenChar(t[j])
    requires rest == [] || !IsTokenChar(rest[0])
    ensures MatchLabel(l + w + t + rest) == Some(t)
  {
    var s := l + w + t + rest;
    var p := |l| + |w|;
    assert s[p..p + |t|] == t;
    assert p + |t| < |s| ==> s[p + |t|] == rest[0];
    assert CapturedAt(s, 0, FullLabel, IsColonOrWhite, p, t);
    SeparatorsSeparate();
    MatchAtComplete(s, 0, FullLabel, IsColonOrWhite, t);
    FindFromReaches(s, 0, 0, FullLabel, IsColonOrWhite);
  }

  /** A match needs room for the label, a separator and a token. */
  lemma MatchAtRoom(s: string, i: nat, word: string, sep: char -> bool)
    requires i <= |s|
    ensures MatchAt(s, i, word, sep).Some? ==> i + |word| + 2 <= |s|
  {
  }

  lemma TooShortForFullLabel(s: string)
    requires |s| < |FullLabel| + 2
    ensures FindFrom(s, 0, FullLabel, IsColonOrWhite).None?
  {
    forall j | 0 <= j <= |s|
      ensures MatchAt(s, j, FullLabel, IsColonOrWhite).None?
    {
      MatchAtRoom(s, j, FullLabel, IsColonOrWhite);
    }
    FindFromNone(s, 0, FullLabel, IsColonOrWhite);
  }

  /** In a text where the full word matches nowhere, the abbreviation
      followed by a separator run and a token yields the token. */
  lemma {:induction false} ShortLabelCapture(l: string, w: string, t: string, rest: string)
    requires |l| == |ShortLabel| && forall j :: 0 <= j < |l| ==> FoldLabelChar(l[j]) == ShortLabel[j]
    requires w != [] && forall j :: 0 <= j < |w| ==> IsShortSeparator(w[j])
    requires t != [] && forall j :: 0 <= j < |t| ==> IsTokenChar(t[j])
    requires rest == [] || !IsTokenChar(rest[0])
    requires MatchesNowhere(l + w + t + rest, FullLabel, IsColonOrWhite)
    ensures MatchLabel(l + w + t + rest) == Some(t)
  {
    var s := l + w + t + rest;
    var p := |l| + |w|;
    assert s[p..p + |t|] == t;
    assert p + |t| < |s| ==> s[p + |t|] == rest[0];
    assert CapturedAt(s, 0, ShortLabel, IsShortSeparator, p, t);
    SeparatorsSeparate();
    FindFromNoneIff(s, FullLabel, IsColonOrWhite);
    MatchAtComplete(s, 0, ShortLabel, IsShortSeparator, t);
    FindFromReaches(s, 0, 0, ShortLabel, IsShortSeparator);
  }

  /** A letter that folds to `а` is `а` or `А`. */
  lemma FoldsToA(c: char)
    ensures FoldLabelChar(c) == 'а' ==> c == 'а' || c == 'А'
  {
  }

  /** The word does not stand where one of its letters is missing. */
  lemma LetterMismatch(s: string, i: nat, word: string, sep: char -> bool, k: nat)
    requires i + k < |s| && k < |word| && FoldLabelChar(s[i + k]) != word[k]
    ensures MatchAt(s, i, word, sep).None?
  {
    FoldedPrefixIff(s, i, word);
  }

  /** The word followed by something other than a separator is no match. */
  lemma NoSeparatorAfter(s: string, i: nat, word: string, sep: char -> bool)
    requires i + |word| < |s| && !sep(s[i + |word|])
    ensures MatchAt(s, i, word, sep).None?
  {
    assert s[i + |word|..][0] == s[i + |word|];
  }

  /** A text of the shape `а` a `а` b, with no other `а` in it and a blank
      after the second, holds a match of a word starting with `ар` at most
      at its start. */
  lemma {:induction false} OnlyAtStart(s: string, word: string, sep: char -> bool, a: string, b: string)
    requires s == "а" + a + "а" + b
    requires |word| >= 2 && word[0] == 'а' && word[1] == 'р'
    requires 'а' !in a && 'А' !in a && 'а' !in b && 'А' !in b
    requires b != [] && b[0] == ' '
    requires MatchAt(s, 0, word, sep).None?
    ensures FindFrom(s, 0, word, sep).None?
  {
    forall j | 0 <= j <= |s|
      ensures MatchAt(s, j, word, sep).None?
    {
      if j == 0 {
      } else if j == |a| + 1 {
        assert s[j + 1] == b[0];
        LetterMismatch(s, j, word, sep, 1);
      } else if j < |a| + 1 {
        assert s[j] == a[j - 1];
        FoldsToA(s[j]);
        LetterMismatch(s, j, word, sep, 0);
      } else if j < |s| {
        assert s[j] == b[j - |a| - 2];
        FoldsToA(s[j]);
        LetterMismatch(s, j, word, sep, 0);
      }
    }
    FindFromNone(s, 0, word, sep);
  }

  lemma FullLabelExample()
    ensures MatchLabel("Артикул: ABC-123") == Some("ABC-123")
  {
    assert "Артикул: ABC-123" == "Артикул" + ": " + "ABC-123" + "";
    FullLabelCapture("Артикул", ": ", "ABC-123", "");
  }

  lemma ShortLabelExample()
    ensures MatchLabel("арт. XY9") == Some("XY9")
  {
    assert "арт. XY9" == "арт" + ". " + "XY9" + "";
    TooShortForFullLabel("арт. XY9");
    SeparatorsSeparate();
    FindFromNoneIff("арт. XY9", FullLabel, IsColonOrWhite);
    ShortLabelCapture("арт", ". ", "XY9", "");
  }

  /** A word that begins with the label letters but goes on with other
      letters is no label. */
  lemma UnlabelledShape(a: string, b: string)
    requires |a| == 9 && a[2] == 'и' && a[6] == 'е'
    requires 'а' !in a && 'А' !in a && 'а' !in b && 'А' !in b
    requires b != [] && b[0] == ' '
    ensures MatchLabel("а" + a + "а" + b) == None
  {
    var s := "а" + a + "а" + b;
    assert s[|FullLabel|] == a[6] && s[|ShortLabel|] == a[2];
    NoSeparatorAfter(s, 0, FullLabel, IsColonOrWhite);
    NoSeparatorAfter(s, 0, ShortLabel, IsShortSeparator);
    OnlyAtStart(s, FullLabel, IsColonOrWhite, a, b);
    OnlyAtStart(s, ShortLabel, IsShortSeparator, a, b);
  }

  /** A word that merely begins with the label, with no separator after
      it, is no label: the text yields nothing. */
  lemma UnlabelledTextExample()
    ensures MatchLabel("артикулечка не подходит") == None
  {
    var a, b := "ртикулечк", " не подходит";
    assert "артикулечка не подходит" == "а" + a + "а" + b;
    UnlabelledShape(a, b);
  }
}
