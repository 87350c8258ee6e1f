/** The string operations the extractors apply to `textContent`:
    `trim()`, `indexOf`, `includes`, `toLowerCase()`, the colon split of a
    row's text and the `replace(/[:\s]+$/, '')` clean-up of a name. */
module Text {
  import opened Util

  /** A character JavaScript's `trim()` removes and `\s` matches: the
      WhiteSpace and LineTerminator code points of ECMAScript. */
  predicate IsWhite(c: char) {
    || c == '\t' || c == '\n' || c == '\U{000B}' || c == '\U{000C}' || c == '\r'
    || c == ' ' || c == '\U{00A0}' || c == '\U{1680}'
    || ('\U{2000}' <= c <= '\U{200A}')
    || c == '\U{2028}' || c == '\U{2029}' || c == '\U{202F}' || c == '\U{205F}'
    || c == '\U{3000}' || c == '\U{FEFF}'
  }

  predicate AllWhite(s: string) {
    forall i :: 0 <= i < |s| ==> IsWhite(s[i])
  }

  /** No white space at either end. */
  predicate IsTrimmed(s: string) {
    s == [] || (!IsWhite(s[0]) && !IsWhite(s[|s| - 1]))
  }

  /** The length of the longest prefix of `s` whose characters satisfy `p`. */
  function LeadingRun(s: string, p: char -> bool): (n: nat)
    ensures n <= |s|
    ensures forall i :: 0 <= i < n ==> p(s[i])
    ensures n < |s| ==> !p(s[n])
  {
    if s == [] || !p(s[0]) then 0 else 1 + LeadingRun(s[1..], p)
  }

  /** A run of `m` characters satisfying `p`, ended by the end of `s` or by
      a character that does not, is the leading run. */
  lemma {:induction false} LeadingRunExact(s: string, p: char -> bool, m: nat)
    requires m <= |s| && forall i :: 0 <= i < m ==> p(s[i])
    requires m < |s| ==> !p(s[m])
    ensures LeadingRun(s, p) == m
  {
    if m > 0 {
      LeadingRunExact(s[1..], p, m - 1);
    }
  }

  /** The length of the longest suffix of `s` whose characters satisfy `p`. */
  function TrailingRun(s: string, p: char -> bool): (n: nat)
    ensures n <= |s|
    ensures forall i :: |s| - n <= i < |s| ==> p(s[i])
    ensures n < |s| ==> !p(s[|s| - n - 1])
  {
    if s == [] || !p(s[|s| - 1]) then 0 else 1 + TrailingRun(s[..|s| - 1], p)
  }

  /** Where `trim()` starts cutting: the length of the leading white space. */
  function TrimStart(s: string): (a: nat)
    ensures a <= |s| && AllWhite(s[..a])
    ensures a < |s| ==> !IsWhite(s[a])
  {
    LeadingRun(s, IsWhite)
  }

  /** `s.trim()`: `s` without its leading and trailing white space. */
  function Trim(s: string): (r: string)
    ensures IsTrimmed(r)
    ensures TrimStart(s) + |r| <= |s|
    ensures r == s[TrimStart(s)..TrimStart(s) + |r|]
    ensures AllWhite(s[TrimStart(s) + |r|..])
  {
    var a := TrimStart(s);
    var t := s[a..];
    var b := TrailingRun(t, IsWhite);
    var r := t[..|t| - b];
    assert s[a + |r|..] == t[|t| - b..];
    assert r != [] ==> r[0] == s[a] && r[|r| - 1] == t[|t| - b - 1];
    r
  }

  /** `trim()` removes white space and nothing else: a trimmed text padded
      with white space on either side trims back to itself. */
  lemma {:induction false} TrimPadded(w1: string, x: string, w2: string)
    requires AllWhite(w1) && AllWhite(w2) && IsTrimmed(x)
    ensures Trim(w1 + x + w2) == x
  {
    var s := w1 + x + w2;
    var r := Trim(s);
    if x != [] {
      assert s[|w1|] == x[0];
      assert s[|w1| + |x| - 1] == x[|x| - 1];
      assert TrimStart(s) == |w1|;
      assert |r| == |x|;
      assert r == s[|w1|..|w1| + |x|] == x;
    } else {
      assert AllWhite(s);
    }
  }

  /** `trim()` is idempotent. */
  lemma TrimIdempotent(s: string)
    ensures Trim(Trim(s)) == Trim(s)
  {
    TrimPadded([], Trim(s), []);
    assert [] + Trim(s) + [] == Trim(s);
  }

  /** Trimming keeps a text that holds a non-white character non-empty. */
  lemma TrimNonEmpty(s: string, k: nat)
    requires k < |s| && !IsWhite(s[k])
    ensures Trim(s) != []
  {
    var a := TrimStart(s);
    if k >= a {
      assert s[a..][k - a] == s[k];
    }
  }

  /** Trimming never brings in a character the text did not have. */
  lemma TrimSubset(s: string, c: char)
    requires c in Trim(s)
    ensures c in s
  {
    var r := Trim(s);
    var j :| 0 <= j < |r| && r[j] == c;
    assert s[TrimStart(s) + j] == c;
  }

  predicate IsColonOrWhite(c: char) {
    c == ':' || IsWhite(c)
  }

  /** `s.replace(/[:\s]+$/, '')`: the trailing run of colons and white
      space removed, whatever its length. */
  function StripTrailingSeparators(s: string): (r: string)
    ensures |r| <= |s| && r == s[..|r|]
    ensures forall i :: |r| <= i < |s| ==> IsColonOrWhite(s[i])
    ensures r == [] || !IsColonOrWhite(r[|r| - 1])
  {
    s[..|s| - TrailingRun(s, IsColonOrWhite)]
  }

  /** `s.indexOf(c)`: the first position of `c`, or -1. */
  function IndexOf(s: string, c: char): (r: int)
    ensures r == -1 <==> c !in s
    ensures r != -1 ==> 0 <= r < |s| && s[r] == c && c !in s[..r]
  {
    if s == [] then -1
    else if s[0] == c then 0
    else
      var k := IndexOf(s[1..], c);
      if k == -1 then -1
      else
        assert s[..k + 1] == [s[0]] + s[1..][..k];
        k + 1
  }

  /** `sub` stands in `s` at position `i`. */
  predicate OccursAt(s: string, sub: string, i: int) {
    0 <= i <= |s| - |sub| && s[i..i + |sub|] == sub
  }

  /** `s.includes(sub)`. */
  predicate Contains(s: string, sub: string)
    ensures Contains(s, sub) ==> |sub| <= |s|
    ensures sub == [] ==> Contains(s, sub)
    ensures |sub| <= |s| && s[..|sub|] == sub ==> Contains(s, sub)
  {
    |sub| <= |s| && (s[..|sub|] == sub || Contains(s[1..], sub))
  }

  /** `includes` finds `sub` wherever it stands. */
  lemma {:induction false} ContainsIff(s: string, sub: string)
    ensures Contains(s, sub) <==> exists i :: OccursAt(s, sub, i)
  {
    if |sub| <= |s| && s[..|sub|] != sub {
      ContainsIff(s[1..], sub);
      forall i | OccursAt(s, sub, i) ensures i >= 1 && OccursAt(s[1..], sub, i - 1) {
        assert s[1..][i - 1..i - 1 + |sub|] == s[i..i + |sub|];
      }
      forall i | OccursAt(s[1..], sub, i) ensures OccursAt(s, sub, i + 1) {
        assert s[1..][i..i + |sub|] == s[i + 1..i + 1 + |sub|];
      }
    } else if |sub| <= |s| {
      assert OccursAt(s, sub, 0);
    }
  }

  /** `toLowerCase()` on one character, for the Latin and Cyrillic letters. */
  function LowerChar(c: char): char {
    if 'A' <= c <= 'Z' then (c as int + 32) as char
    else if '\U{0410}' <= c <= '\U{042F}' then (c as int + 32) as char
    else if '\U{0400}' <= c <= '\U{040F}' then (c as int + 80) as char
    else c
  }

  /** `s.toLowerCase()`, for the Latin and Cyrillic letters. */
  function ToLower(s: string): (r: string)
    ensures |r| == |s| && forall i :: 0 <= i < |s| ==> r[i] == LowerChar(s[i])
  {
    if s == [] then [] else [LowerChar(s[0])] + ToLower(s[1..])
  }

  /** The fallback for a row without name and value cells: the row's trimmed
      text split at its first colon, which must not be the first character;
      both trimmed halves must be non-empty. */
  function SplitAtColon(text: string): (r: Option<(string, string)>)
    ensures r.Some? ==>
              var t := Trim(text);
              exists i :: 0 < i < |t| && t[i] == ':' && ':' !in t[..i]
                          && r.value == (Trim(t[..i]), Trim(t[i + 1..]))
    ensures r.Some? ==>
              && ':' !in r.value.0
              && r.value.0 != [] && IsTrimmed(r.value.0)
              && r.value.1 != [] && IsTrimmed(r.value.1)
    ensures ':' !in text ==> r.None?
  {
    var t := Trim(text);
    var i := IndexOf(t, ':');
    if i > 0 then
      var name := Trim(t[..i]);
      var value := Trim(t[i + 1..]);
      assert ':' !in name by {
        if ':' in name { TrimSubset(t[..i], ':'); }
      }
      if name != [] && value != [] then Some((name, value)) else None
    else
      assert ':' !in text ==> ':' !in t by {
        if ':' in t { TrimSubset(text, ':'); }
      }
      None
  }

  /** `indexOf` returns the first position of the character. */
  lemma {:induction false} IndexOfAt(s: string, c: char, i: nat)
    requires i < |s| && s[i] == c && c !in s[..i]
    ensures IndexOf(s, c) == i
  {
    if i > 0 {
      assert s[0] == s[..i][0];
      assert s[1..][..i - 1] == s[1..i];
      assert forall j :: 0 <= j < i - 1 ==> s[1..i][j] == s[..i][j + 1];
      IndexOfAt(s[1..], c, i - 1);
    }
  }

  /** The split is taken at the first colon of the trimmed text. */
  lemma SplitAtColonAt(text: string, i: nat, name: string, value: string)
    requires var t := Trim(text); 0 < i < |t| && t[i] == ':' && ':' !in t[..i]
    requires Trim(Trim(text)[..i]) == name && Trim(Trim(text)[i + 1..]) == value
    requires name != [] && value != []
    ensures SplitAtColon(text) == Some((name, value))
  {
    IndexOfAt(Trim(text), ':', i);
  }

  /** The pieces of `w1 + a + ":" + b + w4` after trimming. */
  lemma {:induction false} WrittenPairParts(a: string, b: string, w1: string, w4: string)
    requires a != [] && !IsWhite(a[0])
    requires b != [] && !IsWhite(b[|b| - 1])
    requires AllWhite(w1) && AllWhite(w4)
    ensures var t := Trim(w1 + (a + ":" + b) + w4);
            && t == a + ":" + b
            && t[..|a|] == a && t[|a|] == ':' && t[|a| + 1..] == b
  {
    var x := a + ":" + b;
    assert x[0] == a[0] && x[|x| - 1] == b[|b| - 1];
    TrimPadded(w1, x, w4);
  }

  lemma TrimTrailingWhite(x: string, w: string)
    requires IsTrimmed(x) && AllWhite(w)
    ensures Trim(x + w) == x
  {
    TrimPadded([], x, w);
    assert [] + x + w == x + w;
  }

  lemma TrimLeadingWhite(w: string, x: string)
    requires IsTrimmed(x) && AllWhite(w)
    ensures Trim(w + x) == x
  {
    TrimPadded(w, x, []);
    assert w + x + [] == w + x;
  }

  /** A name and a value written as `name: value`, with any white space
      around the parts, split back into exactly that name and value. */
  lemma {:induction false} SplitAtColonRoundTrip(name: string, value: string, w1: string, w2: string, w3: string, w4: string)
    requires name != [] && IsTrimmed(name) && ':' !in name
    requires value != [] && IsTrimmed(value)
    requires AllWhite(w1) && AllWhite(w2) && AllWhite(w3) && AllWhite(w4)
    ensures SplitAtColon(w1 + name + w2 + ":" + w3 + value + w4) == Some((name, value))
  {
    var a, b := name + w2, w3 + value;
    var text := w1 + name + w2 + ":" + w3 + value + w4;
    assert text == w1 + (a + ":" + b) + w4;
    NoColonBeforeWhite(name, w2);
    WrittenPairParts(a, b, w1, w4);
    TrimTrailingWhite(name, w2);
    TrimLeadingWhite(w3, value);
    SplitAtColonAt(text, |a|, name, value);
  }

  lemma NoColonBeforeWhite(a: string, w: string)
    requires ':' !in a && AllWhite(w)
    ensures ':' !in a + w
  {
    assert !IsWhite(':');
  }

  /** A text whose first non-white character is the colon yields nothing:
      the colon's position in the trimmed text is 0, and the split asks for
      a position above 0. */
  lemma LeadingColonRejected(w: string, x: string)
    requires AllWhite(w)
    ensures SplitAtColon(w + ":" + x) == None
  {
    var s := w + ":" + x;
    assert s[|w|] == ':' && !IsWhite(':');
    assert s[..|w|] == w;
    LeadingRunExact(s, IsWhite, |w|);
    TrimNonEmpty(s, |w|);
    IndexOfAt(Trim(s), ':', 0);
  }
}
