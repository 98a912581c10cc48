/** Character classes and string operations of the .NET and JavaScript
    runtimes that the monitor relies on, written out over `seq<char>`. */
module Text {

  /** `\d` of the number pattern, taken as the ASCII decimal digits. */
  predicate IsDigit(c: char) {
    '0' <= c <= '9'
  }

  /** .NET `Char.IsWhiteSpace`: the Unicode White_Space characters. */
  predicate IsDotNetWhiteSpace(c: char) {
    c == ' ' || '\t' <= c <= '\r' || c == '\U{85}' || c == '\U{A0}' || c == '\U{1680}'
    || '\U{2000}' <= c <= '\U{200A}' || c == '\U{2028}' || c == '\U{2029}'
    || c == '\U{202F}' || c == '\U{205F}' || c == '\U{3000}'
  }

  /** The characters JavaScript's `String.prototype.trim` removes: WhiteSpace
      (TAB, VT, FF, SP, NBSP, ZWNBSP and the Zs category) and LineTerminator. */
  predicate IsJsWhiteSpace(c: char) {
    c == ' ' || '\t' <= c <= '\r' || c == '\U{A0}' || c == '\U{1680}'
    || '\U{2000}' <= c <= '\U{200A}' || c == '\U{2028}' || c == '\U{2029}'
    || c == '\U{202F}' || c == '\U{205F}' || c == '\U{3000}' || c == '\U{FEFF}'
  }

  /** `string.IsNullOrWhiteSpace` on a non-null string. */
  predicate IsBlank(s: string): (b: bool)
    ensures b ==> !HasDigit(s)
  {
    forall i :: 0 <= i < |s| ==> IsDotNetWhiteSpace(s[i])
  }

  predicate HasDigit(s: string) {
    exists i :: 0 <= i < |s| && IsDigit(s[i])
  }

  /** `string.Replace(char, char)`. */
  function ReplaceChar(s: string, from: char, to: char): (r: string)
    ensures |r| == |s|
  {
    if s == [] then [] else [if s[0] == from then to else s[0]] + ReplaceChar(s[1..], from, to)
  }

  lemma {:induction false} ReplaceCharAt(s: string, from: char, to: char, i: nat)
    requires i < |s|
    ensures ReplaceChar(s, from, to)[i] == if s[i] == from then to else s[i]
  {
    if i > 0 {
      ReplaceCharAt(s[1..], from, to, i - 1);
    }
  }

  /** Every position of the result, at once. */
  lemma ReplaceCharEverywhere(s: string, from: char, to: char)
    ensures forall i :: 0 <= i < |s| ==> ReplaceChar(s, from, to)[i] == if s[i] == from then to else s[i]
  {
    forall i | 0 <= i < |s| ensures ReplaceChar(s, from, to)[i] == if s[i] == from then to else s[i] {
      ReplaceCharAt(s, from, to, i);
    }
  }

  lemma {:induction false} ReplaceCharConcat(a: string, b: string, from: char, to: char)
    ensures ReplaceChar(a + b, from, to) == ReplaceChar(a, from, to) + ReplaceChar(b, from, to)
  {
    if a == [] {
      assert a + b == b;
    } else {
      assert (a + b)[0] == a[0] && (a + b)[1..] == a[1..] + b;
      ReplaceCharConcat(a[1..], b, from, to);
    }
  }

  lemma {:induction false} ReplaceCharAbsent(s: string, from: char, to: char)
    requires forall i :: 0 <= i < |s| ==> s[i] != from
    ensures ReplaceChar(s, from, to) == s
  {
    if s != [] {
      ReplaceCharAbsent(s[1..], from, to);
    }
  }

  /** `p` occurs in `s` starting at index `i`. */
  predicate OccursAt(s: string, p: string, i: int) {
    0 <= i && i + |p| <= |s| && s[i..i + |p|] == p
  }

  /** Ordinal substring test: C#'s `string.Contains(string)` and JavaScript's
      `String.prototype.includes`. */
  function Contains(s: string, p: string): (r: bool)
    ensures r <==> exists i :: OccursAt(s, p, i)
    decreases |s|
  {
    if |s| < |p| then false
    else if s[..|p|] == p then assert OccursAt(s, p, 0); true
    else
      var r := Contains(s[1..], p);
      assert forall i :: OccursAt(s[1..], p, i) ==> OccursAt(s, p, i + 1);
      assert forall i :: OccursAt(s, p, i) ==> i > 0 && OccursAt(s[1..], p, i - 1);
      r
  }

  /** A string in which the first character of `p` never occurs does not
      contain `p`. */
  lemma {:induction false} NotContainsWithoutHead(s: string, p: string)
    requires |p| > 0
    requires forall i :: 0 <= i < |s| ==> s[i] != p[0]
    ensures !Contains(s, p)
  {
    forall i | OccursAt(s, p, i) ensures 0 <= i < |s| && s[i] == p[0] {
      assert s[i..i + |p|][0] == p[0];
    }
  }

  /** `string.Replace(string, string)`: every occurrence of `pat`, scanning
      from the left and never overlapping, becomes `rep`. */
  function ReplaceAll(s: string, pat: string, rep: string): (r: string)
    requires |pat| > 0
    ensures |rep| == |pat| ==> |r| == |s|
    ensures !Contains(s, pat) ==> r == s
    decreases |s|
  {
    if |s| < |pat| then s
    else if s[..|pat|] == pat then rep + ReplaceAll(s[|pat|..], pat, rep)
    else
      assert [s[0]] + s[1..] == s;
      [s[0]] + ReplaceAll(s[1..], pat, rep)
  }

  /** Where the pattern does not start, the first character is kept. */
  lemma ReplaceAllKeepsHead(s: string, pat: string, rep: string)
    requires |pat| > 0 && |s| > 0
    requires |s| >= |pat| ==> s[..|pat|] != pat
    ensures ReplaceAll(s, pat, rep) == [s[0]] + ReplaceAll(s[1..], pat, rep)
  {
  }

  /** Replacing by something no longer than the pattern never lengthens. */
  lemma {:induction false} ReplaceAllNoLonger(s: string, pat: string, rep: string)
    requires 0 < |pat| && |rep| <= |pat|
    ensures |ReplaceAll(s, pat, rep)| <= |s|
    decreases |s|
  {
    if |s| < |pat| {
    } else if s[..|pat|] == pat {
      ReplaceAllNoLonger(s[|pat|..], pat, rep);
    } else {
      ReplaceAllNoLonger(s[1..], pat, rep);
    }
  }

  /** A string without the pattern's first character is left as it is. */
  lemma ReplaceAllAbsent(s: string, pat: string, rep: string)
    requires |pat| > 0
    requires forall i :: 0 <= i < |s| ==> s[i] != pat[0]
    ensures ReplaceAll(s, pat, rep) == s
  {
    NotContainsWithoutHead(s, pat);
  }

  function AsciiUpper(c: char): char {
    if 'a' <= c <= 'z' then (c as int - 32) as char else c
  }

  function AsciiLower(c: char): char {
    if 'A' <= c <= 'Z' then (c as int + 32) as char else c
  }

  function ToAsciiUpper(s: string): (r: string)
    ensures |r| == |s| && forall i :: 0 <= i < |s| ==> r[i] == AsciiUpper(s[i])
  {
    seq(|s|, i requires 0 <= i < |s| => AsciiUpper(s[i]))
  }

  function ToAsciiLower(s: string): (r: string)
    ensures |r| == |s| && forall i :: 0 <= i < |s| ==> r[i] == AsciiLower(s[i])
  {
    seq(|s|, i requires 0 <= i < |s| => AsciiLower(s[i]))
  }

  /** C#'s `Contains(p, StringComparison.OrdinalIgnoreCase)`. Letters are folded
      in the ASCII range only; for the upper-case ASCII patterns the monitor
      uses ("ON", "RC") no other character folds onto theirs, so the test is
      exact for them. */
  function ContainsIgnoreCase(s: string, p: string): (r: bool)
    ensures r <==> exists i :: FoldedOccursAt(s, p, i)
  {
    FoldedOccursEverywhere(s, p);
    Contains(ToAsciiUpper(s), ToAsciiUpper(p))
  }

  /** `p` occurs in `s` at index `i` when ASCII case is ignored. */
  predicate FoldedOccursAt(s: string, p: string, i: int) {
    0 <= i && i + |p| <= |s| && forall j :: 0 <= j < |p| ==> AsciiUpper(s[i + j]) == AsciiUpper(p[j])
  }

  lemma FoldedOccursEverywhere(s: string, p: string)
    ensures forall i :: OccursAt(ToAsciiUpper(s), ToAsciiUpper(p), i) <==> FoldedOccursAt(s, p, i)
  {
    var us, up := ToAsciiUpper(s), ToAsciiUpper(p);
    forall i ensures OccursAt(us, up, i) <==> FoldedOccursAt(s, p, i) {
      if 0 <= i && i + |p| <= |s| {
        var w := us[i..i + |p|];
        assert forall j :: 0 <= j < |p| ==> w[j] == us[i + j];
      }
    }
  }

  /** JavaScript's `trimStart`. */
  function TrimStart(s: string): (r: string)
    ensures |r| <= |s| && r == s[|s| - |r|..]
    ensures forall i :: 0 <= i < |s| - |r| ==> IsJsWhiteSpace(s[i])
    ensures |r| > 0 ==> !IsJsWhiteSpace(r[0])
  {
    if |s| > 0 && IsJsWhiteSpace(s[0]) then TrimStart(s[1..]) else s
  }

  /** JavaScript's `trimEnd`. */
  function TrimEnd(s: string): (r: string)
    ensures |r| <= |s| && r == s[..|r|]
    ensures forall i :: |r| <= i < |s| ==> IsJsWhiteSpace(s[i])
    ensures |r| > 0 ==> !IsJsWhiteSpace(r[|r| - 1])
  {
    if |s| > 0 && IsJsWhiteSpace(s[|s| - 1]) then TrimEnd(s[..|s| - 1]) else s
  }

  /** `r` is the piece of `s` at `a`, and all of `s` around it is white space. */
  predicate PaddedAt(s: string, r: string, a: int) {
    && 0 <= a && a + |r| <= |s| && r == s[a..a + |r|]
    && (forall i :: 0 <= i < a ==> IsJsWhiteSpace(s[i]))
    && (forall i :: a + |r| <= i < |s| ==> IsJsWhiteSpace(s[i]))
  }

  /** JavaScript's `trim`: the infix of `s` left after removing leading and
      trailing white space; what remains starts and ends with visible text. */
  function JsTrim(s: string): (r: string)
    ensures exists a :: PaddedAt(s, r, a)
    ensures |r| > 0 ==> !IsJsWhiteSpace(r[0]) && !IsJsWhiteSpace(r[|r| - 1])
  {
    TrimmedPiece(s);
    TrimEnd(TrimStart(s))
  }

  lemma TrimmedPiece(s: string)
    ensures PaddedAt(s, TrimEnd(TrimStart(s)), |s| - |TrimStart(s)|)
  {
    PrefixOfSuffix(s, TrimStart(s), TrimEnd(TrimStart(s)));
  }

  /** A prefix `r` of a suffix `u` of `s`, with only white space cut off on
      either side, is a padded piece of `s`. */
  lemma PrefixOfSuffix(s: string, u: string, r: string)
    requires |u| <= |s| && u == s[|s| - |u|..]
    requires forall i :: 0 <= i < |s| - |u| ==> IsJsWhiteSpace(s[i])
    requires |r| <= |u| && r == u[..|r|]
    requires forall i :: |r| <= i < |u| ==> IsJsWhiteSpace(u[i])
    ensures PaddedAt(s, r, |s| - |u|)
  {
    var a := |s| - |u|;
    assert r == s[a..a + |r|];
    forall i | a + |r| <= i < |s| ensures IsJsWhiteSpace(s[i]) {
      assert s[i] == u[i - a];
    }
  }

  /** The text has a character that is not JavaScript white space. */
  predicate HasVisible(s: string) {
    exists i :: 0 <= i < |s| && !IsJsWhiteSpace(s[i])
  }

  /** A text holding a word that starts with a visible character is not blank. */
  lemma VisibleIfContains(s: string, w: string)
    requires |w| > 0 && !IsJsWhiteSpace(w[0])
    ensures Contains(s, w) ==> HasVisible(s)
  {
    if Contains(s, w) {
      var i :| OccursAt(s, w, i);
      assert s[i] == s[i..i + |w|][0];
    }
  }

  /** `trim` leaves nothing exactly when there is nothing visible. */
  lemma TrimEmptyIffInvisible(s: string)
    ensures JsTrim(s) == "" <==> !HasVisible(s)
  {
    var r := JsTrim(s);
    var a :| PaddedAt(s, r, a);
    if r == "" {
      forall i | 0 <= i < |s| ensures IsJsWhiteSpace(s[i]) {
        assert i < a || a + |r| <= i;
      }
    } else {
      assert s[a] == r[0];
    }
  }

  /** A text with visible ends is its own trim. */
  lemma TrimVisible(s: string)
    requires |s| > 0 && !IsJsWhiteSpace(s[0]) && !IsJsWhiteSpace(s[|s| - 1])
    ensures JsTrim(s) == s
  {
    assert TrimStart(s) == s;
  }

  /** Removing leading white space keeps an occurrence of a pattern that does
      not start with white space, shifted by the amount removed. */
  lemma TrimStartKeepsInfix(s: string, p: string, i: int)
    requires |p| > 0 && !IsJsWhiteSpace(p[0])
    requires OccursAt(s, p, i)
    ensures OccursAt(TrimStart(s), p, i - (|s| - |TrimStart(s)|))
  {
    SuffixKeepsInfix(s, TrimStart(s), p, i);
  }

  /** Cutting off only white space at the front of `s` keeps an occurrence of
      a pattern that does not start with white space. */
  lemma SuffixKeepsInfix(s: string, u: string, p: string, i: int)
    requires |u| <= |s| && u == s[|s| - |u|..]
    requires forall k :: 0 <= k < |s| - |u| ==> IsJsWhiteSpace(s[k])
    requires |p| > 0 && !IsJsWhiteSpace(p[0])
    requires OccursAt(s, p, i)
    ensures OccursAt(u, p, i - (|s| - |u|))
  {
    var a := |s| - |u|;
    assert s[i] == s[i..i + |p|][0] == p[0];
    assert a <= i;
    assert u[i - a..i - a + |p|] == s[i..i + |p|];
  }

  /** Removing trailing white space keeps an occurrence of a pattern that does
      not end with white space. */
  lemma TrimEndKeepsInfix(s: string, p: string, i: int)
    requires |p| > 0 && !IsJsWhiteSpace(p[|p| - 1])
    requires OccursAt(s, p, i)
    ensures OccursAt(TrimEnd(s), p, i)
  {
    var r := TrimEnd(s);
    assert s[i + |p| - 1] == s[i..i + |p|][|p| - 1] == p[|p| - 1];
    assert i + |p| <= |r|;
    assert r[i..i + |p|] == s[i..i + |p|];
  }

  /** Trimming keeps every occurrence of a pattern that neither starts nor ends
      with white space. */
  lemma TrimKeepsInfix(s: string, p: string)
    requires |p| > 0 && !IsJsWhiteSpace(p[0]) && !IsJsWhiteSpace(p[|p| - 1])
    requires Contains(s, p)
    ensures Contains(JsTrim(s), p)
  {
    var i :| OccursAt(s, p, i);
    TrimStartKeepsInfix(s, p, i);
    TrimEndKeepsInfix(TrimStart(s), p, i - (|s| - |TrimStart(s)|));
  }

  /** What `trim` leaves is a piece of the original text. */
  lemma TrimIsInfix(s: string)
    ensures Contains(s, JsTrim(s))
  {
    var u := TrimStart(s);
    var a := |s| - |u|;
    var r := JsTrim(s);
    assert r == u[..|r|];
    assert s[a..a + |r|] == r;
    assert OccursAt(s, r, a);
  }

  /** Every occurrence of `p` in `s` is an occurrence of the lower-cased `p` in
      the lower-cased `s`. */
  lemma LowerKeepsInfix(s: string, p: string)
    requires Contains(s, p)
    ensures Contains(ToAsciiLower(s), ToAsciiLower(p))
  {
    var i :| OccursAt(s, p, i);
    assert ToAsciiLower(s)[i..i + |p|] == ToAsciiLower(p);
    assert OccursAt(ToAsciiLower(s), ToAsciiLower(p), i);
  }
}
