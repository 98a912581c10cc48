/**
 * The text a WebView2 script call hands back.  `ExecuteScriptAsync` returns
 * the script's result as JSON, so a script that itself returns a JSON text
 * comes back as a quoted JSON string.  `UnwrapWebView2Json` strips that outer
 * layer by hand, undoing only the escapes of `"` and `\`.
 */
module WebViewJson {
  import opened Text

  const Quote: string := ['"']
  const Backslash: string := ['\\']
  const EscapedQuote: string := ['\\', '"']
  const EscapedBackslash: string := ['\\', '\\']

  predicate IsQuoted(raw: string) {
    |raw| >= 2 && raw[0] == '"' && raw[|raw| - 1] == '"'
  }

  /** Strips the quotes around a JSON string literal and undoes the escaped
      quote first and the escaped backslash second.  An empty or unquoted
      text is returned as it is. */
  function UnwrapWebView2Json(raw: string): (r: string)
    ensures !IsQuoted(raw) ==> r == raw
    ensures IsQuoted(raw) ==> |r| <= |raw| - 2
    ensures IsQuoted(raw) && (forall i :: 1 <= i < |raw| - 1 ==> raw[i] != '\\') ==> r == raw[1..|raw| - 1]
  {
    if raw == [] then raw
    else if IsQuoted(raw) then
      var inner := raw[1..|raw| - 1];
      var once := ReplaceAll(inner, EscapedQuote, Quote);
      ReplaceAllNoLonger(inner, EscapedQuote, Quote);
      ReplaceAllNoLonger(once, EscapedBackslash, Backslash);
      assert (forall i :: 0 <= i < |inner| ==> inner[i] != '\\') ==> ReplaceAll(once, EscapedBackslash, Backslash) == inner by {
        if forall i :: 0 <= i < |inner| ==> inner[i] != '\\' {
          ReplaceAllAbsent(inner, EscapedQuote, Quote);
          ReplaceAllAbsent(once, EscapedBackslash, Backslash);
        }
      }
      ReplaceAll(once, EscapedBackslash, Backslash)
    else raw
  }

  /** The body of a JSON string literal for `s` as far as `"` and `\` go: each
      is preceded by a backslash, every other character is kept. */
  function Escape(s: string): (r: string)
    ensures |r| >= |s|
    ensures |s| > 0 ==> |r| > 0 && r[0] != '"'
    decreases |s|
  {
    if s == [] then []
    else if s[0] == '"' then EscapedQuote + Escape(s[1..])
    else if s[0] == '\\' then Backslash + (Backslash + Escape(s[1..]))
    else [s[0]] + Escape(s[1..])
  }

  /** The quoted form in which the script's JSON text is handed back. */
  function JsonQuote(s: string): (r: string)
    ensures IsQuoted(r)
  {
    Quote + Escape(s) + Quote
  }

  /** `s` with each backslash doubled: what is left of `Escape(s)` after the
      escaped quotes are undone. */
  function HalfUnescaped(s: string): string
    decreases |s|
  {
    if s == [] then []
    else if s[0] == '\\' then Backslash + (Backslash + HalfUnescaped(s[1..]))
    else [s[0]] + HalfUnescaped(s[1..])
  }

  lemma {:induction false} UndoEscapedQuotes(s: string)
    ensures ReplaceAll(Escape(s), EscapedQuote, Quote) == HalfUnescaped(s)
    decreases |s|
  {
    if s != [] {
      var rest := Escape(s[1..]);
      UndoEscapedQuotes(s[1..]);
      if s[0] == '"' {
        var e := EscapedQuote + rest;
        assert e[..2] == EscapedQuote && e[2..] == rest;
      } else if s[0] == '\\' {
        LoneBackslashStep(Backslash + rest);
        LoneBackslashStep(rest);
      } else {
        PlainCharStep(s[0], rest);
      }
    }
  }

  /** A backslash that is not followed by a quote starts no escaped quote. */
  lemma LoneBackslashStep(rest: string)
    requires |rest| > 0 ==> rest[0] != '"'
    ensures ReplaceAll(Backslash + rest, EscapedQuote, Quote) == Backslash + ReplaceAll(rest, EscapedQuote, Quote)
  {
    var t := Backslash + rest;
    BackslashPrefix(rest);
    if rest != [] {
      ReplaceAllKeepsHead(t, EscapedQuote, Quote);
    } else {
      assert t == Backslash;
    }
  }

  /** How a backslash sits on `rest`. */
  lemma BackslashPrefix(rest: string)
    requires |rest| > 0 ==> rest[0] != '"'
    ensures var t := Backslash + rest;
      && t[0] == '\\' && t[1..] == rest && (|t| >= 2 ==> t[..2] != EscapedQuote)
      && Backslash == [t[0]]
  {
    var t := Backslash + rest;
    if |t| >= 2 {
      assert t[..2][1] != EscapedQuote[1];
    }
  }

  /** A character other than a backslash starts no escaped quote. */
  lemma PlainCharStep(c: char, rest: string)
    requires c != '\\'
    ensures ReplaceAll([c] + rest, EscapedQuote, Quote) == [c] + ReplaceAll(rest, EscapedQuote, Quote)
  {
    var e := [c] + rest;
    if rest != [] {
      assert e[..2][0] == c;
      assert e[1..] == rest;
    }
  }

  lemma {:induction false} UndoEscapedBackslashes(s: string)
    ensures ReplaceAll(HalfUnescaped(s), EscapedBackslash, Backslash) == s
    decreases |s|
  {
    if s != [] {
      var rest := HalfUnescaped(s[1..]);
      UndoEscapedBackslashes(s[1..]);
      if s[0] == '\\' {
        var m := Backslash + (Backslash + rest);
        assert m[..2] == EscapedBackslash && m[2..] == rest;
      } else {
        var m := [s[0]] + rest;
        if |m| >= 2 {
          assert m[..2][0] == s[0];
          assert m[1..] == rest;
        } else {
          assert rest == [] && s[1..] == [];
        }
      }
    }
    assert s == [] ==> HalfUnescaped(s) == [];
  }

  /** Unwrapping undoes the quoting of any text. */
  lemma UnwrapJsonQuote(s: string)
    ensures UnwrapWebView2Json(JsonQuote(s)) == s
  {
    var q := JsonQuote(s);
    assert q[1..|q| - 1] == Escape(s);
    UndoEscapedQuotes(s);
    UndoEscapedBackslashes(s);
  }

  /** Escapes other than those of `"` and `\` are left in place: a JSON `\n`
      survives as a backslash followed by `n`. */
  lemma OtherEscapesKept()
    ensures UnwrapWebView2Json(['"', 'a', '\\', 'n', 'b', '"']) == ['a', '\\', 'n', 'b']
  {
    var inner := ['a', '\\', 'n', 'b'];
    assert ['"', 'a', '\\', 'n', 'b', '"'][1..5] == inner;
    assert ReplaceAll(inner, EscapedQuote, Quote) == inner by {
      assert inner[..2][0] != EscapedQuote[0];
      assert inner[1..] == ['\\', 'n', 'b'];
      assert inner[1..][..2][1] != EscapedQuote[1];
      assert inner[1..][1..] == ['n', 'b'];
      assert inner[1..][1..][..2] != EscapedQuote;
      assert inner[1..][1..][1..] == ['b'];
    }
    assert ReplaceAll(inner, EscapedBackslash, Backslash) == inner by {
      assert inner[..2] != EscapedBackslash;
      assert inner[1..] == ['\\', 'n', 'b'];
      assert inner[1..][..2] != EscapedBackslash;
      assert inner[1..][1..] == ['n', 'b'];
      assert inner[1..][1..][..2] != EscapedBackslash;
      assert inner[1..][1..][1..] == ['b'];
    }
  }
}
