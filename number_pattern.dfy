/** The number reader behind `AmpSnapshotMapper.Num`: the leftmost match of
    the regular expression `-?\d+(\.\d+)?` and its exact decimal value. */
module NumberPattern {
  import opened Wrappers
  import opened Text

  /** One match of `-?\d+(\.\d+)?`: the optional sign, the digits before the
      point and the digits after it (empty when the group did not match). */
  datatype Numeral = Numeral(negative: bool, whole: string, fraction: string) {

    predicate Valid() {
      && |whole| > 0
      && (forall i :: 0 <= i < |whole| ==> IsDigit(whole[i]))
      && (forall i :: 0 <= i < |fraction| ==> IsDigit(fraction[i]))
    }

    /** The numeral written with `sep` as its decimal separator. */
    function Spelling(sep: char): string {
      (if negative then "-" else "") + whole + (if fraction == "" then "" else [sep] + fraction)
    }

    /** The matched text itself. */
    function Text(): string {
      Spelling('.')
    }

    /** The number the text denotes, exactly (the source parses it into the
        nearest `double`): the whole digits plus the fraction digits scaled
        down by one power of ten per digit, negated under a sign. */
    function Value(): (r: real)
      ensures var m := DigitsValue(whole) as real + DigitsValue(fraction) as real / Pow10(|fraction|) as real;
        r == if negative then -m else m
      ensures var w := DigitsValue(whole) as real; var m := if negative then -r else r;
        w <= m < w + 1.0
      ensures fraction == "" ==> r == if negative then -(DigitsValue(whole) as real) else DigitsValue(whole) as real
    {
      var magnitude := DigitsValue(whole + fraction) as real / Pow10(|fraction|) as real;
      MagnitudeSplits(whole, fraction);
      if negative then -magnitude else magnitude
    }
  }

  function DigitValue(c: char): nat {
    if IsDigit(c) then c as int - '0' as int else 0
  }

  /** The base-10 value of a digit string. */
  function DigitsValue(ds: string): nat {
    if ds == [] then 0 else DigitsValue(ds[..|ds| - 1]) * 10 + DigitValue(ds[|ds| - 1])
  }

  function Pow10(n: nat): (r: nat)
    ensures r > 0
  {
    if n == 0 then 1 else 10 * Pow10(n - 1)
  }

  /** Appending digits shifts the value of the digits before them. */
  lemma {:induction false} DigitsValueConcat(a: string, b: string)
    ensures DigitsValue(a + b) == DigitsValue(a) * Pow10(|b|) + DigitsValue(b)
    decreases |b|
  {
    if b == [] {
      assert a + b == a;
    } else {
      var b' := b[..|b| - 1];
      var ab := a + b;
      assert ab[..|ab| - 1] == a + b';
      assert ab[|ab| - 1] == b[|b| - 1];
      DigitsValueConcat(a, b');
      var x, y, q, d := DigitsValue(a), DigitsValue(b'), Pow10(|b'|), DigitValue(b[|b| - 1]);
      assert DigitsValue(ab) == DigitsValue(a + b') * 10 + d;
      assert DigitsValue(b) == y * 10 + d;
      assert Pow10(|b|) == 10 * q;
      MulShift(x, y, q, d);
    }
  }

  lemma MulShift(x: nat, y: nat, q: nat, d: nat)
    ensures (x * q + y) * 10 + d == x * (10 * q) + (y * 10 + d)
  {
  }

  /** `k` digits denote less than `10^k`. */
  lemma {:induction false} DigitsValueBelow(b: string)
    ensures DigitsValue(b) < Pow10(|b|)
    decreases |b|
  {
    if b != [] {
      DigitsValueBelow(b[..|b| - 1]);
    }
  }

  lemma ShiftedSplit(w: nat, f: nat, p: nat)
    requires f < p
    ensures w as real <= (w * p + f) as real / p as real < w as real + 1.0
    ensures f == 0 && p == 1 ==> (w * p + f) as real / p as real == w as real
    ensures (w * p + f) as real / p as real == w as real + f as real / p as real
  {
    var wr, fr, pr := w as real, f as real, p as real;
    assert (w * p + f) as real == wr * pr + fr;
    assert (wr * pr + fr) / pr == wr + fr / pr;
    assert fr / pr < 1.0;
  }

  /** The value is the whole digits plus the scaled fraction digits, so the
      whole digits are its integer part. */
  lemma MagnitudeSplits(whole: string, fraction: string)
    ensures var w := DigitsValue(whole) as real;
      var m := DigitsValue(whole + fraction) as real / Pow10(|fraction|) as real;
      m == w + DigitsValue(fraction) as real / Pow10(|fraction|) as real &&
      w <= m < w + 1.0 && (fraction == "" ==> m == w)
  {
    var w, f, p := DigitsValue(whole), DigitsValue(fraction), Pow10(|fraction|);
    DigitsValueConcat(whole, fraction);
    DigitsValueBelow(fraction);
    ShiftedSplit(w, f, p);
  }

  /** A match of the pattern can begin at index `i`: a digit, or a minus sign
      followed by a digit. */
  predicate MatchStart(t: string, i: int) {
    0 <= i < |t| && (IsDigit(t[i]) || (t[i] == '-' && i + 1 < |t| && IsDigit(t[i + 1])))
  }

  /** A match of `n` that ends at index `e` cannot be extended: no digit follows,
      and when the fraction group is empty no point-and-digit follows either. */
  predicate Greedy(t: string, e: int, n: Numeral)
    requires 0 <= e <= |t|
  {
    e < |t| ==> !IsDigit(t[e]) && (n.fraction == "" ==> !(t[e] == '.' && e + 1 < |t| && IsDigit(t[e + 1])))
  }

  /** `n` is what the regular-expression engine reports when it tries the
      pattern at index `i` (greedy quantifiers, no backtracking needed). */
  ghost predicate MatchesAt(t: string, i: int, n: Numeral) {
    && n.Valid()
    && OccursAt(t, n.Text(), i)
    && Greedy(t, i + |n.Text()|, n)
  }

  /** `n` at `i` is the leftmost match of the pattern in `t`. */
  ghost predicate IsLeftmostMatch(t: string, i: int, n: Numeral) {
    && MatchStart(t, i)
    && (forall k :: 0 <= k < i ==> !MatchStart(t, k))
    && MatchesAt(t, i, n)
  }

  /** The end of the run of digits that begins at `k`. */
  function DigitRunEnd(t: string, k: nat): (e: nat)
    requires k <= |t|
    ensures k <= e <= |t|
    ensures forall j :: k <= j < e ==> IsDigit(t[j])
    ensures e == |t| || !IsDigit(t[e])
    decreases |t| - k
  {
    if k < |t| && IsDigit(t[k]) then DigitRunEnd(t, k + 1) else k
  }

  /** Any run of digits that is followed by a non-digit is the run
      `DigitRunEnd` finds. */
  lemma {:induction false} DigitRunEndIs(t: string, k: nat, e: nat)
    requires k <= e <= |t|
    requires forall j :: k <= j < e ==> IsDigit(t[j])
    requires e == |t| || !IsDigit(t[e])
    ensures DigitRunEnd(t, k) == e
    decreases e - k
  {
    if k < e {
      DigitRunEndIs(t, k + 1, e);
    }
  }

  /** The match the pattern makes at a possible start `i`. */
  function MatchAt(t: string, i: nat): (n: Numeral)
    requires MatchStart(t, i)
    ensures MatchesAt(t, i, n)
  {
    var k := if t[i] == '-' then i + 1 else i;
    var e := DigitRunEnd(t, k);
    var f := if e + 1 < |t| && t[e] == '.' && IsDigit(t[e + 1]) then DigitRunEnd(t, e + 1) else e;
    var n := Numeral(t[i] == '-', t[k..e], if f == e then "" else t[e + 1..f]);
    MatchAtValid(t, i, k, e, f, n);
    MatchAtText(t, i, k, e, f, n);
    MatchAtGreedy(t, i, k, e, f, n);
    n
  }

  /** The parts `MatchAt` cuts out of `t`: sign up to `k`, whole digits up to
      `e`, point and fraction digits up to `f`. */
  ghost predicate MatchParts(t: string, i: nat, k: nat, e: nat, f: nat, n: Numeral) {
    && MatchStart(t, i)
    && k == (if t[i] == '-' then i + 1 else i)
    && k <= |t| && e == DigitRunEnd(t, k)
    && f == (if e + 1 < |t| && t[e] == '.' && IsDigit(t[e + 1]) then DigitRunEnd(t, e + 1) else e)
    && n == Numeral(t[i] == '-', t[k..e], if f == e then "" else t[e + 1..f])
  }

  lemma MatchAtValid(t: string, i: nat, k: nat, e: nat, f: nat, n: Numeral)
    requires MatchParts(t, i, k, e, f, n)
    ensures n.Valid()
  {
    assert k < e;
  }

  lemma MatchAtText(t: string, i: nat, k: nat, e: nat, f: nat, n: Numeral)
    requires MatchParts(t, i, k, e, f, n)
    ensures f <= |t| && n.Text() == t[i..f]
  {
    var sign := if n.negative then "-" else "";
    assert t[i..k] == sign;
    if f == e {
      assert n.Text() == sign + t[k..e];
      assert t[i..e] == t[i..k] + t[k..e];
    } else {
      assert n.Text() == sign + t[k..e] + ("." + t[e + 1..f]);
      assert t[i..f] == t[i..k] + t[k..e] + ([t[e]] + t[e + 1..f]);
    }
  }

  lemma MatchAtGreedy(t: string, i: nat, k: nat, e: nat, f: nat, n: Numeral)
    requires MatchParts(t, i, k, e, f, n)
    ensures f <= |t| && Greedy(t, f, n)
  {
  }

  /** Where the matched text shows the sign, the whole digits and the point. */
  lemma TextLayout(n: Numeral)
    requires n.Valid()
    ensures var s := n.Text(); var w := if n.negative then 1 else 0;
      && |s| == w + |n.whole| + (if n.fraction == "" then 0 else 1 + |n.fraction|)
      && (s[0] == '-' <==> n.negative)
      && s[w..w + |n.whole|] == n.whole
      && (n.fraction != "" ==> s[w + |n.whole|] == '.' && s[w + |n.whole| + 1..] == n.fraction)
  {
    var sign := if n.negative then "-" else "";
    var tail := if n.fraction == "" then "" else "." + n.fraction;
    assert n.Text() == sign + n.whole + tail;
    if !n.negative {
      assert n.Text()[0] == n.whole[0];
    }
  }

  /** The pattern matches in only one way at a given index. */
  lemma MatchAtUnique(t: string, i: nat, n: Numeral)
    requires MatchStart(t, i)
    requires MatchesAt(t, i, n)
    ensures MatchAt(t, i) == n
  {
    var w := if n.negative then 1 else 0;
    var k := i + w;
    var e := k + |n.whole|;
    var f := i + |n.Text()|;
    SignPart(t, i, n);
    WholeRun(t, i, n, k, e);
    DigitRunEndIs(t, k, e);
    FractionPart(t, i, n, e);
    assert MatchParts(t, i, k, e, f, n);
    MatchAtIsParts(t, i, k, e, f, n);
  }

  lemma SignPart(t: string, i: nat, n: Numeral)
    requires MatchesAt(t, i, n)
    ensures i < |t| && (t[i] == '-' <==> n.negative)
  {
    TextLayout(n);
    var s := n.Text();
    assert t[i..i + |s|] == s;
    assert t[i] == s[0];
  }

  /** Where the whole digits end, the pattern takes the fraction exactly when
      `n` has one. */
  lemma FractionPart(t: string, i: nat, n: Numeral, e: nat)
    requires MatchesAt(t, i, n)
    requires e == i + (if n.negative then 1 else 0) + |n.whole|
    ensures var f := i + |n.Text()|;
      && e <= f <= |t|
      && f == (if e + 1 < |t| && t[e] == '.' && IsDigit(t[e + 1]) then DigitRunEnd(t, e + 1) else e)
      && (f == e <==> n.fraction == "")
      && (n.fraction != "" ==> t[e + 1..f] == n.fraction)
  {
    var f := i + |n.Text()|;
    TextLayout(n);
    if n.fraction != "" {
      FractionRun(t, i, n, e);
      DigitRunEndIs(t, e + 1, f);
      assert t[e + 1] == n.fraction[0];
    } else {
      assert Greedy(t, e, n);
    }
  }

  lemma MatchAtIsParts(t: string, i: nat, k: nat, e: nat, f: nat, n: Numeral)
    requires MatchParts(t, i, k, e, f, n)
    ensures MatchAt(t, i) == n
  {
  }

  lemma WholeRun(t: string, i: nat, n: Numeral, k: nat, e: nat)
    requires MatchesAt(t, i, n)
    requires k == i + (if n.negative then 1 else 0) && e == k + |n.whole|
    ensures e <= |t| && t[k..e] == n.whole
    ensures forall j :: k <= j < e ==> IsDigit(t[j])
    ensures n.fraction == "" ==> e == i + |n.Text()|
  {
    TextLayout(n);
    var s := n.Text();
    var u := t[i..i + |s|];
    assert u == s;
    assert t[k..e] == u[k - i..e - i];
    AllDigitsSlice(t, k, e);
  }

  /** A slice made of digits says its positions in `t` hold digits. */
  lemma AllDigitsSlice(t: string, k: nat, e: nat)
    requires k <= e <= |t|
    requires forall x :: 0 <= x < e - k ==> IsDigit(t[k..e][x])
    ensures forall j :: k <= j < e ==> IsDigit(t[j])
  {
    forall j | k <= j < e ensures IsDigit(t[j]) {
      assert t[k..e][j - k] == t[j];
    }
  }

  lemma FractionRun(t: string, i: nat, n: Numeral, e: nat)
    requires MatchesAt(t, i, n) && n.fraction != ""
    requires e == i + (if n.negative then 1 else 0) + |n.whole|
    ensures e + 1 + |n.fraction| == i + |n.Text()|
    ensures t[e] == '.' && t[e + 1..i + |n.Text()|] == n.fraction
    ensures forall j :: e + 1 <= j < i + |n.Text()| ==> IsDigit(t[j])
  {
    TextLayout(n);
    var s := n.Text();
    var f := i + |s|;
    assert t[i..f] == s;
    assert t[e] == s[e - i];
    assert t[e + 1..f] == s[e + 1 - i..];
    AllDigitsSlice(t, e + 1, f);
  }

  /** The leftmost possible start at or after `from`. */
  function FindStart(t: string, from: nat): (r: Option<nat>)
    requires from <= |t|
    ensures r.Some? ==> from <= r.value && MatchStart(t, r.value)
    ensures r.Some? ==> forall k :: from <= k < r.value ==> !MatchStart(t, k)
    ensures r.None? ==> forall k :: from <= k < |t| ==> !MatchStart(t, k)
    decreases |t| - from
  {
    if from == |t| then None
    else if MatchStart(t, from) then Some(from)
    else FindStart(t, from + 1)
  }

  datatype Match = Match(start: nat, numeral: Numeral)

  /** `Regex.Match(t, @"-?\d+(\.\d+)?")`: the leftmost match, or none. */
  function Lex(t: string): (r: Option<Match>)
    ensures r.None? <==> forall k :: !MatchStart(t, k)
    ensures r.Some? ==> IsLeftmostMatch(t, r.value.start, r.value.numeral)
  {
    match FindStart(t, 0)
    case None => None
    case Some(i) => Some(Match(i, MatchAt(t, i)))
  }

  /** The leftmost match is unique, so `Lex` is the only function meeting its
      contract. */
  lemma LeftmostMatchUnique(t: string, i: int, n: Numeral)
    requires IsLeftmostMatch(t, i, n)
    ensures Lex(t) == Some(Match(i, n))
  {
    var r := Lex(t);
    assert r.Some?;
    var j := r.value.start;
    assert !(j < i) && !(i < j);
    MatchAtUnique(t, i, n);
  }

  /** A match exists exactly when the text contains a digit. */
  lemma LexFindsIffDigit(t: string)
    ensures Lex(t).Some? <==> HasDigit(t)
  {
    if HasDigit(t) {
      var i :| 0 <= i < |t| && IsDigit(t[i]);
      assert MatchStart(t, i);
    }
    if Lex(t).Some? {
      var i := Lex(t).value.start;
      assert IsDigit(t[i]) || IsDigit(t[i + 1]);
    }
  }
}
