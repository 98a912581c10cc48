/** `AmpSnapshotMapper`: from the scraped key-to-text dictionary to the typed
    snapshot. Total and pure: a missing key gives an empty text or no
    number, an unknown key is ignored. */
module AmpSnapshotMapper {
  import opened Wrappers
  import opened Text
  import opened NumberPattern
  import opened AmpSnapshot

  /** The scraped sample: semantic key to displayed text. */
  type RawSample = map<string, string>

  /** `Get`: the text under `k`, or `def` when the page has no such field. */
  function Get(d: RawSample, k: string, def: string := ""): (r: string)
    ensures k in d ==> r == d[k]
    ensures k !in d ==> r == def
  {
    if k in d then d[k] else def
  }

  /** The text the pattern is run on: every comma becomes a decimal point. */
  function Normalize(s: string): (r: string)
    ensures |r| == |s|
    ensures forall i :: 0 <= i < |s| ==> r[i] == if s[i] == ',' then '.' else s[i]
  {
    ReplaceCharEverywhere(s, ',', '.');
    ReplaceChar(s, ',', '.')
  }

  /** `Num`: no number for blank text; otherwise the value of the leftmost
      match of `-?\d+(\.\d+)?` in the comma-normalised text, if there is one. */
  function Num(s: string): (r: Option<real>)
    ensures IsBlank(s) ==> r == None
    ensures r.Some? <==> HasDigit(s)
    ensures r.Some? ==> exists i, n :: IsLeftmostMatch(Normalize(s), i, n) && r.value == n.Value()
  {
    NormalizeKeepsDigits(s);
    LexFindsIffDigit(Normalize(s));
    if IsBlank(s) then None
    else
      match Lex(Normalize(s))
      case None => None
      case Some(m) => Some(m.numeral.Value())
  }

  /** Digits are where they were after normalising, and blank text has none. */
  lemma NormalizeKeepsDigits(s: string)
    ensures HasDigit(Normalize(s)) <==> HasDigit(s)
    ensures IsBlank(s) ==> !HasDigit(s)
  {
    var t := Normalize(s);
    if HasDigit(s) {
      var i :| 0 <= i < |s| && IsDigit(s[i]);
      ReplaceCharAt(s, ',', '.', i);
      assert IsDigit(t[i]);
    }
    if HasDigit(t) {
      var i :| 0 <= i < |t| && IsDigit(t[i]);
      ReplaceCharAt(s, ',', '.', i);
      assert IsDigit(s[i]);
    }
  }

  /** `ToSnapshot`: texts are copied, numbers read with `Num`, flags found
      with a case-insensitive search.  With nothing scraped it gives the
      record the C# initialisers build. */
  function ToSnapshot(d: RawSample): (r: Snapshot)
    ensures d == map[] ==> r == Default
  {
    Snapshot(
      BandInfo(Get(d, BandLowKey), Get(d, BandHighKey)),
      Indicators(
        ContainsIgnoreCase(Get(d, CatKey), "ON"),
        ContainsIgnoreCase(Get(d, RemoteKey), "RC")),
      Switches(Get(d, ModeKey)),
      Dashboard(
        Num(Get(d, FwdPowerKey)),
        Num(Get(d, RefPowerKey)),
        Num(Get(d, InputPowerKey)),
        Num(Get(d, DissipationKey)),
        Num(Get(d, SwrKey)),
        Num(Get(d, GainKey)),
        Num(Get(d, BiasLeftKey)),
        Num(Get(d, BiasRightKey)),
        Num(Get(d, DcVoltageKey)),
        Num(Get(d, DcCurrentKey)),
        Num(Get(d, TempCKey)),
        Get(d, TempRelKey)),
      AtuInfo(
        Get(d, AtuStatusKey),
        Num(Get(d, AtuSwrKey)),
        Num(Get(d, AtuTempKey))))
  }

  /** A number is embedded in surrounding text (a label before it, a unit
      after it) and written with either decimal separator: `Num` reads
      exactly that number. */
  lemma NumOfEmbeddedNumeral(pre: string, n: Numeral, sep: char, post: string)
    requires n.Valid()
    requires sep == '.' || sep == ','
    requires !HasDigit(pre) && (|pre| > 0 ==> pre[|pre| - 1] != '-')
    requires |post| > 0 ==> !IsDigit(post[0]) && post[0] != '.' && post[0] != ','
    ensures Num(pre + n.Spelling(sep) + post) == Some(n.Value())
  {
    var s := pre + n.Spelling(sep) + post;
    EmbeddedIsLeftmost(pre, n, sep, post);
    EmbeddedNotBlank(pre, n, sep, post);
    NumOfLex(s);
  }

  /** A text holding a numeral holds a digit, so it is not blank. */
  lemma EmbeddedNotBlank(pre: string, n: Numeral, sep: char, post: string)
    requires n.Valid()
    ensures !IsBlank(pre + n.Spelling(sep) + post)
  {
    var s := pre + n.Spelling(sep) + post;
    var w := if n.negative then 1 else 0;
    assert n.Spelling(sep)[w] == n.whole[0];
    assert s[|pre| + w] == n.Spelling(sep)[w];
    assert IsDigit(s[|pre| + w]);
  }

  lemma EmbeddedIsLeftmost(pre: string, n: Numeral, sep: char, post: string)
    requires n.Valid()
    requires sep == '.' || sep == ','
    requires !HasDigit(pre) && (|pre| > 0 ==> pre[|pre| - 1] != '-')
    requires |post| > 0 ==> !IsDigit(post[0]) && post[0] != '.' && post[0] != ','
    ensures Lex(Normalize(pre + n.Spelling(sep) + post)) == Some(Match(|pre|, n))
  {
    var s := pre + n.Spelling(sep) + post;
    var p, q := Normalize(pre), Normalize(post);
    assert Normalize(s) == p + n.Text() + q by {
      NormalizeConcat(pre + n.Spelling(sep), post);
      NormalizeConcat(pre, n.Spelling(sep));
      NormalizeSpelling(n, sep);
    }
    assert IsLeftmostMatch(Normalize(s), |p|, n) by {
      NormalizeKeepsDigits(pre);
      if |pre| > 0 {
        ReplaceCharAt(pre, ',', '.', |pre| - 1);
      }
      if |post| > 0 {
        ReplaceCharAt(post, ',', '.', 0);
      }
      LeftmostInContext(p, n, q);
    }
    LeftmostMatchUnique(Normalize(s), |p|, n);
  }

  /** `Num` on text that is not blank is the value of its leftmost match. */
  lemma NumOfLex(s: string)
    requires !IsBlank(s)
    ensures Num(s) == match Lex(Normalize(s))
      case None => None
      case Some(m) => Some(m.numeral.Value())
  {
  }

  lemma NormalizeConcat(a: string, b: string)
    ensures Normalize(a + b) == Normalize(a) + Normalize(b)
  {
    ReplaceCharConcat(a, b, ',', '.');
  }

  lemma NormalizeNoComma(s: string)
    requires forall i :: 0 <= i < |s| ==> s[i] != ','
    ensures Normalize(s) == s
  {
    ReplaceCharAbsent(s, ',', '.');
  }

  /** Normalising the numeral written with either separator gives its text. */
  lemma NormalizeSpelling(n: Numeral, sep: char)
    requires sep == '.' || sep == ','
    requires n.Valid()
    ensures Normalize(n.Spelling(sep)) == n.Text()
  {
    var sign := if n.negative then "-" else "";
    var tail := if n.fraction == "" then "" else [sep] + n.fraction;
    var dotTail := if n.fraction == "" then "" else "." + n.fraction;
    assert Normalize(sign + n.whole) == sign + n.whole by {
      NormalizeConcat(sign, n.whole);
      NormalizeNoComma(sign);
      NormalizeNoComma(n.whole);
    }
    assert Normalize(tail) == dotTail by {
      if n.fraction != "" {
        NormalizeConcat([sep], n.fraction);
        NormalizeNoComma(n.fraction);
        assert Normalize([sep]) == ".";
      }
    }
    calc {
      Normalize(n.Spelling(sep));
      { assert n.Spelling(sep) == (sign + n.whole) + tail; }
      Normalize((sign + n.whole) + tail);
      { NormalizeConcat(sign + n.whole, tail); }
      Normalize(sign + n.whole) + Normalize(tail);
      (sign + n.whole) + dotTail;
      n.Text();
    }
  }

  /** With no digit before it and no digit or point right after it, a numeral
      is the leftmost match. */
  lemma LeftmostInContext(p: string, n: Numeral, q: string)
    requires n.Valid()
    requires !HasDigit(p) && (|p| > 0 ==> p[|p| - 1] != '-')
    requires |q| > 0 ==> !IsDigit(q[0]) && q[0] != '.'
    ensures IsLeftmostMatch(p + n.Text() + q, |p|, n)
  {
    var t := p + n.Text() + q;
    assert t == p + (n.Text() + q);
    InfixOccurs(p, n.Text(), q);
    NoStartInLabel(p, n.Text() + q);
    NumeralStarts(p, n, q);
    NumeralGreedy(p, n, q);
  }

  lemma InfixOccurs(p: string, m: string, q: string)
    ensures OccursAt(p + m + q, m, |p|)
  {
    assert (p + m + q)[|p|..|p| + |m|] == m;
  }

  /** No match can start inside a digit-free label that does not end in a
      minus sign. */
  lemma NoStartInLabel(p: string, r: string)
    requires !HasDigit(p) && (|p| > 0 ==> p[|p| - 1] != '-')
    ensures forall k :: 0 <= k < |p| ==> !MatchStart(p + r, k)
  {
    var t := p + r;
    forall k | 0 <= k < |p| ensures !MatchStart(t, k) {
      assert t[k] == p[k];
      if k + 1 < |p| {
        assert t[k + 1] == p[k + 1];
      }
    }
  }

  lemma NumeralStarts(p: string, n: Numeral, q: string)
    requires n.Valid()
    ensures MatchStart(p + n.Text() + q, |p|)
  {
    var t := p + n.Text() + q;
    var i := |p|;
    TextLayout(n);
    var w := if n.negative then 1 else 0;
    assert t[i + w] == n.Text()[w] == n.whole[0];
    if n.negative {
      assert t[i] == n.Text()[0];
    }
  }

  lemma NumeralGreedy(p: string, n: Numeral, q: string)
    requires |q| > 0 ==> !IsDigit(q[0]) && q[0] != '.'
    ensures Greedy(p + n.Text() + q, |p| + |n.Text()|, n)
  {
    var t := p + n.Text() + q;
    if |p| + |n.Text()| < |t| {
      assert t[|p| + |n.Text()|] == q[0];
    }
  }
}

/** What `ToSnapshot` promises its callers. */
module SnapshotProperties {
  import opened Wrappers
  import opened Text
  import opened NumberPattern
  import opened AmpSnapshot
  import opened AmpSnapshotMapper

  /** A field the page does not show gives an empty text, no number, or a
      flag that is off. */
  lemma MissingKeysGiveDefaults(d: RawSample)
    ensures var r := ToSnapshot(d);
      && (BandLowKey !in d ==> r.band.bandLowMhz == "")
      && (BandHighKey !in d ==> r.band.bandHighMhz == "")
      && (CatKey !in d ==> !r.indicators.catIsActive)
      && (RemoteKey !in d ==> !r.indicators.lastCmdIsRemote)
      && (ModeKey !in d ==> r.switches.mode == "")
      && (FwdPowerKey !in d ==> r.dashboard.fwdPowerW == None)
      && (RefPowerKey !in d ==> r.dashboard.refPowerW == None)
      && (InputPowerKey !in d ==> r.dashboard.inputPowerW == None)
      && (DissipationKey !in d ==> r.dashboard.dissipationW == None)
      && (SwrKey !in d ==> r.dashboard.swr == None)
      && (GainKey !in d ==> r.dashboard.gainDb == None)
      && (BiasLeftKey !in d ==> r.dashboard.biasLeftV == None)
      && (BiasRightKey !in d ==> r.dashboard.biasRightV == None)
      && (DcVoltageKey !in d ==> r.dashboard.dcVoltageV == None)
      && (DcCurrentKey !in d ==> r.dashboard.dcCurrentA == None)
      && (TempCKey !in d ==> r.dashboard.tempC == None)
      && (TempRelKey !in d ==> r.dashboard.tempRel == "")
      && (AtuStatusKey !in d ==> r.atu.status == "")
      && (AtuSwrKey !in d ==> r.atu.atuSwr == None)
      && (AtuTempKey !in d ==> r.atu.atuTempC == None)
  {
    EmptyFlagsOff();
  }

  lemma EmptyFlagsOff()
    ensures !ContainsIgnoreCase("", "ON") && !ContainsIgnoreCase("", "RC")
  {
  }

  /** Text fields carry the page's text verbatim. */
  lemma PresentTextIsVerbatim(d: RawSample)
    ensures var r := ToSnapshot(d);
      && (BandLowKey in d ==> r.band.bandLowMhz == d[BandLowKey])
      && (BandHighKey in d ==> r.band.bandHighMhz == d[BandHighKey])
      && (ModeKey in d ==> r.switches.mode == d[ModeKey])
      && (TempRelKey in d ==> r.dashboard.tempRel == d[TempRelKey])
      && (AtuStatusKey in d ==> r.atu.status == d[AtuStatusKey])
  {
  }

  /** A numeric field has a value exactly when its key is present and its text
      holds a digit. */
  lemma NumericFieldPresence(d: RawSample)
    ensures var r := ToSnapshot(d);
      && (r.dashboard.fwdPowerW.Some? <==> FwdPowerKey in d && HasDigit(d[FwdPowerKey]))
      && (r.dashboard.refPowerW.Some? <==> RefPowerKey in d && HasDigit(d[RefPowerKey]))
      && (r.dashboard.inputPowerW.Some? <==> InputPowerKey in d && HasDigit(d[InputPowerKey]))
      && (r.dashboard.dissipationW.Some? <==> DissipationKey in d && HasDigit(d[DissipationKey]))
      && (r.dashboard.swr.Some? <==> SwrKey in d && HasDigit(d[SwrKey]))
      && (r.dashboard.gainDb.Some? <==> GainKey in d && HasDigit(d[GainKey]))
      && (r.dashboard.biasLeftV.Some? <==> BiasLeftKey in d && HasDigit(d[BiasLeftKey]))
      && (r.dashboard.biasRightV.Some? <==> BiasRightKey in d && HasDigit(d[BiasRightKey]))
      && (r.dashboard.dcVoltageV.Some? <==> DcVoltageKey in d && HasDigit(d[DcVoltageKey]))
      && (r.dashboard.dcCurrentA.Some? <==> DcCurrentKey in d && HasDigit(d[DcCurrentKey]))
      && (r.dashboard.tempC.Some? <==> TempCKey in d && HasDigit(d[TempCKey]))
      && (r.atu.atuSwr.Some? <==> AtuSwrKey in d && HasDigit(d[AtuSwrKey]))
      && (r.atu.atuTempC.Some? <==> AtuTempKey in d && HasDigit(d[AtuTempKey]))
  {
  }

  /** `v` is what the mapper reads from `text`: nothing when the text has no
      digit, and otherwise the value of the leftmost match of the pattern in
      the text with commas turned into points. */
  ghost predicate ReadsAs(text: string, v: Option<real>) {
    && (v.None? <==> !HasDigit(text))
    && (v.Some? ==> exists i, n :: IsLeftmostMatch(Normalize(text), i, n) && v.value == n.Value())
  }

  lemma NumReadsAs(text: string)
    ensures ReadsAs(text, Num(text))
  {
  }

  /** A text reads as one value only, so `ReadsAs` pins each numeric field. */
  lemma ReadsAsUnique(text: string, v: Option<real>, w: Option<real>)
    requires ReadsAs(text, v) && ReadsAs(text, w)
    ensures v == w
  {
    if v.Some? {
      var i, n :| IsLeftmostMatch(Normalize(text), i, n) && v.value == n.Value();
      var j, m :| IsLeftmostMatch(Normalize(text), j, m) && w.value == m.Value();
      LeftmostMatchUnique(Normalize(text), i, n);
      LeftmostMatchUnique(Normalize(text), j, m);
    }
  }

  /** Each numeric field is read from its own key's text, and holds the value
      of the leftmost number in it. */
  lemma NumericFieldValues(d: RawSample)
    ensures var r := ToSnapshot(d);
      && r.dashboard.fwdPowerW == Num(Get(d, FwdPowerKey)) && ReadsAs(Get(d, FwdPowerKey), r.dashboard.fwdPowerW)
      && r.dashboard.refPowerW == Num(Get(d, RefPowerKey)) && ReadsAs(Get(d, RefPowerKey), r.dashboard.refPowerW)
      && r.dashboard.inputPowerW == Num(Get(d, InputPowerKey)) && ReadsAs(Get(d, InputPowerKey), r.dashboard.inputPowerW)
      && r.dashboard.dissipationW == Num(Get(d, DissipationKey)) && ReadsAs(Get(d, DissipationKey), r.dashboard.dissipationW)
      && r.dashboard.swr == Num(Get(d, SwrKey)) && ReadsAs(Get(d, SwrKey), r.dashboard.swr)
      && r.dashboard.gainDb == Num(Get(d, GainKey)) && ReadsAs(Get(d, GainKey), r.dashboard.gainDb)
      && r.dashboard.biasLeftV == Num(Get(d, BiasLeftKey)) && ReadsAs(Get(d, BiasLeftKey), r.dashboard.biasLeftV)
      && r.dashboard.biasRightV == Num(Get(d, BiasRightKey)) && ReadsAs(Get(d, BiasRightKey), r.dashboard.biasRightV)
      && r.dashboard.dcVoltageV == Num(Get(d, DcVoltageKey)) && ReadsAs(Get(d, DcVoltageKey), r.dashboard.dcVoltageV)
      && r.dashboard.dcCurrentA == Num(Get(d, DcCurrentKey)) && ReadsAs(Get(d, DcCurrentKey), r.dashboard.dcCurrentA)
      && r.dashboard.tempC == Num(Get(d, TempCKey)) && ReadsAs(Get(d, TempCKey), r.dashboard.tempC)
      && r.atu.atuSwr == Num(Get(d, AtuSwrKey)) && ReadsAs(Get(d, AtuSwrKey), r.atu.atuSwr)
      && r.atu.atuTempC == Num(Get(d, AtuTempKey)) && ReadsAs(Get(d, AtuTempKey), r.atu.atuTempC)
  {
    NumReadsAs(Get(d, FwdPowerKey));
    NumReadsAs(Get(d, RefPowerKey));
    NumReadsAs(Get(d, InputPowerKey));
    NumReadsAs(Get(d, DissipationKey));
    NumReadsAs(Get(d, SwrKey));
    NumReadsAs(Get(d, GainKey));
    NumReadsAs(Get(d, BiasLeftKey));
    NumReadsAs(Get(d, BiasRightKey));
    NumReadsAs(Get(d, DcVoltageKey));
    NumReadsAs(Get(d, DcCurrentKey));
    NumReadsAs(Get(d, TempCKey));
    NumReadsAs(Get(d, AtuSwrKey));
    NumReadsAs(Get(d, AtuTempKey));
  }

  /** Two samples that agree on the known keys give the same snapshot. */
  lemma SameKnownFields(d1: RawSample, d2: RawSample)
    requires forall k :: k in KnownKeys ==> Get(d1, k) == Get(d2, k)
    ensures ToSnapshot(d1) == ToSnapshot(d2)
  {
    assert Get(d1, BandLowKey) == Get(d2, BandLowKey) && Get(d1, BandHighKey) == Get(d2, BandHighKey);
    assert Get(d1, CatKey) == Get(d2, CatKey) && Get(d1, RemoteKey) == Get(d2, RemoteKey);
    assert Get(d1, ModeKey) == Get(d2, ModeKey);
    assert Get(d1, FwdPowerKey) == Get(d2, FwdPowerKey) && Get(d1, RefPowerKey) == Get(d2, RefPowerKey);
    assert Get(d1, InputPowerKey) == Get(d2, InputPowerKey);
    assert Get(d1, DissipationKey) == Get(d2, DissipationKey) && Get(d1, SwrKey) == Get(d2, SwrKey);
    assert Get(d1, GainKey) == Get(d2, GainKey) && Get(d1, BiasLeftKey) == Get(d2, BiasLeftKey);
    assert Get(d1, BiasRightKey) == Get(d2, BiasRightKey);
    assert Get(d1, DcVoltageKey) == Get(d2, DcVoltageKey) && Get(d1, DcCurrentKey) == Get(d2, DcCurrentKey);
    assert Get(d1, TempCKey) == Get(d2, TempCKey) && Get(d1, TempRelKey) == Get(d2, TempRelKey);
    assert Get(d1, AtuStatusKey) == Get(d2, AtuStatusKey) && Get(d1, AtuSwrKey) == Get(d2, AtuSwrKey);
    assert Get(d1, AtuTempKey) == Get(d2, AtuTempKey);
  }

  /** Keys the mapper does not read change nothing. */
  lemma UnknownKeysIgnored(d: RawSample, k: string, v: string)
    requires k !in KnownKeys
    ensures ToSnapshot(d[k := v]) == ToSnapshot(d)
  {
    forall key | key in KnownKeys ensures Get(d[k := v], key) == Get(d, key) {
      assert key != k;
    }
    SameKnownFields(d[k := v], d);
  }

  /** The snapshot depends only on the known keys. */
  lemma OnlyKnownKeysMatter(d: RawSample)
    ensures ToSnapshot(d) == ToSnapshot(map k | k in d && k in KnownKeys :: d[k])
  {
    var r := map k | k in d && k in KnownKeys :: d[k];
    forall key | key in KnownKeys ensures Get(d, key) == Get(r, key) {
      assert key in r <==> key in d;
    }
    SameKnownFields(d, r);
  }

  /** The case-insensitive test for a two-letter marker, spelled out: some
      pair of adjacent characters equals the marker up to ASCII case. */
  lemma {:induction false} TwoLetterMarker(s: string, p: string)
    requires |p| == 2 && p == ToAsciiUpper(p)
    ensures ContainsIgnoreCase(s, p) <==>
      exists i :: 0 <= i < |s| - 1 && AsciiUpper(s[i]) == p[0] && AsciiUpper(s[i + 1]) == p[1]
  {
    var u := ToAsciiUpper(s);
    if ContainsIgnoreCase(s, p) {
      var i :| OccursAt(u, p, i);
      assert u[i..i + 2][0] == u[i] && u[i..i + 2][1] == u[i + 1];
    }
    if exists i :: 0 <= i < |s| - 1 && AsciiUpper(s[i]) == p[0] && AsciiUpper(s[i + 1]) == p[1] {
      var i :| 0 <= i < |s| - 1 && AsciiUpper(s[i]) == p[0] && AsciiUpper(s[i + 1]) == p[1];
      assert u[i..i + 2] == p;
      assert OccursAt(u, p, i);
    }
  }

  /** `catIsActive` holds exactly when the indicator text shows "ON" in any
      case; `lastCmdIsRemote` exactly when it shows "RC". */
  lemma IndicatorFlags(d: RawSample)
    ensures var cat := Get(d, CatKey); var rc := Get(d, RemoteKey); var r := ToSnapshot(d);
      && (r.indicators.catIsActive <==>
           exists i :: 0 <= i < |cat| - 1 && AsciiUpper(cat[i]) == 'O' && AsciiUpper(cat[i + 1]) == 'N')
      && (r.indicators.lastCmdIsRemote <==>
           exists i :: 0 <= i < |rc| - 1 && AsciiUpper(rc[i]) == 'R' && AsciiUpper(rc[i + 1]) == 'C')
  {
    TwoLetterMarker(Get(d, CatKey), "ON");
    TwoLetterMarker(Get(d, RemoteKey), "RC");
  }
}

/** Worked readings of the kind the amplifier page shows. */
module SnapshotExamples {
  import opened Wrappers
  import opened Text
  import opened NumberPattern
  import opened AmpSnapshot
  import opened AmpSnapshotMapper
  import opened SnapshotProperties

  /** `NumOfEmbeddedNumeral` for a text given whole. */
  lemma NumReads(s: string, pre: string, n: Numeral, sep: char, post: string, v: real)
    requires s == pre + n.Spelling(sep) + post
    requires n.Valid() && n.Value() == v
    requires sep == '.' || sep == ','
    requires !HasDigit(pre) && (|pre| > 0 ==> pre[|pre| - 1] != '-')
    requires |post| > 0 ==> !IsDigit(post[0]) && post[0] != '.' && post[0] != ','
    ensures Num(s) == Some(v)
  {
    NumOfEmbeddedNumeral(pre, n, sep, post);
  }

  lemma NumWatts()
    ensures Num("1200 W") == Some(1200.0)
  {
    var n := Numeral(false, "1200", "");
    assert n.Valid() && n.Spelling('.') == "1200" by {
      assert IsDigit('1') && IsDigit('2') && IsDigit('0');
    }
    ValueOf1200();
    assert "" + "1200" + " W" == "1200 W";
    NumReads("1200 W", "", n, '.', " W", 1200.0);
  }

  lemma ValueOf1200()
    ensures Numeral(false, "1200", "").Value() == 1200.0
  {
    assert "1200"[..3] == "120" && "120"[..2] == "12" && "12"[..1] == "1" && "1"[..0] == "";
    assert "1200" + "" == "1200";
    assert DigitsValue("1200") == 1200;
  }

  lemma NumSwrPoint()
    ensures Num("1.8") == Some(1.8)
  {
    var n := Numeral(false, "1", "8");
    assert n.Valid() && n.Spelling('.') == "1.8" by {
      assert IsDigit('1') && IsDigit('8');
    }
    ValueOfOnePointEight();
    assert "" + "1.8" + "" == "1.8";
    NumReads("1.8", "", n, '.', "", 1.8);
  }

  lemma ValueOfOnePointEight()
    ensures Numeral(false, "1", "8").Value() == 1.8
  {
    assert "18"[..1] == "1" && "1"[..0] == "";
    assert "1" + "8" == "18";
    assert DigitsValue("18") == 18;
  }

  /** A comma decimal separator reads like a point. */
  lemma NumSwrComma()
    ensures Num("SWR 1,35:1") == Some(1.35)
  {
    var n := Numeral(false, "1", "35");
    assert n.Valid() && n.Spelling(',') == "1,35" by {
      assert IsDigit('1') && IsDigit('3') && IsDigit('5');
    }
    ValueOfOneThirtyFive();
    SwrLabelHasNoDigit();
    assert "SWR " + "1,35" + ":1" == "SWR 1,35:1";
    NumReads("SWR 1,35:1", "SWR ", n, ',', ":1", 1.35);
  }

  lemma SwrLabelHasNoDigit()
    ensures !HasDigit("SWR ") && "SWR "[3] != '-'
  {
    assert forall i :: 0 <= i < 4 ==> !IsDigit("SWR "[i]);
  }

  lemma ValueOfOneThirtyFive()
    ensures Numeral(false, "1", "35").Value() == 1.35
  {
    assert "135"[..2] == "13" && "13"[..1] == "1" && "1"[..0] == "";
    assert "1" + "35" == "135";
    assert DigitsValue("135") == 135;
    assert Pow10(2) == 100;
  }

  lemma NumNegative()
    ensures Num("-3.5 dB") == Some(-3.5)
  {
    var n := Numeral(true, "3", "5");
    assert n.Valid() && n.Spelling('.') == "-3.5" by {
      assert IsDigit('3') && IsDigit('5');
    }
    ValueOfMinusThreePointFive();
    assert "" + "-3.5" + " dB" == "-3.5 dB";
    NumReads("-3.5 dB", "", n, '.', " dB", -3.5);
  }

  lemma ValueOfMinusThreePointFive()
    ensures Numeral(true, "3", "5").Value() == -3.5
  {
    assert "35"[..1] == "3" && "3"[..0] == "";
    assert "3" + "5" == "35";
    assert DigitsValue("35") == 35;
  }

  lemma NumNoDigits()
    ensures Num("") == None && Num("  ") == None && Num("n/a") == None
  {
    assert !HasDigit("n/a") by {
      assert forall i :: 0 <= i < 3 ==> !IsDigit("n/a"[i]);
    }
  }

  lemma CatFlagExamples()
    ensures ToSnapshot(map[CatKey := "CAT ON"]).indicators.catIsActive
    ensures ToSnapshot(map[CatKey := "cat on"]).indicators.catIsActive
    ensures !ToSnapshot(map[CatKey := "CAT OFF"]).indicators.catIsActive
    ensures ToSnapshot(map[RemoteKey := "RC"]).indicators.lastCmdIsRemote
  {
    CatOnIsActive();
    LowerCatOnIsActive();
    CatOffIsInactive();
    RcIsRemote();
  }

  lemma LowerCatOnIsActive()
    ensures ContainsIgnoreCase("cat on", "ON")
  {
    TwoLetterMarker("cat on", "ON");
    assert AsciiUpper("cat on"[4]) == 'O' && AsciiUpper("cat on"[5]) == 'N';
  }

  lemma CatOffIsInactive()
    ensures !ContainsIgnoreCase("CAT OFF", "ON")
  {
    TwoLetterMarker("CAT OFF", "ON");
    var s := "CAT OFF";
    assert s[1] == 'A' && s[2] == 'T' && s[3] == ' ' && s[4] == 'O' && s[5] == 'F' && s[6] == 'F';
    forall i | 0 <= i < |s| - 1 ensures !(AsciiUpper(s[i]) == 'O' && AsciiUpper(s[i + 1]) == 'N') {
      assert i + 1 == 1 || i + 1 == 2 || i + 1 == 3 || i + 1 == 4 || i + 1 == 5 || i + 1 == 6;
    }
  }

  lemma RcIsRemote()
    ensures ContainsIgnoreCase("RC", "RC")
  {
    TwoLetterMarker("RC", "RC");
    assert AsciiUpper("RC"[0]) == 'R' && AsciiUpper("RC"[1]) == 'C';
  }

  /** A sample with forward power, SWR and CAT status. */
  lemma FullReading()
    ensures var r := ToSnapshot(map[FwdPowerKey := "1200 W", SwrKey := "1.8", CatKey := "CAT ON"]);
      r.dashboard.fwdPowerW == Some(1200.0) && r.dashboard.swr == Some(1.8) &&
      r.indicators.catIsActive && r.dashboard.refPowerW == None
  {
    var d := map[FwdPowerKey := "1200 W", SwrKey := "1.8", CatKey := "CAT ON"];
    assert Get(d, FwdPowerKey) == "1200 W" && Get(d, SwrKey) == "1.8";
    assert Get(d, RefPowerKey) == "";
    NumWatts();
    NumSwrPoint();
    assert ToSnapshot(d).indicators.catIsActive by {
      assert Get(d, CatKey) == "CAT ON";
      CatOnIsActive();
    }
  }

  lemma CatOnIsActive()
    ensures ContainsIgnoreCase("CAT ON", "ON")
  {
    assert ToAsciiUpper("CAT ON") == "CAT ON";
    assert ToAsciiUpper("ON") == "ON";
    assert OccursAt("CAT ON", "ON", 4);
  }
}
