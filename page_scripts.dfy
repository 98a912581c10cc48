/**
 * The scripts the monitor runs inside the amplifier's control page to find,
 * read and press its buttons.  The page is seen as the text content of its
 * `<button>` elements in document order; `Array.prototype.find` returns the
 * first of them that satisfies the script's test.
 */
module PageScripts {
  import opened Wrappers
  import opened Text

  /** The `textContent` of every `<button>`, in document order. */
  type Page = seq<string>

  /** The button tests used by the scripts. */
  datatype Finder =
    | StandbyCaption   // reconcile: trimmed text is OPERATE or STANDBY
    | BypassButton     // reconcile and click: text contains BYPASS
    | PowerButton      // reconcile and click: trimmed text is POWER OFF or POWER ON
    | TuneButton       // click: trimmed text is TUNE
    | StandbyToggle    // click: trimmed text is OPERATE, or lower-cased text contains standby

  /** The test a script applies to one button's text.  No test accepts a
      button that shows nothing but white space. */
  predicate Matches(f: Finder, text: string): (r: bool)
    ensures r ==> HasVisible(text)
  {
    TrimEmptyIffInvisible(text);
    VisibleIfContains(text, "BYPASS");
    VisibleIfLowerStandby(text);
    match f
    case StandbyCaption => JsTrim(text) == "OPERATE" || JsTrim(text) == "STANDBY"
    case BypassButton => Contains(text, "BYPASS")
    case PowerButton => JsTrim(text) == "POWER OFF" || JsTrim(text) == "POWER ON"
    case TuneButton => JsTrim(text) == "TUNE"
    case StandbyToggle => JsTrim(text) == "OPERATE" || Contains(ToAsciiLower(text), "standby")
  }

  lemma VisibleIfLowerStandby(text: string)
    ensures Contains(ToAsciiLower(text), "standby") ==> HasVisible(text)
  {
    if Contains(ToAsciiLower(text), "standby") {
      var u := ToAsciiLower(text);
      var i :| OccursAt(u, "standby", i);
      assert u[i] == u[i..i + 7][0] == 's';
      assert AsciiLower(text[i]) == 's';
    }
  }

  /** `Array.prototype.find` as an index: the first element that passes `p`. */
  function FirstWhere(p: string -> bool, page: Page): (r: Option<nat>)
    ensures r.None? <==> forall i :: 0 <= i < |page| ==> !p(page[i])
    ensures r.Some? ==> r.value < |page| && p(page[r.value])
    ensures r.Some? ==> forall i :: 0 <= i < r.value ==> !p(page[i])
    decreases |page|
  {
    if page == [] then None
    else if p(page[0]) then Some(0)
    else
      var rest := FirstWhere(p, page[1..]);
      assert forall i :: 1 <= i < |page| ==> page[i] == page[1..][i - 1];
      match rest
      case None => None
      case Some(k) => Some(k + 1)
  }

  /** The index of the first button that passes the test, if any. */
  function Find(f: Finder, page: Page): (r: Option<nat>)
    ensures r.None? <==> forall i :: 0 <= i < |page| ==> !Matches(f, page[i])
    ensures r.Some? ==> r.value < |page| && Matches(f, page[r.value])
    ensures r.Some? ==> forall i :: 0 <= i < r.value ==> !Matches(f, page[i])
  {
    FirstWhere(t => Matches(f, t), page)
  }

  /** The trimmed text of the first matching button, or "" when none
      matches (the script's `?.textContent.trim() || ''`). */
  function Caption(f: Finder, page: Page): (r: string)
    ensures r == "" <==> Find(f, page).None?
    ensures Find(f, page).Some? ==> Contains(page[Find(f, page).value], r)
  {
    match Find(f, page)
    case None => ""
    case Some(i) =>
      TrimEmptyIffInvisible(page[i]);
      TrimIsInfix(page[i]);
      JsTrim(page[i])
  }

  /** The object the reconcile script builds before it is serialised. */
  function ReconcileState(page: Page): (r: map<string, string>)
    ensures r.Keys == {"standby", "bypass", "power"}
  {
    map["standby" := Caption(StandbyCaption, page),
        "bypass" := Caption(BypassButton, page),
        "power" := Caption(PowerButton, page)]
  }

  /** A reconciled caption is one of the two button words, or empty exactly
      when no button on the page qualifies. */
  lemma StandbyCaptionShape(page: Page)
    ensures Caption(StandbyCaption, page) in {"OPERATE", "STANDBY", ""}
    ensures Caption(StandbyCaption, page) == "" <==> Find(StandbyCaption, page).None?
  {
  }

  lemma PowerCaptionShape(page: Page)
    ensures Caption(PowerButton, page) in {"POWER OFF", "POWER ON", ""}
    ensures Caption(PowerButton, page) == "" <==> Find(PowerButton, page).None?
  {
  }

  /** The bypass caption is the whole trimmed button text, which still shows
      BYPASS; it is empty exactly when no button mentions BYPASS. */
  lemma BypassCaptionShape(page: Page)
    ensures Caption(BypassButton, page) == "" <==> Find(BypassButton, page).None?
    ensures Caption(BypassButton, page) != "" ==> Contains(Caption(BypassButton, page), "BYPASS")
  {
    match Find(BypassButton, page)
    case None =>
    case Some(i) =>
      assert !IsJsWhiteSpace('B') && !IsJsWhiteSpace('S');
      TrimKeepsInfix(page[i], "BYPASS");
      var t := JsTrim(page[i]);
      var k :| OccursAt(t, "BYPASS", k);
      assert |t| > 0;
  }

  /** The report the click scripts return after pressing a button. */
  function ClickScript(f: Finder, page: Page): (r: string)
    ensures Find(f, page).None? ==> r == "not found"
    ensures Find(f, page).Some? ==> r == "Clicked: " + JsTrim(page[Find(f, page).value])
  {
    match Find(f, page)
    case None => "not found"
    case Some(i) => "Clicked: " + JsTrim(page[i])
  }

  /** How the C# handlers read a click report. */
  predicate ReportsNotFound(result: string): (r: bool)
    ensures result == "not found" ==> r
  {
    assert result == "not found" ==> OccursAt(result, "not found", 0);
    Contains(result, "not found")
  }

  /** For the tune and power buttons the report says "not found" exactly when
      no button qualifies. */
  lemma ExactClickNotFound(f: Finder, page: Page)
    requires f == TuneButton || f == PowerButton
    ensures ReportsNotFound(ClickScript(f, page)) <==> Find(f, page).None?
  {
    match Find(f, page)
    case None =>
      assert OccursAt("not found", "not found", 0);
    case Some(i) =>
      ClickedFixedWordNotMissing(JsTrim(page[i]));
  }

  lemma ClickedFixedWordNotMissing(t: string)
    requires t == "TUNE" || t == "POWER OFF" || t == "POWER ON"
    ensures !ReportsNotFound("Clicked: " + t)
  {
    var r := "Clicked: " + t;
    assert forall i :: 0 <= i < |r| ==> r[i] != 'n' by {
      assert forall i :: 0 <= i < |t| ==> t[i] != 'n';
      assert forall i :: 9 <= i < |r| ==> r[i] == t[i - 9];
    }
    NotContainsWithoutHead(r, "not found");
  }

  /** Any button whose text reads "not found" after "BYPASS" is pressed and
      is still reported missing. */
  lemma BypassMisreport()
    ensures Find(BypassButton, ["BYPASS not found"]) == Some(0)
    ensures ReportsNotFound(ClickScript(BypassButton, ["BYPASS not found"]))
  {
    var b := "BYPASS not found";
    BypassLabelMatches();
    SingleButtonFind(BypassButton, b);
    MisreportText();
  }

  lemma BypassLabelMatches()
    ensures Matches(BypassButton, "BYPASS not found")
  {
    assert OccursAt("BYPASS not found", "BYPASS", 0);
  }

  lemma MisreportText()
    ensures ReportsNotFound("Clicked: " + JsTrim("BYPASS not found"))
  {
    var b := "BYPASS not found";
    assert b[0] == 'B' && b[|b| - 1] == 'd';
    assert OccursAt(b, "not found", 7);
    VisibleReportNotFound(b, 7);
  }

  /** A button whose caption has no white space around it and holds "not
      found" makes the click report say "not found". */
  lemma VisibleReportNotFound(b: string, j: int)
    requires |b| > 0 && !IsJsWhiteSpace(b[0]) && !IsJsWhiteSpace(b[|b| - 1])
    requires OccursAt(b, "not found", j)
    ensures ReportsNotFound("Clicked: " + JsTrim(b))
  {
    TrimVisible(b);
    var s := "Clicked: " + b;
    assert s[9 + j..9 + j + 9] == b[j..j + 9];
    assert OccursAt(s, "not found", 9 + j);
  }

  /** On a page with one button, `find` gives that button exactly when it
      qualifies. */
  lemma SingleButtonFind(f: Finder, b: string)
    ensures Find(f, [b]) == if Matches(f, b) then Some(0) else None
  {
    assert [b][0] == b;
  }

  /** Every button the reconcile script reads as the standby caption is one
      the standby click would press. */
  lemma StandbyCaptionIsToggle(text: string)
    requires Matches(StandbyCaption, text)
    ensures Matches(StandbyToggle, text)
  {
    if JsTrim(text) != "OPERATE" {
      StandbyWordInLowerCase(text);
    }
  }

  lemma StandbyWordInLowerCase(text: string)
    requires JsTrim(text) == "STANDBY"
    ensures Contains(ToAsciiLower(text), "standby")
  {
    TrimIsInfix(text);
    LowerKeepsInfix(text, "STANDBY");
    LowerStandby();
  }

  lemma LowerStandby()
    ensures ToAsciiLower("STANDBY") == "standby"
  {
  }

  /** Hence the standby click finds a button whenever the reconcile script
      does, and never a later one. */
  lemma StandbyToggleFindsCaption(page: Page)
    requires Find(StandbyCaption, page).Some?
    ensures Find(StandbyToggle, page).Some?
    ensures Find(StandbyToggle, page).value <= Find(StandbyCaption, page).value
  {
    StandbyCaptionIsToggle(page[Find(StandbyCaption, page).value]);
  }

  /** The converse fails: the click also accepts text the reconcile script
      ignores. */
  lemma StandbyToggleIsWider()
    ensures Matches(StandbyToggle, "Standby mode")
    ensures !Matches(StandbyCaption, "Standby mode")
  {
    StandbyModeLowered();
    StandbyModeTrimmed();
  }

  lemma StandbyModeLowered()
    ensures Contains(ToAsciiLower("Standby mode"), "standby")
  {
    var t := "Standby mode";
    assert OccursAt(t, "Standby", 0) by {
      assert t[..7] == "Standby";
    }
    LowerKeepsInfix(t, "Standby");
    LowerCapitalStandby();
  }

  lemma StandbyModeTrimmed()
    ensures JsTrim("Standby mode") == "Standby mode"
  {
    var t := "Standby mode";
    assert t[0] == 'S' && t[|t| - 1] == 'e';
    TrimVisible(t);
  }

  lemma LowerCapitalStandby()
    ensures ToAsciiLower("Standby") == "standby"
  {
  }

  /** A page showing only a STANDBY button reconciles to that caption alone. */
  lemma StandbyOnlyPage()
    ensures ReconcileState(["STANDBY"]) == map["standby" := "STANDBY", "bypass" := "", "power" := ""]
  {
    StandbyPageStandbyCaption();
    StandbyPageBypassCaption();
    StandbyPagePowerCaption();
  }

  lemma StandbyPageStandbyCaption()
    ensures Caption(StandbyCaption, ["STANDBY"]) == "STANDBY"
  {
    TrimStandby();
    SingleButtonCaption(StandbyCaption, "STANDBY");
  }

  lemma StandbyPageBypassCaption()
    ensures Caption(BypassButton, ["STANDBY"]) == ""
  {
    NoBypassInStandby();
    SingleButtonCaption(BypassButton, "STANDBY");
  }

  lemma StandbyPagePowerCaption()
    ensures Caption(PowerButton, ["STANDBY"]) == ""
  {
    TrimStandby();
    SingleButtonCaption(PowerButton, "STANDBY");
  }

  /** On a page with one button, the caption is that button's trimmed text
      when it qualifies. */
  lemma SingleButtonCaption(f: Finder, b: string)
    ensures Caption(f, [b]) == if Matches(f, b) then JsTrim(b) else ""
  {
    assert [b][0] == b;
  }

  lemma TrimStandby()
    ensures JsTrim("STANDBY") == "STANDBY"
  {
    var s := "STANDBY";
    assert s[0] == 'S' && s[|s| - 1] == 'Y';
    TrimVisible(s);
  }

  lemma NoBypassInStandby()
    ensures !Contains("STANDBY", "BYPASS")
  {
    assert "STANDBY"[..6][0] != "BYPASS"[0];
    assert "STANDBY"[1..] == "TANDBY";
    assert "TANDBY"[..6][0] != "BYPASS"[0];
    assert "TANDBY"[1..] == "ANDBY";
  }
}
