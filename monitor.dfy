/**
 * The monitor window: one poll cycle, the reconciliation of the three button
 * captions with the page, and the decisions taken when a button is pressed.
 * Every call into the page is a parameter: the scrape script's raw result, the
 * JSON deserialiser, the decoded reconcile state, the page's buttons.
 */
module Monitor {
  import opened Wrappers
  import opened Text
  import opened AmpSnapshot
  import opened AmpSnapshotMapper
  import opened PeakHold
  import opened WebViewJson
  import opened PageScripts

  /** The sample a poll cycle goes on with, or `None` when it stops early: the
      page is not ready, the unwrapped text is blank, or deserialising gives
      nothing (`null`, an error) or an empty dictionary. */
  function PollSample(ready: bool, raw: string, decode: string -> Option<RawSample>): (r: Option<RawSample>)
    ensures r.Some? <==>
      ready && !IsBlank(UnwrapWebView2Json(raw)) &&
      decode(UnwrapWebView2Json(raw)).Some? && |decode(UnwrapWebView2Json(raw)).value| > 0
    ensures r.Some? ==> r == decode(UnwrapWebView2Json(raw))
  {
    if !ready then None
    else
      var cleaned := UnwrapWebView2Json(raw);
      if IsBlank(cleaned) then None
      else
        match decode(cleaned)
        case None => None
        case Some(d) => if |d| == 0 then None else Some(d)
  }

  /** A page that is ready and hands back the quoted form of a non-blank JSON
      text goes on with exactly what that text deserialises to. */
  lemma PollSampleOfQuotedText(t: string, decode: string -> Option<RawSample>)
    requires !IsBlank(t) && decode(t).Some? && |decode(t).value| > 0
    ensures PollSample(true, JsonQuote(t), decode) == decode(t)
  {
    UnwrapJsonQuote(t);
  }

  /** The SWR reading turns the warning colour on only above 2.0; an unknown
      reading counts as a perfect 1.0. */
  function SwrWarning(swr: Option<real>): (r: bool)
    ensures r <==> swr.Some? && swr.value > 2.0
  {
    swr.GetOr(1.0) > 2.0
  }

  lemma SwrWarningExamples()
    ensures SwrWarning(Some(2.5)) && !SwrWarning(Some(1.8))
    ensures !SwrWarning(Some(2.0)) && !SwrWarning(None)
  {
  }

  /** A caption is overwritten only by a present, non-empty reconciled value. */
  function NextCaption(current: string, state: map<string, string>, key: string): (r: string)
    ensures key in state && state[key] != "" ==> r == state[key]
    ensures !(key in state && state[key] != "") ==> r == current
    ensures current != "" ==> r != ""
  {
    if key in state && state[key] != "" then state[key] else current
  }

  /** Reconciling with a page takes over the caption of the first qualifying
      button and keeps the old caption when there is none. */
  lemma ReconcileWithPage(page: Page, standby: string, bypass: string, power: string)
    ensures var st := ReconcileState(page);
      && NextCaption(standby, st, "standby") ==
           (if Find(StandbyCaption, page).Some? then JsTrim(page[Find(StandbyCaption, page).value]) else standby)
      && NextCaption(bypass, st, "bypass") ==
           (if Find(BypassButton, page).Some? then JsTrim(page[Find(BypassButton, page).value]) else bypass)
      && NextCaption(power, st, "power") ==
           (if Find(PowerButton, page).Some? then JsTrim(page[Find(PowerButton, page).value]) else power)
  {
    StandbyCaptionShape(page);
    BypassCaptionShape(page);
    PowerCaptionShape(page);
  }

  /** What pressing a page button leads to. */
  datatype ClickOutcome =
    | Ignored           // the page is not ready
    | Declined          // the user did not confirm powering off
    | NotFound          // the report mentions "not found"; an error is shown
    | Clicked(report: string)

  /** The tune, bypass and standby buttons.  The C# side reads the script's
      report after unwrapping the quoted form in which it is handed back. */
  function ClickOutcomeOf(ready: bool, f: Finder, page: Page): (r: ClickOutcome)
    ensures r == Ignored <==> !ready
    ensures ready && Find(f, page).None? ==> r == NotFound
    ensures r.Clicked? ==> Find(f, page).Some? && r.report == ClickScript(f, page)
    ensures ready ==> (r == NotFound <==> ReportsNotFound(ClickScript(f, page)))
    ensures ready && !ReportsNotFound(ClickScript(f, page)) ==> r == Clicked(ClickScript(f, page))
  {
    if !ready then Ignored
    else
      var result := UnwrapWebView2Json(JsonQuote(ClickScript(f, page)));
      UnwrapJsonQuote(ClickScript(f, page));
      assert Find(f, page).None? ==> OccursAt(result, "not found", 0);
      if ReportsNotFound(result) then NotFound else Clicked(result)
  }

  /** For the tune button the outcome is exact: it is pressed exactly when the
      page has one. */
  lemma TuneClickExact(page: Page)
    ensures ClickOutcomeOf(true, TuneButton, page).Clicked? <==> Find(TuneButton, page).Some?
  {
    UnwrapJsonQuote(ClickScript(TuneButton, page));
    ExactClickNotFound(TuneButton, page);
  }

  /** The power button.  Confirmation is asked exactly when the caption reads
      "POWER OFF", and a declined confirmation stops before the page is
      touched. */
  function PowerClickOutcome(ready: bool, caption: string, confirmed: bool, page: Page): (r: ClickOutcome)
    ensures r == Ignored <==> !ready
    ensures r == Declined <==> ready && caption == "POWER OFF" && !confirmed
    ensures r.Clicked? <==> ready && (caption != "POWER OFF" || confirmed) && Find(PowerButton, page).Some?
    ensures r.Clicked? ==> r.report == ClickScript(PowerButton, page)
  {
    if !ready then Ignored
    else if caption == "POWER OFF" && !confirmed then Declined
    else
      var result := UnwrapWebView2Json(JsonQuote(ClickScript(PowerButton, page)));
      UnwrapJsonQuote(ClickScript(PowerButton, page));
      ExactClickNotFound(PowerButton, page);
      if ReportsNotFound(result) then NotFound else Clicked(result)
  }

  /** The initial caption "Power Off" differs from "POWER OFF", so a click
      before the first reconciliation powers off without asking. */
  lemma FirstPowerClickUnconfirmed()
    ensures PowerClickOutcome(true, "Power Off", false, ["POWER OFF"]).Clicked?
  {
    PowerOffMatches("POWER OFF");
    InitialPowerCaptionDiffers();
    LonePowerButtonClicked("Power Off", "POWER OFF");
  }

  /** The caption POWER OFF, with no white space around it, is a power
      button. */
  lemma PowerOffMatches(b: string)
    requires b == "POWER OFF"
    ensures Matches(PowerButton, b)
  {
    assert b[0] == 'P' && b[|b| - 1] == 'F';
    TrimVisible(b);
  }

  lemma InitialPowerCaptionDiffers()
    ensures "Power Off" != "POWER OFF"
  {
    assert "Power Off"[1] != "POWER OFF"[1];
  }

  /** On a page whose only button is a power button, an unconfirmed click
      under any caption but "POWER OFF" presses it. */
  lemma LonePowerButtonClicked(caption: string, b: string)
    requires caption != "POWER OFF" && Matches(PowerButton, b)
    ensures PowerClickOutcome(true, caption, false, [b]).Clicked?
  {
    SingleButtonFind(PowerButton, b);
  }

  /** Once the captions have been reconciled with a page whose first power
      button reads POWER OFF, powering off takes the user's confirmation. */
  lemma ReconciledPowerOffAsks(page: Page, caption: string)
    requires Find(PowerButton, page).Some? && JsTrim(page[Find(PowerButton, page).value]) == "POWER OFF"
    ensures PowerClickOutcome(true, NextCaption(caption, ReconcileState(page), "power"), false, page) == Declined
  {
    ReconcileWithPage(page, "", "", caption);
  }

  /** The display after a poll cycle: the six held readings, the snapshot the
      other labels show, and whether the SWR label is in the warning colour. */
  datatype View = View(
    fwdPowerW: Option<real>,
    refPowerW: Option<real>,
    inputPowerW: Option<real>,
    gainDb: Option<real>,
    swr: Option<real>,
    tempC: Option<real>,
    snapshot: Snapshot,
    swrWarning: bool)

  /** The initial button captions. */
  const InitialStandby: string := "Standby"
  const InitialBypass: string := "Bypass"
  const InitialPower: string := "Power Off"

  class MonitorWindow {
    var pageReady: bool
    const peakFwd: PeakTracker
    const peakRef: PeakTracker
    const peakInput: PeakTracker
    const peakGain: PeakTracker
    const peakSwr: PeakTracker
    const peakTemp: PeakTracker
    var standbyCaption: string
    var bypassCaption: string
    var powerCaption: string
    /** `None` until a poll cycle has gone through. */
    var view: Option<View>

    function Trackers(): seq<PeakTracker> {
      [peakFwd, peakRef, peakInput, peakGain, peakSwr, peakTemp]
    }

    /** Six separate trackers, each with the default hold, and no caption is
        ever empty. */
    predicate Valid()
      reads this
    {
      && peakFwd != peakRef && peakFwd != peakInput && peakFwd != peakGain
      && peakFwd != peakSwr && peakFwd != peakTemp
      && peakRef != peakInput && peakRef != peakGain && peakRef != peakSwr && peakRef != peakTemp
      && peakInput != peakGain && peakInput != peakSwr && peakInput != peakTemp
      && peakGain != peakSwr && peakGain != peakTemp
      && peakSwr != peakTemp
      && (forall t :: t in Trackers() ==> t.hold == DefaultHold)
      && standbyCaption != "" && bypassCaption != "" && powerCaption != ""
    }

    constructor()
      ensures Valid() && !pageReady && view == None
      ensures standbyCaption == InitialStandby && bypassCaption == InitialBypass
      ensures powerCaption == InitialPower
      ensures forall t :: t in Trackers() ==> fresh(t) && t.State() == Initial
    {
      pageReady := false;
      peakFwd := new PeakTracker(DefaultHold);
      peakRef := new PeakTracker(DefaultHold);
      peakInput := new PeakTracker(DefaultHold);
      peakGain := new PeakTracker(DefaultHold);
      peakSwr := new PeakTracker(DefaultHold);
      peakTemp := new PeakTracker(DefaultHold);
      standbyCaption := InitialStandby;
      bypassCaption := InitialBypass;
      powerCaption := InitialPower;
      view := None;
    }

    /** The page finished loading, successfully or not. */
    method NavigationCompleted(isSuccess: bool)
      requires Valid()
      modifies this
      ensures Valid() && pageReady == isSuccess
      ensures standbyCaption == old(standbyCaption) && bypassCaption == old(bypassCaption)
      ensures powerCaption == old(powerCaption) && view == old(view)
    {
      pageReady := isSuccess;
    }

    /** Applies the decoded reconcile state, if the page is ready and the call
        produced one. */
    method UpdateButtonStates(state: Option<map<string, string>>)
      requires Valid()
      modifies this
      ensures Valid() && pageReady == old(pageReady) && view == old(view)
      ensures pageReady && state.Some? ==>
        && standbyCaption == NextCaption(old(standbyCaption), state.value, "standby")
        && bypassCaption == NextCaption(old(bypassCaption), state.value, "bypass")
        && powerCaption == NextCaption(old(powerCaption), state.value, "power")
      ensures !(pageReady && state.Some?) ==>
        standbyCaption == old(standbyCaption) && bypassCaption == old(bypassCaption) &&
        powerCaption == old(powerCaption)
    {
      if !pageReady || state.None? {
        return;
      }
      var st := state.value;
      if "standby" in st && st["standby"] != "" {
        standbyCaption := st["standby"];
      }
      if "bypass" in st && st["bypass"] != "" {
        bypassCaption := st["bypass"];
      }
      if "power" in st && st["power"] != "" {
        powerCaption := st["power"];
      }
    }

    /** One poll cycle at time `now`.  `raw` is what the scrape script hands
        back, `decode` the JSON deserialiser and `buttonState` the decoded
        result of the reconcile script run at the end of the cycle. */
    method Poll(now: int, raw: string, decode: string -> Option<RawSample>,
                buttonState: Option<map<string, string>>)
      requires Valid()
      modifies this, peakFwd, peakRef, peakInput, peakGain, peakSwr, peakTemp
      ensures Valid() && pageReady == old(pageReady)
      ensures PollSample(old(pageReady), raw, decode).None? ==>
        && unchanged(peakFwd, peakRef, peakInput, peakGain, peakSwr, peakTemp)
        && view == old(view)
        && standbyCaption == old(standbyCaption) && bypassCaption == old(bypassCaption)
        && powerCaption == old(powerCaption)
      ensures PollSample(old(pageReady), raw, decode).Some? ==>
        var snap := ToSnapshot(PollSample(old(pageReady), raw, decode).value);
        && peakFwd.State() == Step(old(peakFwd.State()), DefaultHold, snap.dashboard.fwdPowerW, now)
        && peakRef.State() == Step(old(peakRef.State()), DefaultHold, snap.dashboard.refPowerW, now)
        && peakInput.State() == Step(old(peakInput.State()), DefaultHold, snap.dashboard.inputPowerW, now)
        && peakGain.State() == Step(old(peakGain.State()), DefaultHold, snap.dashboard.gainDb, now)
        && peakSwr.State() == Step(old(peakSwr.State()), DefaultHold, snap.dashboard.swr, now)
        && peakTemp.State() == Step(old(peakTemp.State()), DefaultHold, snap.dashboard.tempC, now)
        && view == Some(View(peakFwd.current, peakRef.current, peakInput.current, peakGain.current,
                             peakSwr.current, peakTemp.current, snap, SwrWarning(snap.dashboard.swr)))
        && (buttonState.Some? ==>
              && standbyCaption == NextCaption(old(standbyCaption), buttonState.value, "standby")
              && bypassCaption == NextCaption(old(bypassCaption), buttonState.value, "bypass")
              && powerCaption == NextCaption(old(powerCaption), buttonState.value, "power"))
        && (buttonState.None? ==>
              standbyCaption == old(standbyCaption) && bypassCaption == old(bypassCaption) &&
              powerCaption == old(powerCaption))
    {
      if !pageReady {
        return;
      }
      var cleaned := UnwrapWebView2Json(raw);
      if IsBlank(cleaned) {
        return;
      }
      var dict := decode(cleaned);
      if dict.None? || |dict.value| == 0 {
        return;
      }
      var snap := ToSnapshot(dict.value);
      var v := ShowSnapshot(snap, now);
      view := Some(v);
      UpdateButtonStates(buttonState);
    }

    /** Feeds the six held channels of `snap` to their trackers and builds the
        display. */
    method ShowSnapshot(snap: Snapshot, now: int) returns (v: View)
      requires Valid()
      modifies peakFwd, peakRef, peakInput, peakGain, peakSwr, peakTemp
      ensures peakFwd.State() == Step(old(peakFwd.State()), DefaultHold, snap.dashboard.fwdPowerW, now)
      ensures peakRef.State() == Step(old(peakRef.State()), DefaultHold, snap.dashboard.refPowerW, now)
      ensures peakInput.State() == Step(old(peakInput.State()), DefaultHold, snap.dashboard.inputPowerW, now)
      ensures peakGain.State() == Step(old(peakGain.State()), DefaultHold, snap.dashboard.gainDb, now)
      ensures peakSwr.State() == Step(old(peakSwr.State()), DefaultHold, snap.dashboard.swr, now)
      ensures peakTemp.State() == Step(old(peakTemp.State()), DefaultHold, snap.dashboard.tempC, now)
      ensures v == View(peakFwd.current, peakRef.current, peakInput.current, peakGain.current,
                        peakSwr.current, peakTemp.current, snap, SwrWarning(snap.dashboard.swr))
    {
      assert peakFwd.hold == DefaultHold && peakRef.hold == DefaultHold && peakInput.hold == DefaultHold;
      assert peakGain.hold == DefaultHold && peakSwr.hold == DefaultHold && peakTemp.hold == DefaultHold;
      var fwd := peakFwd.Update(snap.dashboard.fwdPowerW, now);
      var rf := peakRef.Update(snap.dashboard.refPowerW, now);
      var input := peakInput.Update(snap.dashboard.inputPowerW, now);
      var gain := peakGain.Update(snap.dashboard.gainDb, now);
      var swr := peakSwr.Update(snap.dashboard.swr, now);
      var temp := peakTemp.Update(snap.dashboard.tempC, now);
      v := View(fwd, rf, input, gain, swr, temp, snap, SwrWarning(snap.dashboard.swr));
    }

    /** The power button.  `confirmed` is the user's answer to the dialog, read
        only when one is shown; `stateAfter` is the decoded reconcile state
        of the page once the click has had its effect. */
    method PowerClick(confirmed: bool, page: Page, stateAfter: Option<map<string, string>>)
      returns (outcome: ClickOutcome)
      requires Valid()
      modifies this
      ensures Valid() && pageReady == old(pageReady) && view == old(view)
      ensures outcome == PowerClickOutcome(old(pageReady), old(powerCaption), confirmed, page)
      ensures outcome.Clicked? && stateAfter.Some? ==>
        && standbyCaption == NextCaption(old(standbyCaption), stateAfter.value, "standby")
        && bypassCaption == NextCaption(old(bypassCaption), stateAfter.value, "bypass")
        && powerCaption == NextCaption(old(powerCaption), stateAfter.value, "power")
      ensures !(outcome.Clicked? && stateAfter.Some?) ==>
        standbyCaption == old(standbyCaption) && bypassCaption == old(bypassCaption) &&
        powerCaption == old(powerCaption)
    {
      if !pageReady {
        return Ignored;
      }
      if powerCaption == "POWER OFF" && !confirmed {
        return Declined;
      }
      var result := UnwrapWebView2Json(JsonQuote(ClickScript(PowerButton, page)));
      if ReportsNotFound(result) {
        return NotFound;
      }
      outcome := Clicked(result);
      UpdateButtonStates(stateAfter);
    }
  }
}
