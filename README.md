# AcomMonitor telemetry pipeline in Dafny

AcomMonitor is a desktop monitor for an ACOM RF amplifier. It embeds the
amplifier's web control page in a WebView2 control. Every 250 ms it runs a
script in the page that scrapes the attribute-tagged values into a key/text
dictionary. It maps that dictionary to a typed snapshot, passes six of the
readings through peak-hold trackers, and keeps three button captions in step
with the page's own buttons. Its Standby, Tune, Bypass and Power buttons press
the matching buttons in the page.

The pipeline exists twice, almost line for line: once in the WinForms window
(`AcomMonitor/MainForm.cs`) and once in the Avalonia window
(`AcomMonitor/MainWindow.axaml.cs`). It is modelled once. The Avalonia copies are:

- `UnwrapWebView2Json` at `MainWindow.axaml.cs:85-91`
- `PollAsync` at 93-141
- `UpdateButtonStates` at 143-192
- the click handlers at 194-334
- `PeakTracker` at 401-425
- the snapshot classes at 428-445 (there the ATU fields are `Atu`/`AtuaSwr`)
- the mapper at 447-493

Modules, one per file except where noted:

- `Wrappers` (`wrappers.dfy`): `Option`, which stands for `double?` and for a missing dictionary entry.
- `Text` (`text.dfy`): the library string operations the code relies on. It models them exactly, except that case folding covers ASCII letters only (exact for the patterns ON, RC and standby; see "## Left out"):
  - `string.IsNullOrWhiteSpace`, using the Unicode White_Space set that .NET uses.
  - `Replace(char, char)`.
  - Ordinal, non-overlapping, left-to-right `Replace(string, string)`.
  - Ordinal `Contains`.
  - `Contains(…, OrdinalIgnoreCase)`, folding ASCII letters.
  - JavaScript `trim` and `includes`, and `toLowerCase` on ASCII letters.
- `NumberPattern` (`number_pattern.dfy`): the regular expression `-?\d+(\.\d+)?`. It gives an exact specification of its leftmost-longest match and a lexer `Lex` proved to find exactly that match. A matched number is kept exactly, as a `Numeral` (sign, whole digits, fraction digits) whose value is a `real`. No binary floating point is involved.
- `AmpSnapshot` (`amp_snapshot.dfy`): the snapshot records and the twenty page keys, exactly as they appear in the code.
- `AmpSnapshotMapper`, `SnapshotProperties` and `SnapshotExamples` (`amp_snapshot_mapper.dfy`): `Get`, `Num` and `ToSnapshot`, with their properties and worked readings.
- `PeakHold` (`peak_hold.dfy`): the pure transition `Step` and the mutable `PeakTracker` class. `PeakTracker.Update` is proved to perform `Step`. Time is in .NET ticks, and `DateTime.MinValue` is tick 0.
- `WebViewJson` (`webview_json.dfy`): `UnwrapWebView2Json` and the quoting it undoes.
- `PageScripts` (`page_scripts.dfy`): the in-page button tests as "first button whose text passes the test", the reconcile script's result, and the click scripts' reports.
- `Monitor` (`monitor.dfy`): the poll-cycle and click decisions, and the `MonitorWindow` class. The class holds the page-ready flag, the six trackers, the three captions and the last display.

Two points of reading:

- The page keys are the full keys the code reads, for example `$amp/controls/dashboard/values/swr`.
- In the WinForms window, the poll cycle starts the caption reconcile without awaiting it and then sets the SWR colour. The model applies the reconcile at the end of the cycle. The order cannot be observed in the modelled state.

Two behaviours of the code are worth knowing:

- The initial power caption is "Power Off", but the confirmation test compares against "POWER OFF" exactly. So a power click before the first successful reconcile is not confirmed (`Monitor.FirstPowerClickUnconfirmed`).
- Every click handler decides "button not found" by looking for the words in the returned report. A bypass button whose own text contains "not found" is pressed and still reported missing (`PageScripts.BypassMisreport`).

## Model

| member | source | states |
|---|---|---|
| `AmpSnapshotMapper.Get` | AcomMonitor/MainForm.cs:497-498 | a present key gives its text, a missing key gives the default |
| `AmpSnapshotMapper.Normalize` | AcomMonitor/MainForm.cs:503 | the text keeps its length; every comma becomes a point and every other character is kept |
| `AmpSnapshotMapper.Num` | AcomMonitor/MainForm.cs:500-505 | blank text gives no number; a number is found exactly when the text has a digit; the number is the value of the leftmost `-?\d+(\.\d+)?` match in the text with commas turned into points |
| `AmpSnapshotMapper.NormalizeKeepsDigits` | AcomMonitor/MainForm.cs:503 | replacing commas by points neither adds nor removes digits, and blank text has none |
| `AmpSnapshotMapper.NumOfEmbeddedNumeral` | AcomMonitor/MainForm.cs:500-505 | a signed decimal written with either separator between a digit-free label and a unit reads as its exact value |
| `AmpSnapshotMapper.EmbeddedIsLeftmost` | AcomMonitor/MainForm.cs:503 | in such a text the regular expression's leftmost match is the embedded numeral itself |
| `AmpSnapshotMapper.ToSnapshot` | AcomMonitor/MainForm.cs:507-541 | with nothing scraped it gives the record the C# initialisers build; for any sample, `SnapshotProperties.NumericFieldValues` gives the value of every numeric field, `PresentTextIsVerbatim` and `MissingKeysGiveDefaults` the text fields, and `IndicatorFlags` the two flags |
| `NumberPattern.Lex` | AcomMonitor/MainForm.cs:503 | finds no match exactly when the text has no possible match start, and otherwise the leftmost, greedy match |
| `NumberPattern.Numeral.Value` | AcomMonitor/MainForm.cs:504 | the exact number the matched text denotes: the value of the whole digits plus the value of the fraction digits divided by ten to the number of fraction digits, negated under a leading minus; so the whole digits are the integer part of its magnitude, and without a fraction it is the whole number |
| `NumberPattern.MatchAt` | AcomMonitor/MainForm.cs:503 | from a match start, the match it builds is well formed, is spelled by the text there and cannot be extended |
| `NumberPattern.MatchAtUnique` | AcomMonitor/MainForm.cs:503 | any match from a given start equals the one `MatchAt` builds |
| `NumberPattern.LeftmostMatchUnique` | AcomMonitor/MainForm.cs:503 | the leftmost match is unique, and it is what `Lex` returns |
| `NumberPattern.LexFindsIffDigit` | AcomMonitor/MainForm.cs:503-504 | the pattern matches exactly when the text contains a digit |
| `NumberPattern.FindStart` | AcomMonitor/MainForm.cs:503 | returns the first possible match start at or after a position, or none if there is none |
| `NumberPattern.DigitRunEnd` | AcomMonitor/MainForm.cs:503 | the end of the maximal run of digits from a position |
| `SnapshotProperties.MissingKeysGiveDefaults` | AcomMonitor/MainForm.cs:507-541 | every missing key gives an empty text, no number or a false flag |
| `SnapshotProperties.PresentTextIsVerbatim` | AcomMonitor/MainForm.cs:511-536 | text fields carry the page's text unchanged |
| `SnapshotProperties.NumericFieldValues` | AcomMonitor/MainForm.cs:522-540 | each of the thirteen numeric fields is `Num` of its own key's text, and holds nothing when that text has no digit and otherwise the value of the leftmost `-?\d+(\.\d+)?` match in it with commas turned into points |
| `SnapshotProperties.ReadsAsUnique` | AcomMonitor/MainForm.cs:500-505 | a text reads as at most one value, because the leftmost match is unique; so the reading above determines each numeric field |
| `SnapshotProperties.NumericFieldPresence` | AcomMonitor/MainForm.cs:522-540 | each of the thirteen numeric fields is present exactly when its key is present and its text holds a digit |
| `SnapshotProperties.SameKnownFields` | AcomMonitor/MainWindow.axaml.cs:459-493 | two samples that agree on all twenty known keys map to the same snapshot |
| `SnapshotProperties.UnknownKeysIgnored` | AcomMonitor/MainWindow.axaml.cs:459-493 | adding a key the mapper does not read leaves the snapshot unchanged |
| `SnapshotProperties.OnlyKnownKeysMatter` | AcomMonitor/MainWindow.axaml.cs:459-493 | the snapshot depends only on the twenty known keys |
| `SnapshotProperties.TwoLetterMarker` | AcomMonitor/MainForm.cs:516-517 | an ordinal case-insensitive search for a two-letter upper-case word finds it exactly when two adjacent characters equal it up to case |
| `SnapshotProperties.IndicatorFlags` | AcomMonitor/MainForm.cs:516-517 | CAT is active exactly when its text shows "ON" in any case; the last command was remote exactly when its text shows "RC" in any case |
| `SnapshotProperties.EmptyFlagsOff` | AcomMonitor/MainForm.cs:516-517 | an empty indicator text sets neither flag |
| `SnapshotExamples.NumWatts` | AcomMonitor/MainForm.cs:500-505 | "1200 W" reads as 1200 |
| `SnapshotExamples.NumSwrPoint` | AcomMonitor/MainForm.cs:500-505 | "1.8" reads as 1.8 |
| `SnapshotExamples.NumSwrComma` | AcomMonitor/MainForm.cs:500-505 | "SWR 1,35:1" reads as 1.35 |
| `SnapshotExamples.NumNegative` | AcomMonitor/MainForm.cs:500-505 | "-3.5 dB" reads as -3.5 |
| `SnapshotExamples.NumNoDigits` | AcomMonitor/MainForm.cs:500-505 | empty, blank and digit-free text give no number |
| `SnapshotExamples.CatFlagExamples` | AcomMonitor/MainForm.cs:516-517 | "CAT ON" and "cat on" are active, "CAT OFF" is not, "RC" is remote |
| `SnapshotExamples.FullReading` | AcomMonitor/MainForm.cs:507-541 | a sample with "1200 W", "1.8" and "CAT ON" gives 1200 W forward power, SWR 1.8 and CAT active, and no reflected power |
| `Text.Contains` | AcomMonitor/MainForm.cs:304 | ordinal substring search: true exactly when the pattern occurs at some position |
| `Text.NotContainsWithoutHead` | AcomMonitor/MainForm.cs:304 | a text without the pattern's first character does not contain it |
| `Text.IsBlank` | AcomMonitor/MainForm.cs:502 | a blank text holds no digit |
| `Text.ReplaceChar` | AcomMonitor/MainForm.cs:503 | `Replace(',', '.')` keeps the length |
| `Text.ReplaceCharAt` | AcomMonitor/MainForm.cs:503 | each character is replaced exactly when it is the one being replaced |
| `Text.ReplaceCharConcat` | AcomMonitor/MainForm.cs:503 | character replacement distributes over concatenation |
| `Text.ReplaceCharAbsent` | AcomMonitor/MainForm.cs:503 | replacing an absent character changes nothing |
| `Text.ReplaceAll` | AcomMonitor/MainForm.cs:187 | a text in which the pattern does not occur is left unchanged; replacing by a text of the pattern's length keeps the length, and a text shorter than the pattern is left unchanged |
| `Text.ReplaceAllNoLonger` | AcomMonitor/MainForm.cs:187 | replacing a pattern by something no longer never lengthens the text |
| `Text.ReplaceAllAbsent` | AcomMonitor/MainForm.cs:187 | replacing a pattern whose first character is absent changes nothing |
| `Text.ToAsciiUpper` | AcomMonitor/MainForm.cs:516 | case folding keeps the length and maps each character |
| `Text.ContainsIgnoreCase` | AcomMonitor/MainForm.cs:516-517 | true exactly when the pattern occurs at some index with every character equal to the pattern's after ASCII upper-casing |
| `Text.ToAsciiLower` | AcomMonitor/MainForm.cs:293 | `toLowerCase` keeps the length and maps each character |
| `Text.TrimStart` | AcomMonitor/MainForm.cs:244 | what is left is a suffix that does not start with white space, and only white space was removed |
| `Text.TrimEnd` | AcomMonitor/MainForm.cs:244 | what is left is a prefix that does not end with white space, and only white space was removed |
| `Text.JsTrim` | AcomMonitor/MainForm.cs:244 | the result is the piece of the text at some index with only white space before and after it, and it neither begins nor ends with white space |
| `Text.TrimEmptyIffInvisible` | AcomMonitor/MainForm.cs:253-255 | trimming leaves nothing exactly when the text is only white space |
| `Text.TrimStartKeepsInfix` | AcomMonitor/MainForm.cs:244 | removing leading white space keeps an occurrence of a word that does not start with white space |
| `Text.TrimEndKeepsInfix` | AcomMonitor/MainForm.cs:244 | removing trailing white space keeps an occurrence of a word that does not end with white space |
| `Text.TrimKeepsInfix` | AcomMonitor/MainForm.cs:247-251 | trimming keeps every occurrence of a word with visible ends |
| `Text.TrimIsInfix` | AcomMonitor/MainForm.cs:291-294 | the trimmed text occurs in the original |
| `Text.LowerKeepsInfix` | AcomMonitor/MainForm.cs:293 | an occurrence survives lower-casing both texts |
| `PeakHold.Step` | AcomMonitor/MainForm.cs:457-472 | no reading changes nothing; the new state is the old one or the reading with its time; a present reading is never above the held value; a new strict peak is taken over at once |
| `PeakHold.NoPeakChangesOnlyAfterHold` | AcomMonitor/MainForm.cs:466-470 | a reading that is not a new peak keeps the state while the hold lasts and replaces it, with its time, strictly after it |
| `PeakHold.PeakNeverFallsWithinHold` | AcomMonitor/MainForm.cs:461-470 | within the hold the held value never falls |
| `PeakHold.PlateauKeepsTimestamp` | AcomMonitor/MainWindow.axaml.cs:413 | a reading equal to the held value within the hold leaves value and timestamp untouched |
| `PeakHold.MaxPresent` | AcomMonitor/MainForm.cs:461 | the reference maximum of a start value and the present readings: an upper bound that is one of them |
| `PeakHold.HeldPeakIsRunningMax` | AcomMonitor/MainForm.cs:457-472 | while all readings fall within one hold window, the tracker shows their running maximum |
| `PeakHold.HeldValueIsAReading` | AcomMonitor/MainForm.cs:457-472 | a value is held exactly when one was held or some reading was present, and the held value is one of those |
| `PeakHold.FiveThenThree` | AcomMonitor/MainWindow.axaml.cs:407-424 | 5 then 3 exactly at the end of the default three-second hold shows 5; one tick later shows 3 |
| `PeakHold.PeakTracker.constructor` | AcomMonitor/MainForm.cs:451-455 | a new tracker holds nothing, has timestamp `DateTime.MinValue` and the given hold |
| `PeakHold.PeakTracker.Update` | AcomMonitor/MainForm.cs:457-472 | the new fields are the `Step` of the old ones, and the returned value is the new held value |
| `WebViewJson.UnwrapWebView2Json` | AcomMonitor/MainForm.cs:183-189 | an empty or unquoted text is returned unchanged; a quoted one loses at least both quotes, and exactly its quotes when it holds no backslash |
| `WebViewJson.Escape` | AcomMonitor/MainForm.cs:187 | quoting never shortens, and a quoted text never starts with a bare quote |
| `WebViewJson.JsonQuote` | AcomMonitor/MainForm.cs:197 | the quoted form is wrapped in quotes |
| `WebViewJson.UndoEscapedQuotes` | AcomMonitor/MainForm.cs:187 | the first pass turns the quoted body into the text with backslashes still doubled |
| `WebViewJson.UndoEscapedBackslashes` | AcomMonitor/MainForm.cs:187 | the second pass then gives back the text |
| `WebViewJson.UnwrapJsonQuote` | AcomMonitor/MainWindow.axaml.cs:85-91 | unwrapping undoes the quoting of any text |
| `WebViewJson.OtherEscapesKept` | AcomMonitor/MainForm.cs:187 | other escapes such as `\n` are left in the text |
| `PageScripts.FirstWhere` | AcomMonitor/MainForm.cs:244-252 | the search `Array.prototype.find` makes: no index exactly when no element passes the test, otherwise the first element that passes |
| `PageScripts.Matches` | AcomMonitor/MainForm.cs:244-251 | the five button tests; none of them accepts a button whose text is only white space |
| `PageScripts.Find` | AcomMonitor/MainForm.cs:244-252 | `find` gives none exactly when no button passes, and otherwise the first that passes |
| `PageScripts.Caption` | AcomMonitor/MainForm.cs:253-255 | the caption is empty exactly when no button qualifies, and otherwise is a piece of the first qualifying button's text |
| `PageScripts.SingleButtonCaption` | AcomMonitor/MainForm.cs:244-255 | on a one-button page the caption is that button's trimmed text when it qualifies and empty otherwise |
| `PageScripts.ReconcileState` | AcomMonitor/MainForm.cs:253-257 | the reconcile result has exactly the keys standby, bypass and power |
| `PageScripts.StandbyCaptionShape` | AcomMonitor/MainForm.cs:244-246 | the standby value is OPERATE, STANDBY, or empty exactly when no button qualifies |
| `PageScripts.PowerCaptionShape` | AcomMonitor/MainForm.cs:250-252 | the power value is POWER OFF, POWER ON, or empty exactly when no button qualifies |
| `PageScripts.BypassCaptionShape` | AcomMonitor/MainForm.cs:247-249 | the bypass value is empty exactly when no button mentions BYPASS, and otherwise still shows BYPASS |
| `PageScripts.ClickScript` | AcomMonitor/MainForm.cs:290-300 | the report is "not found" when no button qualifies and otherwise "Clicked: " with the pressed button's trimmed text |
| `PageScripts.ReportsNotFound` | AcomMonitor/MainForm.cs:304 | the handlers' test `result.Contains("not found")`; the script's own miss report always reads as a miss |
| `PageScripts.ExactClickNotFound` | AcomMonitor/MainForm.cs:320-334 | for tune and power, "not found" is reported exactly when no button qualifies |
| `PageScripts.BypassMisreport` | AcomMonitor/MainForm.cs:350-363 | a button "BYPASS not found" is pressed and reported missing |
| `PageScripts.StandbyCaptionIsToggle` | AcomMonitor/MainForm.cs:291-294 | every button the reconcile reads as the standby caption passes the looser test of the standby click |
| `PageScripts.StandbyWordInLowerCase` | AcomMonitor/MainForm.cs:293 | a button trimmed to STANDBY contains "standby" once lower-cased |
| `PageScripts.StandbyToggleFindsCaption` | AcomMonitor/MainForm.cs:291-294 | the standby click finds a button whenever the reconcile finds one, and no later one |
| `PageScripts.StandbyToggleIsWider` | AcomMonitor/MainForm.cs:291-294 | "Standby mode" passes the click's test but not the reconcile's |
| `PageScripts.StandbyOnlyPage` | AcomMonitor/MainForm.cs:243-257 | a page with only a STANDBY button reconciles to standby "STANDBY" and empty bypass and power |
| `Monitor.PollSample` | AcomMonitor/MainForm.cs:193-202 | a cycle goes on exactly when the page is ready, the unwrapped text is not blank and it deserialises to a non-empty dictionary |
| `Monitor.PollSampleOfQuotedText` | AcomMonitor/MainWindow.axaml.cs:95-104 | the quoted form of a non-blank JSON text goes on with exactly what that text deserialises to |
| `Monitor.SwrWarning` | AcomMonitor/MainForm.cs:231 | the warning colour shows exactly when an SWR is known and above 2.0 |
| `Monitor.SwrWarningExamples` | AcomMonitor/MainWindow.axaml.cs:132-134 | 2.5 warns; 1.8, exactly 2.0 and an unknown SWR do not |
| `Monitor.NextCaption` | AcomMonitor/MainForm.cs:263-279 | a caption is replaced only by a present, non-empty value and then by that value, so it never becomes empty |
| `Monitor.ReconcileWithPage` | AcomMonitor/MainWindow.axaml.cs:174-187 | reconciling with a page takes over each first qualifying button's trimmed text and otherwise keeps the caption |
| `Monitor.ClickOutcomeOf` | AcomMonitor/MainForm.cs:315-343 | nothing happens before the page is ready; on a ready page the handler reports not found exactly when the report contains "not found" (always so when no button qualifies), and otherwise reports a click with the script's report; a reported click was made on a qualifying button |
| `Monitor.TuneClickExact` | AcomMonitor/MainForm.cs:315-343 | the tune handler reports a click exactly when the page has a tune button |
| `Monitor.PowerClickOutcome` | AcomMonitor/MainForm.cs:375-412 | confirmation is asked exactly when the caption is "POWER OFF"; the button is pressed exactly when the page is ready, the user did not decline and a power button exists |
| `Monitor.FirstPowerClickUnconfirmed` | AcomMonitor/MainForm.cs:381-387 | with the initial caption "Power Off" an unconfirmed click still powers off |
| `Monitor.ReconciledPowerOffAsks` | AcomMonitor/MainWindow.axaml.cs:291-296 | once reconciled with a page showing POWER OFF, an unconfirmed click is declined |
| `Monitor.MonitorWindow.constructor` | AcomMonitor/MainForm.cs:48-99 | six fresh trackers with the default hold, the initial captions, page not ready |
| `Monitor.MonitorWindow.NavigationCompleted` | AcomMonitor/MainForm.cs:166 | the page is ready exactly when the navigation succeeded |
| `Monitor.MonitorWindow.UpdateButtonStates` | AcomMonitor/MainForm.cs:236-282 | with a ready page and a decoded state, each caption becomes its `NextCaption`; otherwise nothing changes |
| `Monitor.MonitorWindow.Poll` | AcomMonitor/MainForm.cs:191-234 | a skipped cycle touches no tracker, caption or display; otherwise each tracker takes one `Step` with its snapshot field, the display shows the held values, the snapshot and the SWR warning of the instantaneous reading, and the captions are reconciled |
| `Monitor.MonitorWindow.ShowSnapshot` | AcomMonitor/MainForm.cs:206-212 | each of the six trackers takes one `Step` with its own field, and the display shows the values they now hold |
| `Monitor.MonitorWindow.PowerClick` | AcomMonitor/MainForm.cs:375-425 | the outcome is `PowerClickOutcome` of the caption before the click; only a click reconciles the captions again, and exactly once |

## Left out

- Binary floating point: numbers are exact decimals, so `double.Parse` rounding, overflow to infinity and `ToString("0.0")`-style display formatting are not modelled.
- `AmpSnapshotMapper.Num`: `\d` is taken as the ASCII digits. .NET's `\d` also matches other Unicode decimal digits, on which `double.Parse` would throw.
- `AmpSnapshotMapper.ToSnapshot`: a dictionary entry whose value is `null` is not modelled; all values are strings.
- `Text.ContainsIgnoreCase`: folds ASCII letters only. For the upper-case patterns "ON" and "RC" no other character folds onto their letters, so the flags are exact.
- `Text.ToAsciiLower`: lowers ASCII letters only. Characters outside ASCII that lower-case into "standby" are not considered.
- JSON: `JSON.stringify` in the page and `JsonSerializer.Deserialize` are foreign. The poll takes the deserialiser as a function parameter, and the reconcile and re-reconcile take the decoded state as a parameter. The page scripts are modelled on their button tests and results.
- `WebViewJson.JsonQuote`: escapes only `"` and `\`. The richer escapes WebView2 may emit (control characters, `\u` sequences) are not modelled.
- The scrape script that builds the key/text dictionary from the page's tagged elements runs in the browser. It is not part of this model.
- Timers, `async`/`await`, `Dispatcher.UIThread`, the 500 ms delay before the re-reconcile, and the fire-and-forget reconcile in the WinForms poll: a call's effect is applied at once, in program order.
- `PeakHold.PeakTracker.Update`: the clock is the parameter `now`. The two readings of `DateTime.UtcNow` in the source are taken to give the same time.
- `PeakHold.PeakTracker.constructor`: takes the hold in ticks. The conversion by `TimeSpan.FromSeconds` from the default 3.0 seconds is the constant `DefaultHold`.
- The in-page click on the confirmation dialog's OK button 100 ms after a power click is not modelled.
- Dialogs and error messages are not modelled: the confirmation answer is an input, and an error shown is the outcome `NotFound`. Exceptions caught by the handlers are not modelled.
- Labels, colours other than the SWR threshold, and window layout are not modelled.
- `AcomMonitor/Config.cs` (the stored page address) is file I/O and is not modelled.
- The Avalonia window's initial captions come from `MainWindow.axaml`, which is not part of this model. The WinForms captions "Standby", "Bypass" and "Power Off" are used.
