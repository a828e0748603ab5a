# DeerHack event-day site: a Dafny model of its browser logic

The event-day site has four pages, and this project models the logic each one runs in the browser:

- **The public display** (`frontend/assets/js/app.js`). It shows a countdown timer with a progress ring, a styled note with a glow, a scrolling team list and a movable layout. It also plays sound and speech actions that the admin triggers. The page reacts to every pushed `event_config` row.
- **The admin panel** (`frontend/assets/js/admin.js`). Its buttons turn into config updates: set, start, pause and reset the timer, timer and note style, teams, actions and the layout editor's presets.
- **The submissions listing** (`frontend/assets/js/submissions.js`). It groups project submissions by team, sorts the teams, numbers each team's cards and escapes the text it puts into HTML.
- **The participants' form** (`frontend/assets/js/submit.js`). It trims and posts a submission, checks the GitHub link as the user types, and reports the server's answer.

The display is a pure reducer (`Display.Step`). Its state is the last action counter seen, the one live countdown tick and the rendered view. Three kinds of event drive it:

- a pushed config row;
- a tick firing at a given time;
- a loaded team list.

It emits effects for the audio element and the speech synthesiser.

Time is whole milliseconds. `setInterval` becomes a tick event that carries its handle, and `clearInterval` becomes forgetting the handle. `Math.round(x/1000)` on a millisecond difference is written out as `(x + 500) / 1000`.

Falsy JavaScript values are modelled explicitly. Null is `None`. `x || d` on a number or a string is `Js.OrNum` or `Js.OrStr`, which treat 0 and `""` as falsy too. `parseInt` is `Js.ParseInt`, which covers the sign, surrounding space, a hex prefix and stopping at the first non-digit.

Modules:

- `Js`: JSON values, truthiness, `trim` and `parseInt`.
- `Clock`: rounding to seconds, and the `HH:MM:SS` text and its parse-back.
- `Colour`: `hexToRgb`.
- `Snapshot`: the config row.
- `Layout`: the admin editor, presets, and the display's `updateLayout`.
- `Display`: the public page.
- `LexOrder`: the order `sort()` uses.
- `Html`: `escapeHtml`, entity decoding and single-quoted JavaScript literals.
- `Submissions`: the listing.
- `Admin`: the panel's buttons.
- `SubmitForm`: the participants' form.

A few behaviours of the code are easy to miss, and the model keeps them as written:

- **Sound action.** For a sound action the page plays the alert, then switches the source and plays it again (`Admin.ActionsPerformed`).
- **Zero duration.** A duration of 0 divides the ring by 1.
- **Zero remaining.** A `timer_remaining` of 0 counts as absent. A stopped timer then shows its duration, so "Set" with 0 shows one second (`Admin.SetDurationShown`), and a paused timer shows zero.
- **Ring fraction.** The fraction may exceed 1, because a running tick does not clamp it.
- **Reloads.** Every write on the server makes the display reload, and a reloaded page performs the stored action again (`Display.ReloadReplaysLastAction`).
- **Panel inputs.** The admin panel's colour inputs keep only a lowercase `#rrggbb` (anything else becomes black), and its intensity slider clamps to 0..100, so loading the panel and saving unchanged can alter the row (`Admin.UnchangedNoteResent`).

## Model

| member | source | states |
|---|---|---|
| Js.OrNum | frontend/assets/js/app.js:206 | `x \|\| d` on a number: the value when it is non-null and nonzero, otherwise the default |
| Js.OrStr | frontend/assets/js/app.js:103 | `x \|\| d` on a string: the value when it is non-null and non-empty, otherwise the default |
| Js.Trim | frontend/assets/js/submit.js:17-22 | `trim()` never lengthens the text, and its result has no white space at either end |
| Js.TrimIsInfix | frontend/assets/js/submit.js:17-22 | What trim leaves is a contiguous slice of the input with only white space before and after it |
| Js.TrimUnique | frontend/assets/js/submit.js:17-22 | Conversely, any slice with only white space around it and none at its own ends is exactly what trim returns |
| Js.TrimIgnoresSurroundingSpace | frontend/assets/js/submit.js:80 | Adding white space around a text does not change its trimmed form |
| Js.TrimIdempotent | frontend/assets/js/submit.js:17-22 | Trimming twice is the same as trimming once |
| Js.Digits | frontend/assets/js/admin.js:251 | The decimal text of a number is non-empty and all digits, with no leading zero unless the number is below 10 |
| Js.DigitsRoundTrip | frontend/assets/js/admin.js:251 | Reading the decimal text of n as digits gives back n |
| Js.ParseInt | frontend/assets/js/admin.js:304 | `parseInt` succeeds exactly when digits follow the optional space, sign and hex prefix, and it is never negative without a minus sign |
| Js.ParseIntOfNumberToString | frontend/assets/js/admin.js:304 | `parseInt` of the text a number is shown as gives back that number, whatever its sign |
| Js.ParseIntReadsLeadingNumber | frontend/assets/js/admin.js:304 | `parseInt` reads the integer at the front of a text and ignores what follows, unless that continues the digits or turns a lone `0` into a `0x` prefix |
| Js.ParseIntOfNumberForms | frontend/assets/js/admin.js:304 | A number input's `1e3` and `1.5` are read as 1, and `-2.5` as -2 |
| Clock.RoundToSeconds | frontend/assets/js/app.js:212 | `Math.round(ms/1000)` is the whole number of seconds within half a second of ms |
| Clock.RemainingSeconds | frontend/assets/js/app.js:212 | `max(0, round((end-now)/1000))` is zero exactly when less than half a second is left, and otherwise within half a second of what is left |
| Clock.OneSecondLater | frontend/assets/js/app.js:210-213 | A tick one second later shows one second less, until zero |
| Clock.RemainingNonIncreasing | frontend/assets/js/app.js:209-212 | As the clock advances, the remaining seconds never grow |
| Clock.ZeroAtEndTime | frontend/assets/js/app.js:209-212 | From the end time on, the remaining seconds are zero |
| Clock.WholeSecondsAhead | frontend/assets/js/app.js:209-212 | An end time a whole number of seconds ahead shows exactly that many seconds |
| Clock.JsRem | frontend/assets/js/app.js:215-216 | JavaScript `%` on a positive divisor agrees with the mathematical remainder for non-negative operands and keeps the sign of a negative dividend |
| Clock.Decomposition | frontend/assets/js/app.js:214-216 | The hours, minutes and seconds of a non-negative time recompose it, with minutes and seconds below 60 |
| Clock.Pad2 | frontend/assets/js/app.js:218 | `padStart(2, '0')` keeps the text as its suffix and adds only zeros, up to width 2 |
| Clock.ClockText | frontend/assets/js/app.js:214-218 | Every field is at least two characters wide, so the text is never shorter than 8; `Clock.ClockRoundTrip`, `Clock.ClockInjective` and `Clock.ClockWidth` state what the text means |
| Clock.ClockRoundTrip | frontend/assets/js/app.js:214-218 | Splitting the `HH:MM:SS` text of a non-negative time at its colons and reading the fields gives the time back |
| Clock.ClockWidth | frontend/assets/js/app.js:214-218 | Below 100 hours the text is 8 characters long with colons at positions 2 and 5 |
| Clock.ClockInjective | frontend/assets/js/app.js:214-218 | Two different non-negative times never show the same text |
| Colour.HexToRgb | frontend/assets/js/app.js:121-136 | The glow colour parses exactly when it is six hex digits with an optional leading `#` |
| Colour.HexPair | frontend/assets/js/app.js:122-126 | Each byte has a two-digit hex form that parses back to it |
| Colour.HexRoundTrip | frontend/assets/js/app.js:121-136 | A colour written as `#rrggbb` or `rrggbb`, in either case, parses back to that colour |
| Colour.HexCaseInsensitive | frontend/assets/js/app.js:122 | Changing the case of a hex letter does not change the parsed colour |
| Layout.Put | frontend/assets/js/admin.js:415-422 | Writing one region's style changes that region and no other |
| Layout.Reposition | frontend/assets/js/admin.js:418-422 | The editor gives a placed region absolute position, the placement's box, and clears right, bottom and transform |
| Layout.ApplyLayout | frontend/assets/js/admin.js:413-424 | A missing layout changes nothing; otherwise each region named in the layout takes its placement and every other region keeps its style |
| Layout.ApplyLayoutIgnoresOtherKeys | frontend/assets/js/admin.js:415-417 | Entries for names that are not regions have no effect |
| Layout.ApplyLayoutIdempotent | frontend/assets/js/admin.js:413-424 | Applying the same layout twice is the same as applying it once |
| Layout.CompleteLayoutDecides | frontend/assets/js/admin.js:413-424 | A layout that places all three regions fixes the result, whatever was there before |
| Layout.SelectPreset | frontend/assets/js/admin.js:484-489 | Choosing a preset applies it, and an unknown name changes nothing |
| Layout.PresetsComplete | frontend/assets/js/admin.js:400-411 | Both presets place every region, so a chosen preset alone decides the layout |
| Layout.InitialLayout | frontend/assets/js/admin.js:491-497 | The editor starts from the stored layout, or from the default preset when there is none or the request fails |
| Layout.InitialPreviewFallsBack | frontend/assets/js/admin.js:491-497 | Without a stored layout the editor shows exactly the default preset |
| Layout.PlaceOver | frontend/assets/js/app.js:152-163 | The display gives a box absolute position and the placement's box, keeping its other styles |
| Layout.UpdateLayout | frontend/assets/js/app.js:150-165 | The display places each named region and leaves the others alone; the timer's inner element takes the timer's size |
| Layout.DisplayAgreesWithEditor | frontend/assets/js/app.js:150-165 | For a region named in the layout, the display and the editor agree on position and box |
| Display.Initial | frontend/assets/js/app.js:29 | The page starts with no countdown and the action counter at -1 |
| Display.Divisor | frontend/assets/js/app.js:206 | The ring's divisor is the duration, or 1 when it is null or 0, and never zero |
| Display.UpdateTimer | frontend/assets/js/app.js:201-242 | Every update cancels the old tick. A tick is armed exactly when the timer is running, with a fresh handle and the row's end time. Paused and stopped timers show a static time, and other states leave the view alone |
| Display.FireTick | frontend/assets/js/app.js:210-230 | A tick whose handle is not the live one does nothing |
| Display.HandleAction | frontend/assets/js/app.js:167-184 | A null action does nothing. Otherwise the alert plays first; a sound with a URL switches the source and plays again, and a speech action with text speaks it |
| Display.Dispatch | frontend/assets/js/app.js:142-145 | An action runs exactly when its counter is above the last one seen, which then becomes the counter |
| Display.FiredIncreasing | frontend/assets/js/app.js:142-145 | Within one page load, over any sequence of snapshots, the counters that fire are strictly increasing, so no action fires twice on that page |
| Display.ConsecutiveCountersAllFire | backend/app.py:183-184 | Within one page load, when the server adds one per action and every snapshot arrives, every action fires exactly once |
| Display.VisibleNames | frontend/assets/js/app.js:80 | The list holds exactly the names of the visible teams |
| Display.VisibleNamesAppend | frontend/assets/js/app.js:80 | Filtering keeps input order |
| Display.RenderTeams | frontend/assets/js/app.js:72-97 | Null or no teams shows the placeholder; otherwise the visible names are listed twice in a row |
| Display.RenderedTwice | frontend/assets/js/app.js:82-94 | The second half of the scrolling list repeats the first |
| Display.NextGlow | frontend/assets/js/app.js:118-136 | The glow is replaced when its colour parses, using intensity 80 when it is falsy, and kept otherwise |
| Display.HandleConfigUpdate | frontend/assets/js/app.js:99-148 | A pushed row keeps the display invariant; `Display.StyleDefaults`, `Display.PushedRowShown`, `Display.ActionFiresIffNewCounter` and `Display.ShuffleReplaced` state what it does to the styles, the timer, the glow, the layout, the action and the shuffle |
| Display.PushedRowShown | frontend/assets/js/app.js:99-140 | After a pushed row the timer text and ring are those `updateTimer` sets, the glow is replaced only when its colour parses, the regions move exactly when the row carries a layout, and the team list is untouched |
| Display.Step | frontend/assets/js/app.js:42-70 | Every pushed row, tick or team list keeps the live tick's handle below the next handle to be issued, so a new interval never shares a handle with the live one |
| Display.Run | frontend/assets/js/app.js:42-70 | The same holds over any run of events |
| Display.StaleTicksIgnored | frontend/assets/js/app.js:202 | After a config push, no tick armed before it does anything |
| Display.UnrecognisedStateKeepsDisplay | frontend/assets/js/app.js:201-242 | An unknown timer state stops the countdown and leaves the shown time and ring |
| Display.StaticTimerShown | frontend/assets/js/app.js:231-241 | A paused or stopped timer shows `timer_remaining` when truthy; otherwise a stopped one shows the duration (or 1) and a paused one shows zero |
| Display.StaticDisplayTimeInvariant | frontend/assets/js/app.js:231-241 | With no countdown, any run of ticks changes nothing and makes no sound |
| Display.TickCountsDown | frontend/assets/js/app.js:210-223 | While time is left, the live tick shows the remaining time, puts it over the divisor on the ring, and stays armed |
| Display.TickReachesZero | frontend/assets/js/app.js:224-229 | The tick that reaches zero shows `00:00:00`, empties the ring, disarms itself and plays the alert |
| Display.TicksAlertAtMostOnce | frontend/assets/js/app.js:208-230 | Between two config pushes the countdown plays the alert at most once, and only if one was running |
| Display.LaterTicksShowLess | frontend/assets/js/app.js:212 | A later tick never shows more time |
| Display.ActionFiresIffNewCounter | frontend/assets/js/app.js:142-145 | A pushed row runs its action exactly when its counter is new, and the page keeps the larger counter |
| Display.ReplayedSnapshotSilent | frontend/assets/js/app.js:142-145 | The same row received twice fires its action at most the first time |
| Display.ReloadReplaysLastAction | frontend/assets/js/app.js:19-22 | A page that has performed an action stays silent for the same row, but after the reload every server write triggers, the first row read performs that action again |
| Display.ShuffleReplaced | frontend/assets/js/app.js:186-195 | The shuffle timer exists exactly when shuffling is enabled, with period `(interval \|\| 300)` seconds |
| Display.StyleDefaults | frontend/assets/js/app.js:102-116 | A truthy timer font size, timer colour, note font size or note is shown as given; a falsy one takes its default (64, white, 36, empty). The note is bold unless `note_bold` is false |
| Display.RunningExample | frontend/assets/js/app.js:208-218 | A running timer 125 s from its end shows `00:02:05` with 125 of 300 on the ring |
| LexOrder.Irreflexive | frontend/assets/js/submissions.js:98 | No name sorts before itself |
| LexOrder.Asymmetric | frontend/assets/js/submissions.js:98 | Two names never sort before each other |
| LexOrder.Transitive | frontend/assets/js/submissions.js:98 | The sort order is transitive |
| LexOrder.Total | frontend/assets/js/submissions.js:98 | Of two different names, one sorts first |
| Html.EscapeChar | frontend/assets/js/submissions.js:168-175 | Each character's replacement contains no raw `< > " '` and is longer by exactly the extra length of its entity |
| Html.EscapeHtml | frontend/assets/js/submissions.js:167-176 | The escaped text contains no raw `< > " '`, and grows by the exact length of each entity written |
| Html.EscapeAppend | frontend/assets/js/submissions.js:167-176 | Escaping works character by character, so it distributes over concatenation |
| Html.EscapeKeepsPlainText | frontend/assets/js/submissions.js:167-176 | Text without the five special characters is not changed |
| Html.DecodeEscaped | frontend/assets/js/submissions.js:167-176 | A browser decoding the escaped text, whatever follows it, shows exactly the original text |
| Html.EscapeRoundTrip | frontend/assets/js/submissions.js:167-176 | Decoding the escaped text gives back the original text |
| Html.DecodePlain | frontend/assets/js/submissions.js:156 | Text without `&` decodes to itself |
| Html.ReadJsQuoted | frontend/assets/js/submissions.js:156 | A name quoted for a single-quoted JavaScript literal, followed by the closing quote, reads back as exactly that name and ends at that quote |
| Submissions.OfTeam | frontend/assets/js/submissions.js:83-95 | A team's submissions are exactly the input's submissions with that team name |
| Submissions.CardOf | frontend/assets/js/submissions.js:116-165 | A card carries the number it is given and the submission's id; `Submissions.CardShowsSubmission` states what it shows |
| Submissions.CardShowsSubmission | frontend/assets/js/submissions.js:116-165 | The browser shows the card's title, description and link as exactly the submitted texts; with the name only escaped, as written, the delete handler lexes the raw name, and with it quoted first it receives exactly the name |
| Submissions.OfTeamAppend | frontend/assets/js/submissions.js:86-92 | A team's later submissions come after its earlier ones |
| Submissions.IndexOf | frontend/assets/js/submissions.js:87 | The lookup finds the entry of the team when there is one, and reports none otherwise |
| Submissions.GroupByTeam | frontend/assets/js/submissions.js:83-95 | One entry per distinct team name of the input, holding exactly that team's submissions in input order, with every submission in exactly one entry |
| Submissions.GroupsKeepOrder | frontend/assets/js/submissions.js:86-92 | Grouping more submissions appends them to their team's entry |
| Submissions.Insert | frontend/assets/js/submissions.js:98 | Inserting a new name into an ascending list keeps it ascending and adds just that name |
| Submissions.Sort | frontend/assets/js/submissions.js:98 | `Object.keys(...).sort()` gives the team names in strictly ascending order, as a permutation |
| Submissions.Cards | frontend/assets/js/submissions.js:109 | A team's cards are numbered from 1 in group order, one per submission |
| Submissions.DisplaySubmissions | frontend/assets/js/submissions.js:97-114 | One section per team, in strictly ascending order of team name, whichever way the delete handler is written |
| Submissions.SectionShowsItsGroup | frontend/assets/js/submissions.js:100-112 | Each section shows the cards of the team it is headed with |
| Submissions.GroupHasSection | frontend/assets/js/submissions.js:100-112 | Every team gets a section |
| Submissions.SectionsFromInput | frontend/assets/js/submissions.js:61-65 | Every section of the page names a team of the input and shows exactly that team's cards |
| Submissions.InputHasSections | frontend/assets/js/submissions.js:61-65 | Every team of the input has a section on the page |
| Submissions.ListingOfSubmissions | frontend/assets/js/submissions.js:61-65 | The page lists the teams of the submissions in ascending order, one section each, holding that team's cards in input order |
| Submissions.QuotingOnlyChangesDeleteCalls | frontend/assets/js/submissions.js:156 | The page with the corrected delete call differs from the page as written only in the delete calls |
| Submissions.PrefixPlain | frontend/assets/js/submissions.js:156 | The call text before the name contains no `&` |
| Submissions.DeleteCallPassesName | frontend/assets/js/submissions.js:156 | With the name quoted for JavaScript before it is escaped, the delete handler receives exactly the project name, whatever characters it contains |
| Submissions.PlainNameSameCall | frontend/assets/js/submissions.js:156 | For a name with no backslash, quote or line break, the delete call as written and the corrected one are the same text |
| Submissions.FetchSubmissions | frontend/assets/js/submissions.js:36-81 | Corrected page: 401 sends the user to the login page; any other non-OK status, a failed request or a bad body shows the error panel; an empty list shows "no submissions"; otherwise the sorted listing of the grouped submissions, with quoted delete calls |
| Submissions.CheckAuthAndFetch | frontend/assets/js/submissions.js:11-34 | Without a confirmed login the login page is shown; otherwise the submissions are fetched |
| Submissions.NoInheritedEntry | frontend/assets/js/submissions.js:83-95 | Without inherited names in the input, no entry has one |
| Submissions.AsWrittenThrowsOnInheritedNames | frontend/assets/js/submissions.js:83-95 | As written, grouping throws exactly when some team is named after an `Object.prototype` member, and agrees with the corrected grouping otherwise |
| Submissions.ConstructorTeamBreaksListing | frontend/assets/js/submissions.js:67-80 | As written, a single team called "constructor" makes the page show the error panel, where the corrected grouping lists it |
| Submissions.FetchSubmissionsAsWritten | frontend/assets/js/submissions.js:36-95 | As written: the same outcomes, except that a team named after an `Object.prototype` member shows the error panel, and the listing's delete calls carry the name only escaped |
| Submissions.AsWrittenLexesRawName | frontend/assets/js/submissions.js:156 | As written, the handler's JavaScript reads the raw project name, because the browser decodes the escaping first |
| Submissions.QuoteInNameBreaksDeleteCall | frontend/assets/js/submissions.js:156 | As written, for the name `a'b` the literal ends after `a` and `b')` follows, which cannot continue the call, so the delete button does nothing |
| Submissions.QuoteInNameInjectsCode | frontend/assets/js/submissions.js:156 | As written, for the name `x');alert(1);('` the call closes after `x` and `alert(1)` follows as a statement of its own, which the click runs |
| Admin.SetTimer | frontend/assets/js/admin.js:303-310 | "Set" sends a request exactly when the input parses as a non-negative integer, and then sets both duration and remaining to it |
| Admin.SetTimerOfNumber | frontend/assets/js/admin.js:303-310 | Typing n sends exactly n for both fields |
| Admin.SetDurationShown | frontend/assets/js/app.js:231-241 | After "Set" with n, a stopped timer shows n, or one second for 0 |
| Admin.PauseTimer | frontend/assets/js/admin.js:316-323 | "Pause" sends exactly when the row could be read: the paused state and a non-negative remaining time |
| Admin.PauseFreezesDisplay | frontend/assets/js/admin.js:316-323 | The paused display shows exactly what a running tick would show at that instant |
| Admin.ResetTimer | frontend/assets/js/admin.js:324-329 | "Reset" sends exactly when the row could be read: the stopped state with the remaining time set to the duration, null when the duration is null |
| Admin.ResetShowsDuration | frontend/assets/js/admin.js:324-329 | After a reset the display shows the full duration, or 1 when it is falsy |
| Admin.StoreTimer | backend/app.py:172 | A timer field the request names takes the value sent (a number for a count, null for anything else; the state by name); the others, and every other column, are kept |
| Admin.StoreRemainingKeepsRest | backend/app.py:172 | Writing only the remaining time sets it to the value sent and keeps the state, duration, note, layout, action and shuffle columns |
| Admin.ParseOr | frontend/assets/js/admin.js:333 | `parseInt(x) \|\| d` is the parsed value when nonzero, otherwise the default |
| Admin.ColourInputValue | frontend/assets/js/admin.js:249-254 | A colour input set from script holds a lowercase `#rrggbb`: the same colour when the text was one in either case, exactly the text when it was already lowercase, and black otherwise |
| Admin.RangeInputValue | frontend/assets/js/admin.js:250 | The intensity slider holds the value set when it lies in 0..100, and 0 or 100 beyond |
| Admin.TimerStyle | frontend/assets/js/admin.js:332-341 | "Update timer style" sends `parseInt(size) \|\| 64`, never 0, and the colour input's value as it is |
| Admin.NoteStyle | frontend/assets/js/admin.js:348-362 | "Update note" sends the note text, `parseInt(size) \|\| 36`, the glow colour, `parseInt(intensity) \|\| 80` and the bold box, with nonzero size and intensity |
| Admin.ControlsFromConfig | frontend/assets/js/admin.js:243-256 | Loaded controls have nonzero sizes, valid colours, a slider within 0..100, bold unless `note_bold` is false, and a label that shows the row's intensity (or 80) as it is |
| Admin.IntensityLabelAgrees | frontend/assets/js/admin.js:250-251 | The label beside the slider names the slider's value exactly when the row's intensity lies in 0..100 |
| Admin.ParseOrOfNumber | frontend/assets/js/admin.js:333 | A nonzero number shown in an input parses back as itself |
| Admin.UnchangedNoteResent | frontend/assets/js/admin.js:248-254 | Loading the panel and pressing "Update note" unchanged sends the stored font size (or 36) and bold flag back. The intensity comes back when in 1..100, as 100 above and as 80 below 0. A lowercase `#rrggbb` glow colour comes back, and any colour that is not `#` and six hex digits becomes black |
| Admin.UnchangedTimerStyleResent | frontend/assets/js/admin.js:253-254 | Loading the panel and pressing "Update timer style" unchanged sends the stored size (or 64) back; a lowercase `#rrggbb` colour comes back, and any other kind of colour text becomes black |
| Admin.AddTeamClick | frontend/assets/js/admin.js:365-373 | "Add team" sends exactly when the name is non-empty, and the input is then empty |
| Admin.SendTts | frontend/assets/js/admin.js:388-395 | "Send TTS" sends exactly when the message is non-empty, and the input is then empty |
| Admin.ActionsPerformed | frontend/assets/js/admin.js:384-395 | On the display, "Play sound" plays the alert, switches the source to it and plays it again; a message is spoken after the alert |
| SubmitForm.Payload | frontend/assets/js/submit.js:17-22 | The posted body has exactly the four keys, in order, each with its own field's value trimmed |
| SubmitForm.PayloadTrimmed | frontend/assets/js/submit.js:17-22 | Every posted value is a slice of its typed value with only white space cut away at both ends and none left at either end |
| SubmitForm.PayloadStable | frontend/assets/js/submit.js:17-22 | Resubmitting the posted values posts the same body |
| SubmitForm.LinkValidity | frontend/assets/js/submit.js:78-86 | The link is valid exactly when, trimmed, it is empty or starts with `http://` or `https://`; otherwise it gets the one error message |
| SubmitForm.ValidityIgnoresSpaces | frontend/assets/js/submit.js:80 | White space around the link does not change the verdict |
| SubmitForm.SentLinkKeepsValidity | frontend/assets/js/submit.js:17-22 | The posted link gets the same verdict as the typed one |
| SubmitForm.ShowMessage | frontend/assets/js/submit.js:59-75 | The message is green exactly for "success", red otherwise, and only errors hide themselves |
| SubmitForm.AfterSubmit | frontend/assets/js/submit.js:36-56 | On success the form resets, the page redirects and the button stays disabled. Otherwise the button is re-enabled and shows the server's error, the default text or the network message |
| SubmitForm.EitherDoneOrRetry | frontend/assets/js/submit.js:36-75 | The button stays disabled exactly when the message is green, and exactly then the message schedules no hide of its own |

## Left out

- Network, sockets and Supabase subscriptions are left out: `fetch`, jQuery AJAX, Socket.IO and realtime channels. A response arrives as a parameter (`Option` for a failure), and a pushed row arrives as an event.
- The DOM, timers and audio are represented only by the state they affect: `setInterval` handles, the view record and the effect list.
- Floating-point values are not modelled: the ring's stroke offset, the glow's `rgba` alphas, and the conversion of the editor's pixels to percentages. The ring keeps shown seconds over the divisor as two integers.
- The random team shuffle is not modelled, because it uses `Math.random`. Only the shuffle period and the timer's replacement are.
- Dragging and resizing with interact.js (`admin.js` 425-482) is left out, because it is mouse-driven DOM code. The saved layout is taken as a map of placements.
- The Three.js background (`app.js` 244-318 and `background.js`) is left out because it is graphics only.
- The dates shown by `toLocaleString` on cards are left out: the result depends on the locale.
- The backend is modelled only as `Admin.StoreTimer`: the timer fields a request names are written as given and every other column is kept. The end time that "start" computes (`backend/app.py` 162-168) is a parameter of the display.
- `timer_ends_at` is taken as milliseconds. A null end time counts as time 0, as `new Date(null)` gives.
- Js.ParseInt: only the value is modelled. Precision loss above 2^53 is not modelled, because the panel's inputs are small.
- Submissions.FetchSubmissions: a body that is not a list of submission objects counts as an error, and a null team or project name is not modelled.
- LexOrder.Less compares code points. The source's `sort()` compares UTF-16 code units. The two orders differ only between characters above U+FFFF and those in U+E000–U+FFFF.
- These other handlers are left out, because they only forward input to the server or render lists of text: the submissions page's edit and delete handlers and modal, logout, the audit log, the admin's team list, and the user-email display.
- Html.ReadQuoted: only the escapes `\n`, `\r`, `\\`, `\'` and `\"` are read, which are all the escapes the corrected quoting writes.
- Html.DecodeEntities: only the five entities `escapeHtml` writes are decoded, and any other `&` is kept as it is.
- Display.HandleAction: the rejected `play()` promise is not modelled. Its only effect is a console message.
- Display.StaticSeconds: it has no contract of its own. The display lemmas state its meaning.
- Page reloads are not an event of the display model: each page load is its own run from `Display.Initial`, and `Display.ReloadReplaysLastAction` states what a reload does to the last action. Which of the server's realtime push and its reload message reaches the page first is not modelled.
- Admin.ControlsFromConfig: the note text area and the duration input are not modelled, and a row holding a fractional number is not modelled.

## Findings

| source | as written | input that shows it | evidently intended | confidence | as-written member | corrected member |
|---|---|---|---|---|---|---|
| frontend/assets/js/submissions.js:83-95 | `groupByTeam` collects teams in a plain `{}`, so a name inherited from `Object.prototype` looks present, and `.push` on it throws | a single submission with team name `constructor` | each team name, whatever it is, gets its own group | not executed | Submissions.AsWrittenThrowsOnInheritedNames | Submissions.GroupByTeam |
| frontend/assets/js/submissions.js:156 | the delete button's `onclick` puts `escapeHtml(project_name)` in a single-quoted JavaScript literal, and the browser decodes `&#039;` back to `'` before the script is parsed, so a quote in the name ends the literal and the rest of the name runs as script | project name `x');alert(1);('` with id 7 | the handler receives the project name unchanged | not executed | Submissions.QuoteInNameInjectsCode | Submissions.DeleteCallPassesName |
