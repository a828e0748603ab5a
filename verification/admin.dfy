/*******************************************************************************
 *  The admin panel's buttons: what each click sends to the admin API, the
 *  defaults the style controls fall back to, and how the stored row then
 *  looks to the display.
 *******************************************************************************/

module Admin {
  import opened Js
  import opened Clock
  import opened Snapshot
  import Display
  import Colour

  /** A call to the admin API. */
  datatype Request =
    | UpdateConfig(fields: map<string, Json>)
    | AddTeam(name: string)
    | PlayAction(kind: string, payload: map<string, Json>)

  /** A click on a button with a text input: the request it sends, if any, and
      what the input holds afterwards. */
  datatype Click = Click(request: Option<Request>, inputAfter: string)

  // ---------------------------------------------------------------------------
  // Timer buttons
  // ---------------------------------------------------------------------------

  /** "Set": the duration input is parsed with `parseInt`; NaN or a negative
      value only raises an alert (None). */
  function SetTimer(input: string): (r: Option<Request>)
    ensures r.Some? <==> ParseInt(input).Some? && ParseInt(input).value >= 0
    ensures r.Some? ==> r.value.UpdateConfig? && r.value.fields.Keys == {"timer_duration_seconds", "timer_remaining"}
    ensures r.Some? ==> r.value.fields["timer_duration_seconds"] == r.value.fields["timer_remaining"] == JNum(ParseInt(input).value)
  {
    match ParseInt(input)
    case None => None
    case Some(n) =>
      if n < 0 then None
      else Some(UpdateConfig(map["timer_duration_seconds" := JNum(n), "timer_remaining" := JNum(n)]))
  }

  /** "Start": only the state; the server computes the end time. */
  const StartTimer: Request := UpdateConfig(map["timer_state" := JStr("running")])

  /** "Pause": the row is fetched first (None when that fails, and nothing is
      sent); the remaining seconds are the rounded, clamped distance from now
      to the end time. */
  function PauseTimer(fetched: Option<Config>, nowMs: int): (r: Option<Request>)
    ensures r.Some? <==> fetched.Some?
    ensures r.Some? ==> r.value.UpdateConfig? && r.value.fields.Keys == {"timer_state", "timer_remaining"}
    ensures r.Some? ==> r.value.fields["timer_state"] == JStr("paused")
    ensures r.Some? ==> r.value.fields["timer_remaining"].JNum? && r.value.fields["timer_remaining"].n >= 0
  {
    match fetched
    case None => None
    case Some(c) =>
      var remaining := RemainingSeconds(EndsAtMs(c), nowMs);
      Some(UpdateConfig(map["timer_state" := JStr("paused"), "timer_remaining" := JNum(remaining)]))
  }

  /** A nullable number column as JSON. */
  function NumJson(x: Option<int>): Json {
    match x
    case Some(n) => JNum(n)
    case None => JNull
  }

  /** "Reset": the row is fetched first; the remaining time goes back to the
      stored duration (null stays null). */
  function ResetTimer(fetched: Option<Config>): (r: Option<Request>)
    ensures r.Some? <==> fetched.Some?
    ensures r.Some? ==> r.value.UpdateConfig? && r.value.fields.Keys == {"timer_state", "timer_remaining"}
    ensures r.Some? ==> r.value.fields["timer_state"] == JStr("stopped")
    ensures r.Some? && fetched.value.timerDurationSeconds.Some? ==>
      r.value.fields["timer_remaining"] == JNum(fetched.value.timerDurationSeconds.value)
    ensures r.Some? && fetched.value.timerDurationSeconds.None? ==> r.value.fields["timer_remaining"] == JNull
  {
    match fetched
    case None => None
    case Some(c) =>
      Some(UpdateConfig(map["timer_state" := JStr("stopped"),
                            "timer_remaining" := NumJson(c.timerDurationSeconds)]))
  }

  // ---------------------------------------------------------------------------
  // The stored row after an update
  // ---------------------------------------------------------------------------

  function StateOf(j: Json): TimerState {
    if j == JStr("running") then Running
    else if j == JStr("paused") then Paused
    else if j == JStr("stopped") then Stopped
    else Unrecognised
  }

  function NumOf(j: Json): Option<int> {
    if j.JNum? then Some(j.n) else None
  }

  /** The row after the server writes the timer fields of an update as given
      (the end time a start adds is not covered here): a named field takes the
      value sent, a number for a count and null for anything else, and every
      other column is kept. */
  function StoreTimer(c: Config, fields: map<string, Json>): (c': Config)
    ensures "timer_state" !in fields ==> c'.timerState == c.timerState
    ensures "timer_remaining" !in fields ==> c'.timerRemaining == c.timerRemaining
    ensures "timer_duration_seconds" !in fields ==> c'.timerDurationSeconds == c.timerDurationSeconds
    ensures "timer_state" in fields ==> c'.timerState == StateOf(fields["timer_state"])
    ensures "timer_state" in fields && fields["timer_state"] == JStr("stopped") ==> c'.timerState == Stopped
    ensures "timer_state" in fields && fields["timer_state"] == JStr("paused") ==> c'.timerState == Paused
    ensures forall n: int :: "timer_remaining" in fields && fields["timer_remaining"] == JNum(n) ==>
      c'.timerRemaining == Some(n)
    ensures forall n: int :: "timer_duration_seconds" in fields && fields["timer_duration_seconds"] == JNum(n) ==>
      c'.timerDurationSeconds == Some(n)
    ensures "timer_remaining" in fields && !fields["timer_remaining"].JNum? ==> c'.timerRemaining.None?
    ensures "timer_duration_seconds" in fields && !fields["timer_duration_seconds"].JNum? ==> c'.timerDurationSeconds.None?
    ensures c'.(timerState := c.timerState, timerRemaining := c.timerRemaining,
                timerDurationSeconds := c.timerDurationSeconds) == c
  {
    c.(timerState := if "timer_state" in fields then StateOf(fields["timer_state"]) else c.timerState,
       timerRemaining := if "timer_remaining" in fields then NumOf(fields["timer_remaining"]) else c.timerRemaining,
       timerDurationSeconds :=
         if "timer_duration_seconds" in fields then NumOf(fields["timer_duration_seconds"]) else c.timerDurationSeconds)
  }

  /** Writing the remaining time sets it and leaves the styling, the layout,
      the action and the shuffle columns as they were. */
  lemma StoreRemainingKeepsRest(c: Config, n: int)
    ensures var c' := StoreTimer(c, map["timer_remaining" := JNum(n)]);
      && c'.timerRemaining == Some(n)
      && c'.timerState == c.timerState && c'.timerDurationSeconds == c.timerDurationSeconds
      && c'.noteFontSize == c.noteFontSize && c'.note == c.note && c'.layout == c.layout
      && c'.actionCounter == c.actionCounter && c'.lastActionPayload == c.lastActionPayload
      && c'.shuffleEnabled == c.shuffleEnabled
  {
  }

  /** Typing a number n and pressing "Set" sends n for both fields. */
  lemma SetTimerOfNumber(n: nat)
    ensures SetTimer(NumberToString(n)) ==
      Some(UpdateConfig(map["timer_duration_seconds" := JNum(n), "timer_remaining" := JNum(n)]))
  {
    ParseIntOfNumberToString(n);
  }

  /** A stopped timer shows a duration set with "Set"; a duration of 0 is
      shown as one second, since both 0 values are falsy. */
  lemma SetDurationShown(c: Config, n: nat)
    requires c.timerState == Stopped
    ensures var c' := StoreTimer(c, SetTimer(NumberToString(n)).value.fields);
      Display.StaticSeconds(c') == if n == 0 then 1 else n
  {
    SetTimerOfNumber(n);
    var fields := map["timer_duration_seconds" := JNum(n), "timer_remaining" := JNum(n)];
    var c' := StoreTimer(c, fields);
    assert c' == c.(timerRemaining := Some(n), timerDurationSeconds := Some(n));
  }

  /** Pausing freezes the display at exactly what a running tick would show
      at the same instant. */
  lemma PauseFreezesDisplay(c: Config, nowMs: int)
    ensures var c' := StoreTimer(c, PauseTimer(Some(c), nowMs).value.fields);
      && c'.timerState == Paused
      && Display.StaticSeconds(c') == RemainingSeconds(EndsAtMs(c), nowMs)
  {
  }

  /** After a reset the stopped timer shows the full duration (or one second
      when the duration is null or 0). */
  lemma ResetShowsDuration(c: Config)
    ensures var c' := StoreTimer(c, ResetTimer(Some(c)).value.fields);
      && c'.timerState == Stopped
      && c'.timerRemaining == c.timerDurationSeconds
      && Display.StaticSeconds(c') == OrNum(c.timerDurationSeconds, 1)
  {
  }

  // ---------------------------------------------------------------------------
  // Style controls
  // ---------------------------------------------------------------------------

  /** `parseInt(text) || d`. */
  function ParseOr(text: string, d: int): (r: int)
    ensures ParseInt(text).Some? && ParseInt(text).value != 0 ==> r == ParseInt(text).value
    ensures ParseInt(text).None? || ParseInt(text).value == 0 ==> r == d
  {
    OrNum(ParseInt(text), d)
  }

  /** "Update timer style": a font size that does not parse, or parses to 0,
      is sent as 64; the colour is sent as picked. */
  function TimerStyle(fontInput: string, colour: string): (r: Request)
    ensures r.UpdateConfig? && r.fields.Keys == {"timer_font_size", "timer_color"}
    ensures r.fields["timer_font_size"] == JNum(ParseOr(fontInput, 64)) && ParseOr(fontInput, 64) != 0
    ensures r.fields["timer_color"] == JStr(colour)
  {
    UpdateConfig(map["timer_font_size" := JNum(ParseOr(fontInput, 64)), "timer_color" := JStr(colour)])
  }

  /** "Update note": font size defaults to 36 and glow intensity to 80, so an
      intensity of 0 is sent as 80; the text, colour and bold box are sent as
      they are. */
  function NoteStyle(note: string, fontInput: string, glowColour: string, intensityInput: string, bold: bool): (r: Request)
    ensures r.UpdateConfig?
    ensures r.fields.Keys == {"note", "note_font_size", "note_glow_color", "note_glow_intensity", "note_bold"}
    ensures r.fields["note"] == JStr(note)
    ensures r.fields["note_font_size"] == JNum(ParseOr(fontInput, 36)) && ParseOr(fontInput, 36) != 0
    ensures r.fields["note_glow_color"] == JStr(glowColour)
    ensures r.fields["note_glow_intensity"] == JNum(ParseOr(intensityInput, 80)) && ParseOr(intensityInput, 80) != 0
    ensures r.fields["note_bold"] == JBool(bold)
  {
    UpdateConfig(map[
      "note" := JStr(note),
      "note_font_size" := JNum(ParseOr(fontInput, 36)),
      "note_glow_color" := JStr(glowColour),
      "note_glow_intensity" := JNum(ParseOr(intensityInput, 80)),
      "note_bold" := JBool(bold)])
  }

  // ---------------------------------------------------------------------------
  // What the inputs keep of a value set from script
  // ---------------------------------------------------------------------------

  /** A valid simple colour in the sense of the HTML standard: `#` followed by
      six hex digits. */
  predicate IsSimpleColour(s: string) {
    |s| == 7 && s[0] == '#' && AllDigits(s[1..], 16)
  }

  predicate NoUpper(s: string) {
    forall i | 0 <= i < |s| :: !('A' <= s[i] <= 'Z')
  }

  /** ASCII lowercase of one character; a hex digit keeps its value. */
  function LowerChar(c: char): (r: char)
    ensures DigitValue(r, 16) == DigitValue(c, 16)
    ensures !('A' <= r <= 'Z')
    ensures !('A' <= c <= 'Z') ==> r == c
  {
    if 'A' <= c <= 'Z' then (c as int + 32) as char else c
  }

  /** The value a `type="color"` input holds after `.val(s)`: the HTML
      standard's value sanitization keeps a valid simple colour, converted to
      ASCII lowercase, and replaces anything else by `#000000`. The kept value
      always shows the same colour as s when s was valid, and equals s exactly
      when s was already a lowercase valid colour. */
  function ColourInputValue(s: string): (r: string)
    ensures IsSimpleColour(r) && NoUpper(r)
    ensures IsSimpleColour(s) ==> Colour.HexToRgb(r) == Colour.HexToRgb(s)
    ensures !IsSimpleColour(s) ==> r == "#000000"
    ensures r == s <==> IsSimpleColour(s) && NoUpper(s)
  {
    if IsSimpleColour(s) then
      var r := seq(|s|, i requires 0 <= i < |s| => LowerChar(s[i]));
      assert r[1..] == seq(6, i requires 0 <= i < 6 => LowerChar(s[1..][i]));
      Colour.SameDigitValues(s[1..], r[1..]);
      assert !NoUpper(s) ==> r != s by {
        if !NoUpper(s) {
          var i :| 0 <= i < |s| && 'A' <= s[i] <= 'Z';
          assert r[i] != s[i];
        }
      }
      r
    else
      assert AllDigits("#000000"[1..], 16) by {
        assert "#000000"[1..] == "000000";
      }
      "#000000"
  }

  /** The value the glow-intensity slider (`type="range"`, min 0, max 100)
      holds after `.val(n)` with a whole number: the HTML standard's value
      sanitization clamps it into the range. */
  function RangeInputValue(n: int): (r: int)
    ensures 0 <= r <= 100
    ensures 0 <= n <= 100 ==> r == n
    ensures n < 0 ==> r == 0
    ensures n > 100 ==> r == 100
  {
    if n < 0 then 0 else if n > 100 then 100 else n
  }

  /** The style controls as `loadInitialData` fills them from the row. */
  datatype Controls = Controls(
    noteFontSize: int,
    noteGlowColour: string,
    noteGlowIntensity: int,
    intensityLabel: string,
    noteBold: bool,
    timerFontSize: int,
    timerColour: string)

  /** The controls after loading: the number inputs take the row's sizes (or
      their defaults), the colour inputs and the slider keep what their value
      sanitization lets through, and the label beside the slider shows the
      row's intensity as it is, in range or not. */
  function ControlsFromConfig(c: Config): (k: Controls)
    ensures k.noteFontSize != 0 && k.timerFontSize != 0
    ensures IsSimpleColour(k.noteGlowColour) && IsSimpleColour(k.timerColour)
    ensures 0 <= k.noteGlowIntensity <= 100
    ensures k.noteBold <==> c.noteBold != Some(false)
    ensures k.intensityLabel == NumberToString(OrNum(c.noteGlowIntensity, 80)) + "%"
  {
    var intensity := OrNum(c.noteGlowIntensity, 80);
    Controls(OrNum(c.noteFontSize, 36), ColourInputValue(OrStr(c.noteGlowColor, "#3b82f6")),
             RangeInputValue(intensity), NumberToString(intensity) + "%", c.noteBold != Some(false),
             OrNum(c.timerFontSize, 64), ColourInputValue(OrStr(c.timerColor, "#ffffff")))
  }

  /** The label beside the slider names the slider's own value exactly when
      the row's intensity (or its default) lies between 0 and 100. */
  lemma IntensityLabelAgrees(c: Config)
    ensures var k := ControlsFromConfig(c);
      var v := OrNum(c.noteGlowIntensity, 80);
      k.intensityLabel == NumberToString(k.noteGlowIntensity) + "%" <==> 0 <= v <= 100
  {
    var k := ControlsFromConfig(c);
    var v := OrNum(c.noteGlowIntensity, 80);
    var a, b := NumberToString(v), NumberToString(k.noteGlowIntensity);
    if a + "%" == b + "%" {
      assert a == (a + "%")[..|a + "%"| - 1] == (b + "%")[..|b + "%"| - 1] == b;
      ParseIntOfNumberToString(v);
      ParseIntOfNumberToString(k.noteGlowIntensity);
    }
  }

  /** A nonzero number shown in an input parses back past its default. */
  lemma ParseOrOfNumber(n: int, d: int)
    requires n != 0
    ensures ParseOr(NumberToString(n), d) == n
  {
    ParseIntOfNumberToString(n);
  }

  /** Loading the panel and pressing "Update note" without editing sends the
      stored font size back (or its default). The intensity comes back only
      when it lies in 1..100: above, it is sent as 100, and below 0 the slider
      rests at 0, which is sent as 80. The glow colour comes back when it was
      a lowercase `#rrggbb`; otherwise it is lowercased, or black when it was
      not such a colour at all. */
  lemma UnchangedNoteResent(c: Config, note: string)
    ensures var k := ControlsFromConfig(c);
      var r := NoteStyle(note, NumberToString(k.noteFontSize), k.noteGlowColour,
                         NumberToString(k.noteGlowIntensity), k.noteBold);
      var v := OrNum(c.noteGlowIntensity, 80);
      var stored := OrStr(c.noteGlowColor, "#3b82f6");
      && r.fields["note_font_size"] == JNum(OrNum(c.noteFontSize, 36))
      && r.fields["note_glow_intensity"] == JNum(if v > 100 then 100 else if v <= 0 then 80 else v)
      && (IsSimpleColour(stored) && NoUpper(stored) ==> r.fields["note_glow_color"] == JStr(stored))
      && (!IsSimpleColour(stored) ==> r.fields["note_glow_color"] == JStr("#000000"))
      && r.fields["note_bold"] == JBool(c.noteBold != Some(false))
  {
    var k := ControlsFromConfig(c);
    ParseOrOfNumber(k.noteFontSize, 36);
    if k.noteGlowIntensity != 0 {
      ParseOrOfNumber(k.noteGlowIntensity, 80);
    } else {
      ParseIntOfNumberToString(0);
    }
  }

  /** The same for "Update timer style": the size comes back, and the colour
      comes back when it was a lowercase `#rrggbb`, and is black when it was
      not a hex colour of that form (a name such as `red`, or `#fff`). */
  lemma UnchangedTimerStyleResent(c: Config)
    ensures var k := ControlsFromConfig(c);
      var r := TimerStyle(NumberToString(k.timerFontSize), k.timerColour);
      var stored := OrStr(c.timerColor, "#ffffff");
      && r.fields["timer_font_size"] == JNum(OrNum(c.timerFontSize, 64))
      && (IsSimpleColour(stored) && NoUpper(stored) ==> r.fields["timer_color"] == JStr(stored))
      && (!IsSimpleColour(stored) ==> r.fields["timer_color"] == JStr("#000000"))
  {
    ParseOrOfNumber(ControlsFromConfig(c).timerFontSize, 64);
  }

  // ---------------------------------------------------------------------------
  // Teams and actions
  // ---------------------------------------------------------------------------

  /** "Add team": only a non-empty name is sent (untrimmed), and the input is
      then cleared; an empty input is already empty. */
  function AddTeamClick(name: string): (k: Click)
    ensures k.request.Some? <==> name != ""
    ensures k.request.Some? ==> k.request.value == AddTeam(name)
    ensures k.inputAfter == ""
  {
    if name != "" then Click(Some(AddTeam(name)), "") else Click(None, name)
  }

  const AlertUrl := "/assets/sounds/alert.mp3"

  /** "Play sound": always the bundled alert. */
  const PlaySound: Request := PlayAction("sound", map["url" := JStr(AlertUrl)])

  /** "Send TTS": only a non-empty message is sent, and the input is then
      cleared. */
  function SendTts(text: string): (k: Click)
    ensures k.request.Some? <==> text != ""
    ensures k.request.Some? ==> k.request.value == PlayAction("tts", map["text" := JStr(text)])
    ensures k.inputAfter == ""
  {
    if text != "" then Click(Some(PlayAction("tts", map["text" := JStr(text)])), "") else Click(None, text)
  }

  /** A string payload field as the display reads it. */
  function StrField(payload: map<string, Json>, key: string): Option<string> {
    if key in payload && payload[key].JStr? then Some(payload[key].s) else None
  }

  /** The `last_action_payload` the server stores for an action request. */
  function ActionOf(kind: string, payload: map<string, Json>): Action {
    Action(kind, StrField(payload, "url"), StrField(payload, "text"))
  }

  /** What the display does with each action the panel can send: the sound
      button plays the alert, switches the source to it and plays again; a
      message is spoken after the alert. */
  lemma ActionsPerformed(text: string)
    requires text != ""
    ensures Display.HandleAction(Some(ActionOf(PlaySound.kind, PlaySound.payload))) ==
      [Display.PlayAlert, Display.SetAlertSource(AlertUrl), Display.PlayAlert]
    ensures var r := SendTts(text).request.value;
      Display.HandleAction(Some(ActionOf(r.kind, r.payload))) == [Display.PlayAlert, Display.Speak(text)]
  {
  }
}
