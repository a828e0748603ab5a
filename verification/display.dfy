/*******************************************************************************
 *  The public display page (frontend/assets/js/app.js) as a reducer: a state
 *  holding the last acknowledged action counter, the one live countdown tick
 *  and the rendered view, driven by three kinds of events (a pushed config
 *  row, a firing tick, a loaded team list) and emitting audio/speech effects.
 *******************************************************************************/

module Display {
  import opened Js
  import opened Clock
  import opened Colour
  import opened Snapshot
  import Layout

  // ---------------------------------------------------------------------------
  // State
  // ---------------------------------------------------------------------------

  /** The progress ring's fraction, kept as shown seconds over the divisor so
      that no floating point is involved. */
  datatype Progress = Progress(shown: int, divisor: int)

  /** The note's text shadow: a colour and `note_glow_intensity` in percent. */
  datatype Glow = Glow(colour: Rgb, intensityPercent: int)

  datatype Team = Team(name: string, visible: bool)

  /** The team list: the "No teams yet." placeholder, or the scrolling list. */
  datatype TeamList = NoTeams | Scrolling(names: seq<string>)

  datatype View = View(
    timerText: string,
    progress: Progress,
    timerFontSize: int,
    timerColor: string,
    noteText: string,
    noteFontSize: int,
    noteBold: bool,
    noteGlow: Option<Glow>,
    screen: Layout.Screen,
    teamList: TeamList)

  /** A live `setInterval` countdown: its handle and what it captured. */
  datatype Tick = Tick(handle: nat, endsAtMs: int, divisor: int)

  datatype Display = Display(
    lastActionCounter: int,
    tick: Option<Tick>,
    nextHandle: nat,
    shufflePeriodMs: Option<int>,
    view: View)

  /** What the page asks the audio element and the speech synthesiser to do. */
  datatype Effect = PlayAlert | SetAlertSource(url: string) | Speak(text: string)

  datatype Event =
    | ConfigPushed(config: Config)
    | TickFired(handle: nat, nowMs: int)
    | TeamsLoaded(teams: Option<seq<Team>>)

  /** The page as it loads: no action seen yet (counter -1), no tick. */
  function Initial(v: View): (d: Display)
    ensures d.lastActionCounter == -1 && d.tick.None? && Valid(d)
  {
    Display(-1, None, 0, None, v)
  }

  /** Interval handles are handed out in increasing order, so the live tick's
      handle is always below the next one. */
  predicate Valid(d: Display) {
    d.tick.Some? ==> d.tick.value.handle < d.nextHandle
  }

  // ---------------------------------------------------------------------------
  // updateTimer
  // ---------------------------------------------------------------------------

  /** `timer_duration_seconds || 1`: what the ring divides by. */
  function Divisor(c: Config): (r: int)
    ensures r != 0
  {
    OrNum(c.timerDurationSeconds, 1)
  }

  /** `timer_remaining || (stopped ? duration : 0)`: the seconds a paused or
      stopped timer shows. */
  function StaticSeconds(c: Config): int
    requires c.timerState == Paused || c.timerState == Stopped
  {
    if !FalsyNum(c.timerRemaining) then c.timerRemaining.value
    else if c.timerState == Stopped then Divisor(c)
    else 0
  }

  /** `updateTimer(config)`: the old tick is always cancelled first; a running
      timer arms a fresh tick (the text is first written when it fires); a
      paused or stopped timer is rendered once; any other state only cancels. */
  function UpdateTimer(d: Display, c: Config): (d': Display)
    requires Valid(d)
    ensures Valid(d') && d'.nextHandle >= d.nextHandle
    ensures d'.tick.Some? <==> c.timerState == Running
    ensures d'.tick.Some? ==> d'.tick.value == Tick(d.nextHandle, EndsAtMs(c), Divisor(c))
    ensures c.timerState != Paused && c.timerState != Stopped ==> d'.view == d.view
    ensures c.timerState == Paused || c.timerState == Stopped ==>
      d'.view == d.view.(timerText := ClockText(StaticSeconds(c)),
                         progress := Progress(StaticSeconds(c), Divisor(c)))
    ensures d'.lastActionCounter == d.lastActionCounter && d'.shufflePeriodMs == d.shufflePeriodMs
  {
    var cleared := d.(tick := None);
    match c.timerState
    case Running =>
      cleared.(tick := Some(Tick(d.nextHandle, EndsAtMs(c), Divisor(c))), nextHandle := d.nextHandle + 1)
    case Paused =>
      var t := StaticSeconds(c);
      cleared.(view := d.view.(timerText := ClockText(t), progress := Progress(t, Divisor(c))))
    case Stopped =>
      var t := StaticSeconds(c);
      cleared.(view := d.view.(timerText := ClockText(t), progress := Progress(t, Divisor(c))))
    case Unrecognised =>
      cleared
  }

  /** One firing of the interval callback. A handle that is not the live one
      has been cleared and never runs. When the count reaches zero the tick
      clears itself, holds "00:00:00" with an empty ring and plays the alert. */
  function FireTick(d: Display, handle: nat, nowMs: int): (out: (Display, seq<Effect>))
    requires Valid(d)
    ensures Valid(out.0)
    ensures d.tick.None? || d.tick.value.handle != handle ==> out == (d, [])
  {
    if d.tick.None? || d.tick.value.handle != handle then (d, [])
    else
      var t := d.tick.value;
      var left := RemainingSeconds(t.endsAtMs, nowMs);
      if left <= 0 then
        (d.(tick := None, view := d.view.(timerText := Zero, progress := Progress(0, t.divisor))), [PlayAlert])
      else
        (d.(view := d.view.(timerText := ClockText(left), progress := Progress(left, t.divisor))), [])
  }

  // ---------------------------------------------------------------------------
  // Actions
  // ---------------------------------------------------------------------------

  /** `handleAction(action)`: nothing for a null action; otherwise the alert is
      played, and then a sound action with a url switches the source and plays
      again, while a tts action with text speaks it. */
  function HandleAction(a: Option<Action>): (fx: seq<Effect>)
    ensures a.None? <==> fx == []
    ensures a.Some? ==> fx[0] == PlayAlert
    ensures a.Some? && a.value.kind == "sound" && !FalsyStr(a.value.url) ==>
      fx == [PlayAlert, SetAlertSource(a.value.url.value), PlayAlert]
    ensures a.Some? && a.value.kind == "tts" && !FalsyStr(a.value.text) ==>
      fx == [PlayAlert, Speak(a.value.text.value)]
    ensures (&& a.Some?
             && !(a.value.kind == "sound" && !FalsyStr(a.value.url))
             && !(a.value.kind == "tts" && !FalsyStr(a.value.text))) ==> fx == [PlayAlert]
  {
    match a
    case None => []
    case Some(act) =>
      if act.kind == "sound" && !FalsyStr(act.url) then [PlayAlert, SetAlertSource(act.url.value), PlayAlert]
      else if act.kind == "tts" && !FalsyStr(act.text) then [PlayAlert, Speak(act.text.value)]
      else [PlayAlert]
  }

  /** The counter test in `handleConfigUpdate`: an action fires exactly when its
      counter is above the last one seen, and the counter is then recorded
      even when the payload is null. */
  function Dispatch(last: int, counter: int, payload: Option<Action>): (out: (int, seq<Effect>))
    ensures out.0 >= last
    ensures counter > last ==> out == (counter, HandleAction(payload))
    ensures counter <= last ==> out == (last, [])
  {
    if counter > last then (counter, HandleAction(payload)) else (last, [])
  }

  /** The counters that fire over a sequence of snapshots, in order. */
  function Fired(last: int, counters: seq<int>): (fired: seq<int>)
    decreases |counters|
  {
    if |counters| == 0 then []
    else
      var next := Dispatch(last, counters[0], None).0;
      (if counters[0] > last then [counters[0]] else []) + Fired(next, counters[1..])
  }

  /** Whatever order the snapshots arrive in, the counters that fire are
      strictly increasing and above the starting counter: no counter value
      fires twice. */
  lemma {:induction false} FiredIncreasing(last: int, counters: seq<int>)
    ensures forall i | 0 <= i < |Fired(last, counters)| :: Fired(last, counters)[i] > last
    ensures forall i, j | 0 <= i < j < |Fired(last, counters)| ::
      Fired(last, counters)[i] < Fired(last, counters)[j]
    decreases |counters|
  {
    if |counters| > 0 {
      var next := Dispatch(last, counters[0], None).0;
      FiredIncreasing(next, counters[1..]);
    }
  }

  /** When every snapshot is seen and the server adds one to the counter for
      each action (backend/app.py), every action fires exactly once. */
  lemma {:induction false} ConsecutiveCountersAllFire(last: int, counters: seq<int>)
    requires forall i | 0 <= i < |counters| :: counters[i] == last + 1 + i
    ensures Fired(last, counters) == counters
    decreases |counters|
  {
    if |counters| > 0 {
      ConsecutiveCountersAllFire(last + 1, counters[1..]);
    }
  }

  // ---------------------------------------------------------------------------
  // Team list
  // ---------------------------------------------------------------------------

  /** `teams.filter(team => team.visible)`, as names. */
  function VisibleNames(ts: seq<Team>): (r: seq<string>)
    ensures |r| <= |ts|
    ensures forall n :: n in r <==> exists i :: 0 <= i < |ts| && ts[i].visible && ts[i].name == n
    decreases |ts|
  {
    if |ts| == 0 then []
    else
      var rest := VisibleNames(ts[..|ts| - 1]);
      var last := ts[|ts| - 1];
      assert forall i | 0 <= i < |ts| - 1 :: ts[..|ts| - 1][i] == ts[i];
      if last.visible then rest + [last.name] else rest
  }

  /** Filtering keeps input order: the names of a concatenation are the
      concatenation of the names. */
  lemma {:induction false} VisibleNamesAppend(a: seq<Team>, b: seq<Team>)
    ensures VisibleNames(a + b) == VisibleNames(a) + VisibleNames(b)
    decreases |b|
  {
    if |b| == 0 {
      assert a + b == a;
    } else {
      assert (a + b)[..|a + b| - 1] == a + b[..|b| - 1];
      VisibleNamesAppend(a, b[..|b| - 1]);
    }
  }

  /** `renderTeams(teams)`: a null or empty list shows the placeholder without
      scrolling; otherwise the visible names are listed twice, in input
      order, so that the list can scroll round. */
  function RenderTeams(teams: Option<seq<Team>>): (r: TeamList)
    ensures r.NoTeams? <==> teams.None? || |teams.value| == 0
    ensures r.Scrolling? ==> r.names == VisibleNames(teams.value) + VisibleNames(teams.value)
  {
    if teams.None? || |teams.value| == 0 then NoTeams
    else
      var v := VisibleNames(teams.value);
      Scrolling(v + v)
  }

  /** The list shows each visible team exactly twice as often as it appears. */
  lemma RenderedTwice(ts: seq<Team>)
    requires |ts| > 0
    ensures |RenderTeams(Some(ts)).names| == 2 * |VisibleNames(ts)|
    ensures forall i | 0 <= i < |VisibleNames(ts)| ::
      RenderTeams(Some(ts)).names[i] == RenderTeams(Some(ts)).names[i + |VisibleNames(ts)|]
  {
  }

  // ---------------------------------------------------------------------------
  // handleConfigUpdate
  // ---------------------------------------------------------------------------

  /** The note's glow after an update: replaced when the colour parses,
      otherwise left as it was. */
  function NextGlow(previous: Option<Glow>, c: Config): (g: Option<Glow>)
    ensures HexToRgb(OrStr(c.noteGlowColor, "#3b82f6")).None? ==> g == previous
    ensures HexToRgb(OrStr(c.noteGlowColor, "#3b82f6")).Some? ==>
      g == Some(Glow(HexToRgb(OrStr(c.noteGlowColor, "#3b82f6")).value, OrNum(c.noteGlowIntensity, 80)))
  {
    match HexToRgb(OrStr(c.noteGlowColor, "#3b82f6"))
    case Some(rgb) => Some(Glow(rgb, OrNum(c.noteGlowIntensity, 80)))
    case None => previous
  }

  /** `handleConfigUpdate(config)`: timer, styling, layout, the action counter
      and the shuffle timer, in that order. */
  function HandleConfigUpdate(d: Display, c: Config): (out: (Display, seq<Effect>))
    requires Valid(d)
    ensures Valid(out.0)
  {
    var d1 := UpdateTimer(d, c);
    var v := d1.view.(
      timerFontSize := OrNum(c.timerFontSize, 64),
      timerColor := OrStr(c.timerColor, "#ffffff"),
      noteText := OrStr(c.note, ""),
      noteFontSize := OrNum(c.noteFontSize, 36),
      noteBold := c.noteBold != Some(false),
      noteGlow := NextGlow(d1.view.noteGlow, c));
    var v2 := if c.layout.Some? then v.(screen := Layout.UpdateLayout(c.layout.value, v.screen)) else v;
    var dispatched := Dispatch(d.lastActionCounter, c.actionCounter, c.lastActionPayload);
    var shuffle := if c.shuffleEnabled then Some(OrNum(c.shuffleIntervalSeconds, 300) * 1000) else None;
    (d1.(view := v2, lastActionCounter := dispatched.0, shufflePeriodMs := shuffle), dispatched.1)
  }

  function Step(d: Display, e: Event): (out: (Display, seq<Effect>))
    requires Valid(d)
    ensures Valid(out.0)
  {
    match e
    case ConfigPushed(c) => HandleConfigUpdate(d, c)
    case TickFired(h, now) => FireTick(d, h, now)
    case TeamsLoaded(ts) => (d.(view := d.view.(teamList := RenderTeams(ts))), [])
  }

  /** A run of events; the effects are concatenated in order. */
  function Run(d: Display, es: seq<Event>): (out: (Display, seq<Effect>))
    requires Valid(d)
    ensures Valid(out.0)
    decreases |es|
  {
    if |es| == 0 then (d, [])
    else
      var first := Step(d, es[0]);
      var rest := Run(first.0, es[1..]);
      (rest.0, first.1 + rest.1)
  }

  predicate OnlyTicks(es: seq<Event>) {
    forall i | 0 <= i < |es| :: es[i].TickFired?
  }

  // ---------------------------------------------------------------------------
  // Properties of the reducer
  // ---------------------------------------------------------------------------

  /** Every pushed config cancels the previous tick before anything else: a
      tick armed before the push (any handle below the old next handle) never
      fires again, so at most one countdown runs. */
  lemma StaleTicksIgnored(d: Display, c: Config, h: nat, nowMs: int)
    requires Valid(d) && h < d.nextHandle
    ensures Step(HandleConfigUpdate(d, c).0, TickFired(h, nowMs)) == (HandleConfigUpdate(d, c).0, [])
  {
  }

  /** A state other than running, paused or stopped cancels the tick and
      leaves the countdown display as it was. */
  lemma UnrecognisedStateKeepsDisplay(d: Display, c: Config)
    requires Valid(d) && c.timerState == Unrecognised
    ensures HandleConfigUpdate(d, c).0.tick.None?
    ensures HandleConfigUpdate(d, c).0.view.timerText == d.view.timerText
    ensures HandleConfigUpdate(d, c).0.view.progress == d.view.progress
  {
  }

  /** A paused or stopped timer shows `timer_remaining` when it is truthy;
      otherwise a stopped timer shows its duration (itself 1 when 0 or null)
      and a paused one shows zero. */
  lemma StaticTimerShown(d: Display, c: Config)
    requires Valid(d) && (c.timerState == Paused || c.timerState == Stopped)
    ensures var v := HandleConfigUpdate(d, c).0.view;
      && (!FalsyNum(c.timerRemaining) ==> v.timerText == ClockText(c.timerRemaining.value))
      && (FalsyNum(c.timerRemaining) && c.timerState == Stopped ==>
            v.timerText == ClockText(OrNum(c.timerDurationSeconds, 1)))
      && (FalsyNum(c.timerRemaining) && c.timerState == Paused ==> v.timerText == Zero)
      && v.progress.divisor == OrNum(c.timerDurationSeconds, 1)
  {
    ZeroText();
  }

  /** Once a paused or stopped config is shown, time passing changes nothing:
      every later tick is silent and leaves the display as it is. */
  lemma {:induction false} StaticDisplayTimeInvariant(d: Display, es: seq<Event>)
    requires Valid(d) && d.tick.None? && OnlyTicks(es)
    ensures Run(d, es).0 == d && Run(d, es).1 == []
    decreases |es|
  {
    if |es| > 0 {
      assert es[0].TickFired?;
      assert Step(d, es[0]) == (d, []);
      assert OnlyTicks(es[1..]) by {
        assert forall i | 0 <= i < |es| - 1 :: es[1..][i] == es[i + 1];
      }
      StaticDisplayTimeInvariant(d, es[1..]);
    }
  }

  /** While the live tick has time left it shows that time and keeps going. */
  lemma TickCountsDown(d: Display, nowMs: int)
    requires Valid(d) && d.tick.Some?
    requires RemainingSeconds(d.tick.value.endsAtMs, nowMs) > 0
    ensures var out := Step(d, TickFired(d.tick.value.handle, nowMs));
      && out.1 == []
      && out.0.tick == d.tick
      && out.0.view.timerText == ClockText(RemainingSeconds(d.tick.value.endsAtMs, nowMs))
      && out.0.view.progress == Progress(RemainingSeconds(d.tick.value.endsAtMs, nowMs), d.tick.value.divisor)
  {
  }

  /** The tick that reaches zero clears itself, shows "00:00:00", empties the
      ring and plays the alert once. */
  lemma TickReachesZero(d: Display, nowMs: int)
    requires Valid(d) && d.tick.Some?
    requires RemainingSeconds(d.tick.value.endsAtMs, nowMs) == 0
    ensures var out := Step(d, TickFired(d.tick.value.handle, nowMs));
      && out.1 == [PlayAlert]
      && out.0.tick.None?
      && out.0.view.timerText == ClockText(0)
      && out.0.view.progress.shown == 0
  {
    ZeroText();
  }

  /** Between two config pushes the countdown plays the alert at most once,
      however many ticks fire and whatever their times. */
  lemma {:induction false} TicksAlertAtMostOnce(d: Display, es: seq<Event>)
    requires Valid(d) && OnlyTicks(es)
    ensures |Run(d, es).1| <= 1
    ensures forall i | 0 <= i < |Run(d, es).1| :: Run(d, es).1[i] == PlayAlert
    ensures Run(d, es).1 != [] ==> Run(d, es).0.tick.None?
    ensures d.tick.None? ==> Run(d, es).1 == []
    decreases |es|
  {
    if |es| > 0 {
      var first := Step(d, es[0]);
      assert OnlyTicks(es[1..]) by {
        assert forall i | 0 <= i < |es| - 1 :: es[1..][i] == es[i + 1];
      }
      TicksAlertAtMostOnce(first.0, es[1..]);
      if first.1 != [] {
        StaticDisplayTimeInvariant(first.0, es[1..]);
      }
    }
  }

  /** Ticks of the live countdown fired at later times never show more time. */
  lemma LaterTicksShowLess(d: Display, now1: int, now2: int)
    requires Valid(d) && d.tick.Some? && now1 <= now2
    ensures var t := d.tick.value;
      RemainingSeconds(t.endsAtMs, now2) <= RemainingSeconds(t.endsAtMs, now1)
  {
    RemainingNonIncreasing(d.tick.value.endsAtMs, now1, now2);
  }

  /** An action fires exactly when its counter is above the last one seen;
      afterwards the recorded counter is the larger of the two. */
  lemma ActionFiresIffNewCounter(d: Display, c: Config)
    requires Valid(d)
    ensures var out := HandleConfigUpdate(d, c);
      && (c.actionCounter > d.lastActionCounter ==> out.1 == HandleAction(c.lastActionPayload))
      && (c.actionCounter <= d.lastActionCounter ==> out.1 == [])
      && out.0.lastActionCounter == if c.actionCounter > d.lastActionCounter then c.actionCounter else d.lastActionCounter
  {
  }

  /** Receiving the same snapshot again (a reconnect or a re-poll) fires
      nothing the second time. */
  lemma ReplayedSnapshotSilent(d: Display, c: Config)
    requires Valid(d)
    ensures HandleConfigUpdate(HandleConfigUpdate(d, c).0, c).1 == []
  {
  }

  /** Every write to the row makes the server tell the page to reload, and
      the reloaded page starts again from Initial. The first row it reads then
      replays the stored action, although the page before the reload had
      already performed it and would have stayed silent: the counter check
      only holds within one page load. */
  lemma ReloadReplaysLastAction(d: Display, c: Config, c': Config, v: View)
    requires Valid(d) && c.actionCounter > d.lastActionCounter && c.actionCounter >= 0
    requires c'.actionCounter == c.actionCounter && c'.lastActionPayload == c.lastActionPayload
    ensures Step(d, ConfigPushed(c)).1 == HandleAction(c.lastActionPayload)
    ensures Step(Step(d, ConfigPushed(c)).0, ConfigPushed(c')).1 == []
    ensures Step(Initial(v), ConfigPushed(c')).1 == HandleAction(c.lastActionPayload)
  {
  }

  /** The shuffle timer is replaced on every update: armed with
      `(interval || 300) * 1000` ms when enabled, gone otherwise. */
  lemma ShuffleReplaced(d: Display, c: Config)
    requires Valid(d)
    ensures var s := HandleConfigUpdate(d, c).0.shufflePeriodMs;
      && (c.shuffleEnabled <==> s.Some?)
      && (c.shuffleEnabled && FalsyNum(c.shuffleIntervalSeconds) ==> s == Some(300000))
      && (c.shuffleEnabled && !FalsyNum(c.shuffleIntervalSeconds) ==> s == Some(c.shuffleIntervalSeconds.value * 1000))
  {
  }

  /** Style fields the row sets are shown as given; falsy ones fall back to
      their defaults: timer font 64, colour white, note font 36, empty note.
      The note is bold unless note_bold is false. */
  lemma StyleDefaults(d: Display, c: Config)
    requires Valid(d)
    ensures var v := HandleConfigUpdate(d, c).0.view;
      && (FalsyNum(c.timerFontSize) ==> v.timerFontSize == 64)
      && (!FalsyNum(c.timerFontSize) ==> v.timerFontSize == c.timerFontSize.value)
      && (FalsyStr(c.timerColor) ==> v.timerColor == "#ffffff")
      && (!FalsyStr(c.timerColor) ==> v.timerColor == c.timerColor.value)
      && (FalsyNum(c.noteFontSize) ==> v.noteFontSize == 36)
      && (!FalsyNum(c.noteFontSize) ==> v.noteFontSize == c.noteFontSize.value)
      && (FalsyStr(c.note) ==> v.noteText == "")
      && (!FalsyStr(c.note) ==> v.noteText == c.note.value)
      && (v.noteBold <==> c.noteBold != Some(false))
  {
  }

  /** The rest of what a pushed row does to the view: the timer text and ring
      are those of updateTimer, the glow is replaced only for a colour that
      parses, the regions move only when the row carries a layout, and the
      team list is left alone. */
  lemma PushedRowShown(d: Display, c: Config)
    requires Valid(d)
    ensures var v := HandleConfigUpdate(d, c).0.view;
      && v.timerText == UpdateTimer(d, c).view.timerText
      && v.progress == UpdateTimer(d, c).view.progress
      && v.noteGlow == NextGlow(d.view.noteGlow, c)
      && (HexToRgb(OrStr(c.noteGlowColor, "#3b82f6")).None? ==> v.noteGlow == d.view.noteGlow)
      && (c.layout.Some? ==> v.screen == Layout.UpdateLayout(c.layout.value, d.view.screen))
      && (c.layout.None? ==> v.screen == d.view.screen)
      && v.teamList == d.view.teamList
  {
  }

  /** The example of a running timer 125 seconds from its end: the tick shows
      `00:02:05` with 125 of 300 seconds on the ring. */
  lemma RunningExample(d: Display, c: Config, nowMs: int)
    requires Valid(d) && c.timerState == Running
    requires c.timerEndsAtMs == Some(nowMs + 125000) && c.timerDurationSeconds == Some(300)
    ensures var d1 := HandleConfigUpdate(d, c).0;
      var out := Step(d1, TickFired(d.nextHandle, nowMs));
      out.0.view.timerText == "00:02:05" && out.0.view.progress == Progress(125, 300)
  {
    var d1 := HandleConfigUpdate(d, c).0;
    assert d1.tick == Some(Tick(d.nextHandle, nowMs + 125000, 300));
    WholeSecondsAhead(nowMs, 125);
    TickCountsDown(d1, nowMs);
    ClockExample();
  }
}
