/*******************************************************************************
 *  The event configuration row (`event_config`, id 1) as the pages read it.
 *  Every column the pages consult may be null, which JS treats as falsy.
 *******************************************************************************/

module Snapshot {
  import opened Js
  import Layout

  /** `timer_state`; any text other than the three known states (or null) is
      Unrecognised. */
  datatype TimerState = Running | Paused | Stopped | Unrecognised

  /** `last_action_payload`: `{type, payload: {url} | {text}}`; an absent
      url/text is None, and an empty one is falsy. */
  datatype Action = Action(kind: string, url: Option<string>, text: Option<string>)

  datatype Config = Config(
    timerState: TimerState,
    timerEndsAtMs: Option<int>,          // timer_ends_at as epoch milliseconds
    timerRemaining: Option<int>,         // seconds
    timerDurationSeconds: Option<int>,
    timerFontSize: Option<int>,
    timerColor: Option<string>,
    note: Option<string>,
    noteFontSize: Option<int>,
    noteBold: Option<bool>,
    noteGlowColor: Option<string>,
    noteGlowIntensity: Option<int>,      // percent
    layout: Option<Layout.Spec>,
    actionCounter: int,
    lastActionPayload: Option<Action>,
    shuffleEnabled: bool,
    shuffleIntervalSeconds: Option<int>)

  /** `new Date(timer_ends_at).getTime()`; a null end time is the epoch. */
  function EndsAtMs(c: Config): int {
    match c.timerEndsAtMs
    case Some(ms) => ms
    case None => 0
  }
}
