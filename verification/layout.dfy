/*******************************************************************************
 *  Screen layout: where the timer, the team list and the note sit. The admin
 *  page's layout editor applies a layout to its three preview boxes; the
 *  public display applies the same layout to its three containers.
 *******************************************************************************/

module Layout {
  import opened Js

  /** One region's placement, in CSS lengths (the editor stores percentages). */
  datatype Placement = Placement(top: string, left: string, width: string, height: string)

  /** A layout object: region name to placement. Only "timer", "teams" and
      "note" are ever read; other keys are carried but ignored. */
  type Spec = map<string, Placement>

  /** The inline positioning properties of one box ("" = not set). */
  datatype Style = Style(
    position: string,
    top: string,
    left: string,
    right: string,
    bottom: string,
    width: string,
    height: string,
    transform: string)

  /** The three positioned boxes of a page. */
  datatype Regions = Regions(timer: Style, teams: Style, note: Style)

  /** The region names, in the order the editor visits them. */
  const Keys: seq<string> := ["timer", "teams", "note"]

  predicate IsKey(k: string) {
    k == "timer" || k == "teams" || k == "note"
  }

  function Get(r: Regions, k: string): Style
    requires IsKey(k)
  {
    if k == "timer" then r.timer else if k == "teams" then r.teams else r.note
  }

  function Put(r: Regions, k: string, s: Style): (r': Regions)
    requires IsKey(k)
    ensures Get(r', k) == s
    ensures forall k' | IsKey(k') && k' != k :: Get(r', k') == Get(r, k')
  {
    if k == "timer" then r.(timer := s) else if k == "teams" then r.(teams := s) else r.(note := s)
  }

  // ---------------------------------------------------------------------------
  // Admin layout editor: applyLayout
  // ---------------------------------------------------------------------------

  /** One preview box after `applyLayout`: every positioning property is first
      cleared, then the box is made absolute and given the placement. */
  function Reposition(s: Style, p: Placement): (r: Style)
    ensures r.position == "absolute"
    ensures r.right == "" && r.bottom == "" && r.transform == ""
    ensures r.top == p.top && r.left == p.left && r.width == p.width && r.height == p.height
  {
    var cleared := s.(top := "", right := "", bottom := "", left := "", width := "", height := "", transform := "");
    cleared.(position := "absolute", top := p.top, left := p.left, width := p.width, height := p.height)
  }

  /** The `forEach` over the region names. */
  function ApplyKeys(m: Spec, r: Regions, ks: seq<string>): (r': Regions)
    requires forall i | 0 <= i < |ks| :: IsKey(ks[i])
    ensures forall k | IsKey(k) ::
      Get(r', k) == if k in ks && k in m then Reposition(Get(r, k), m[k]) else Get(r, k)
    decreases |ks|
  {
    if |ks| == 0 then r
    else
      var k := ks[0];
      var r1 := if k in m then Put(r, k, Reposition(Get(r, k), m[k])) else r;
      assert forall k' :: k' in ks <==> k' == k || k' in ks[1..];
      ApplyKeys(m, r1, ks[1..])
  }

  /** `applyLayout(layout)` on the admin preview; None is a null layout. */
  function ApplyLayout(layout: Option<Spec>, r: Regions): (r': Regions)
    ensures layout.None? ==> r' == r
    ensures layout.Some? ==> forall k | IsKey(k) ::
      Get(r', k) == if k in layout.value then Reposition(Get(r, k), layout.value[k]) else Get(r, k)
  {
    if layout.None? then r else ApplyKeys(layout.value, r, Keys)
  }

  /** Keys other than the three region names never change the preview. */
  lemma ApplyLayoutIgnoresOtherKeys(m: Spec, k: string, p: Placement, r: Regions)
    requires !IsKey(k)
    ensures ApplyLayout(Some(m[k := p]), r) == ApplyLayout(Some(m), r)
  {
    var a, b := ApplyLayout(Some(m[k := p]), r), ApplyLayout(Some(m), r);
    assert Get(a, "timer") == Get(b, "timer");
    assert Get(a, "teams") == Get(b, "teams");
    assert Get(a, "note") == Get(b, "note");
  }

  /** Applying the same layout twice is the same as applying it once. */
  lemma ApplyLayoutIdempotent(layout: Option<Spec>, r: Regions)
    ensures ApplyLayout(layout, ApplyLayout(layout, r)) == ApplyLayout(layout, r)
  {
    var a := ApplyLayout(layout, r);
    var b := ApplyLayout(layout, a);
    assert Get(a, "timer") == Get(b, "timer");
    assert Get(a, "teams") == Get(b, "teams");
    assert Get(a, "note") == Get(b, "note");
  }

  /** A layout naming all three regions decides the whole preview: whatever
      placement the boxes had before is forgotten. */
  lemma CompleteLayoutDecides(m: Spec, r1: Regions, r2: Regions)
    requires forall k | IsKey(k) :: k in m
    ensures ApplyLayout(Some(m), r1) == ApplyLayout(Some(m), r2)
  {
    var a, b := ApplyLayout(Some(m), r1), ApplyLayout(Some(m), r2);
    assert Get(a, "timer") == Get(b, "timer");
    assert Get(a, "teams") == Get(b, "teams");
    assert Get(a, "note") == Get(b, "note");
  }

  // ---------------------------------------------------------------------------
  // Presets and the initial layout
  // ---------------------------------------------------------------------------

  const DefaultPreset: Spec := map[
    "timer" := Placement("5%", "5%", "25%", "60%"),
    "teams" := Placement("5%", "70%", "25%", "80%"),
    "note" := Placement("70%", "5%", "40%", "15%")]

  const TimerFocusPreset: Spec := map[
    "timer" := Placement("25%", "35%", "30%", "50%"),
    "teams" := Placement("5%", "70%", "25%", "90%"),
    "note" := Placement("5%", "5%", "30%", "15%")]

  const Presets: map<string, Spec> := map["default" := DefaultPreset, "timer-focus" := TimerFocusPreset]

  /** The preset selector's change handler. */
  function SelectPreset(name: string, r: Regions): (r': Regions)
    ensures name !in Presets ==> r' == r
    ensures name in Presets ==> r' == ApplyLayout(Some(Presets[name]), r)
  {
    if name != "" && name in Presets then ApplyLayout(Some(Presets[name]), r) else r
  }

  /** Both presets place all three regions, so choosing one fixes the whole
      preview regardless of what was there. */
  lemma PresetsComplete(name: string, r1: Regions, r2: Regions)
    requires name in Presets
    ensures SelectPreset(name, r1) == SelectPreset(name, r2)
    ensures forall k | IsKey(k) :: k in Presets[name] && Get(SelectPreset(name, r1), k).top == Presets[name][k].top
  {
    CompleteLayoutDecides(Presets[name], r1, r2);
  }

  /** The layout the editor starts from: the stored layout when the config
      loads and has one, otherwise the default preset. `fetched` is None when
      loading the config failed; its inner Option is `config.layout`. */
  function InitialLayout(fetched: Option<Option<Spec>>): (m: Spec)
    ensures fetched.Some? && fetched.value.Some? ==> m == fetched.value.value
    ensures fetched.None? || fetched.value.None? ==> m == DefaultPreset
  {
    if fetched.Some? && fetched.value.Some? then fetched.value.value else DefaultPreset
  }

  /** The preview after the editor starts. */
  function InitialPreview(fetched: Option<Option<Spec>>, r: Regions): Regions {
    ApplyLayout(Some(InitialLayout(fetched)), r)
  }

  /** Without a stored layout the preview shows exactly the default preset. */
  lemma InitialPreviewFallsBack(fetched: Option<Option<Spec>>, r: Regions)
    requires fetched.None? || fetched.value.None?
    ensures InitialPreview(fetched, r) == SelectPreset("default", r)
    ensures forall k | IsKey(k) :: Get(InitialPreview(fetched, r), k) == Reposition(Get(r, k), DefaultPreset[k])
  {
  }

  // ---------------------------------------------------------------------------
  // Public display: updateLayout
  // ---------------------------------------------------------------------------

  /** One display container after `Object.assign(style, {position: 'absolute',
      ...position, ...size})`: unlike the editor, right/bottom/transform are
      left as they were. */
  function PlaceOver(s: Style, p: Placement): (r: Style)
    ensures r.position == "absolute"
    ensures r.top == p.top && r.left == p.left && r.width == p.width && r.height == p.height
    ensures r.right == s.right && r.bottom == s.bottom && r.transform == s.transform
  {
    s.(position := "absolute", top := p.top, left := p.left, width := p.width, height := p.height)
  }

  /** The display's containers and the timer's inner ring box. */
  datatype Screen = Screen(boxes: Regions, timerInner: Style)

  /** `updateLayout(layout)` on the display. */
  function UpdateLayout(m: Spec, s: Screen): (s': Screen)
    ensures forall k | IsKey(k) ::
      Get(s'.boxes, k) == if k in m then PlaceOver(Get(s.boxes, k), m[k]) else Get(s.boxes, k)
    ensures "timer" in m ==>
      s'.timerInner == s.timerInner.(width := m["timer"].width, height := m["timer"].height)
    ensures "timer" !in m ==> s'.timerInner == s.timerInner
  {
    var b := s.boxes;
    var timer := if "timer" in m then PlaceOver(b.timer, m["timer"]) else b.timer;
    var teams := if "teams" in m then PlaceOver(b.teams, m["teams"]) else b.teams;
    var note := if "note" in m then PlaceOver(b.note, m["note"]) else b.note;
    var inner := if "timer" in m then s.timerInner.(width := m["timer"].width, height := m["timer"].height)
                 else s.timerInner;
    Screen(Regions(timer, teams, note), inner)
  }

  /** The display and the editor agree on where a region goes; they differ only
      in that the editor also clears right, bottom and transform. */
  lemma DisplayAgreesWithEditor(m: Spec, s: Screen, r: Regions, k: string)
    requires IsKey(k) && k in m
    ensures Get(UpdateLayout(m, s).boxes, k).(right := "", bottom := "", transform := "")
         == Get(ApplyLayout(Some(m), r), k)
  {
  }
}
