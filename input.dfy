/**
 * The input state machine as step functions on the panel's state: pointer
 * down (hit test and per-kind commit), drag, up, and the two keyboard
 * handlers. The panel class runs each handler imperatively and is proved to
 * agree with these functions.
 */
module Input {
  import opened Wrappers
  import opened JsNumber
  import opened Widgets

  /** The part of the panel the handlers read and write. `events` logs the callbacks called. */
  datatype Panel = Panel(items: seq<Control>, activeControl: Option<nat>, enabled: bool,
                         mousePos: Point, events: seq<Event>)

  /** What a handler reads but never writes: the pixel ratio, the panel offset `x`, `y`, and the renderer's colour picker. */
  datatype Env = Env(pixelRatio: real, x: real, y: real, sample: Sampler)

  /** How a pointer-down ends: normally (and whether it stopped the event's propagation), or by a TypeError. */
  datatype Outcome = Done(stopped: bool) | Threw

  /** How the commit for one hit control ends: break out of the scan, go on scanning, or throw. */
  datatype HitResult = Stopped | Passed | Crashed

  /** A key-down event: the backspace key, or any other key code. */
  datatype KeyCode = Backspace | OtherKey(code: int)

  predicate NoFocus(s: seq<Control>)
  {
    forall i :: 0 <= i < |s| ==> !s[i].focus
  }

  /** At most one control has focus. The panel keeps this, as the laws of each handler show. */
  predicate AtMostOneFocus(s: seq<Control>)
  {
    forall i, j :: 0 <= i < |s| && 0 <= j < |s| && s[i].focus && s[j].focus ==> i == j
  }

  /** The invariant every handler keeps: the active control exists and every control is well typed. */
  predicate Wf(p: Panel)
  {
    && (p.activeControl.Some? ==> p.activeControl.value < |p.items|)
    && (forall i :: 0 <= i < |p.items| ==> WellTyped(p.items[i]))
  }

  /** Stores control `k` after an edit and, when it has an `onchange` callback, logs the call with the new value. */
  function Change(p: Panel, k: nat, c: Control): (q: Panel)
    requires k < |p.items|
    ensures q.items == p.items[k := c]
    ensures q.activeControl == p.activeControl && q.enabled == p.enabled && q.mousePos == p.mousePos
    ensures q.events == p.events + (if c.hasOnChange then [Changed(k, c.value)] else [])
    ensures Wf(p) && WellTyped(c) ==> Wf(q)
  {
    p.(items := p.items[k := c], events := if c.hasOnChange then p.events + [Changed(k, c.value)] else p.events)
  }

  /** The first step of a pointer-down for one control: a focused text field loses focus and becomes dirty. */
  function Unfocus(c: Control): (d: Control)
    ensures d.focus == (c.focus && c.kind != Text)
    ensures d == c.(focus := d.focus, dirty := d.dirty)
    ensures d != c ==> d.dirty
  {
    if c.kind == Text && c.focus then c.(focus := false, dirty := true) else c
  }

  /** Unfocus applied to every control, in order. */
  function ClearFocus(s: seq<Control>): (r: seq<Control>)
    ensures |r| == |s|
    ensures forall i :: 0 <= i < |s| ==> r[i] == Unfocus(s[i])
    ensures (forall i :: 0 <= i < |s| ==> WellTyped(s[i])) ==>
              NoFocus(r) && forall i :: 0 <= i < |r| ==> WellTyped(r[i])
  {
    if s == [] then [] else [Unfocus(s[0])] + ClearFocus(s[1..])
  }

  /** The pointer in panel pixels: the device position over the pixel ratio, minus the panel offset. */
  function PanelPoint(env: Env, ex: real, ey: real): (pt: Point)
    requires env.pixelRatio != 0.0
    ensures (pt.x + env.x) * env.pixelRatio == ex && (pt.y + env.y) * env.pixelRatio == ey
  {
    Point(ex / env.pixelRatio - env.x, ey / env.pixelRatio - env.y)
  }

  /** The state a pointer-down scans from: focus cleared, no active control, the pointer recorded. */
  function Pressed(p: Panel, env: Env, ex: real, ey: real): (q: Panel)
    requires env.pixelRatio != 0.0
    ensures q.items == ClearFocus(p.items) && q.activeControl.None? && q.mousePos == PanelPoint(env, ex, ey)
    ensures q.enabled == p.enabled && q.events == p.events
    ensures Wf(p) ==> Wf(q) && NoFocus(q.items)
  {
    p.(items := ClearFocus(p.items), activeControl := None, mousePos := PanelPoint(env, ex, ey))
  }

  /** Height of a colour control's palette image, drawn across the control's full width. */
  function PaletteHeight(a: Rect, img: Image): (h: real)
    ensures h * img.width as real == (a.right - a.left) * img.height as real
    ensures a.right >= a.left ==> h >= 0.0
  {
    (a.right - a.left) * img.height as real / img.width as real
  }

  /** The palette image starts this far below the top of the area. */
  function PaletteStart(a: Rect, img: Image): (s: real)
    ensures s + PaletteHeight(a, img) == a.bottom - a.top
  {
    (a.bottom - a.top) - PaletteHeight(a, img)
  }

  /** The pointer is in the palette strip. The vertical position here ignores the panel offset. */
  predicate InPalette(env: Env, a: Rect, img: Image, ey: real)
    requires env.pixelRatio != 0.0
  {
    ey / env.pixelRatio - a.top > PaletteStart(a, img)
  }

  /** The image pixel under the pointer, `floor(w * u), floor(h * v)` for the pointer's fractions `u`, `v` of the strip. */
  function PaletteTexel(env: Env, a: Rect, img: Image, ex: real, ey: real): (Number, Number)
    requires env.pixelRatio != 0.0
  {
    var u := Div(ex / env.pixelRatio - a.left, a.right - a.left);
    var v := Div(ey / env.pixelRatio - a.top - PaletteStart(a, img), PaletteHeight(a, img));
    (Floor(Scale(img.width as real, u)), Floor(Scale(img.height as real, v)))
  }

  /** The colour under the pointer, as the renderer reads it at the pixel PaletteTexel names. */
  function PalettePick(env: Env, a: Rect, img: Image, ex: real, ey: real): Rgb
    requires env.pixelRatio != 0.0
  {
    var t := PaletteTexel(env, a, img, ex, ey);
    env.sample(img, t.0, t.1)
  }

  /** The normalised horizontal position a drag steers by: `max(0, min((x - left) / width, 1))`. */
  function Fraction(env: Env, a: Rect, ex: real): (t: Unit)
    requires env.pixelRatio != 0.0
    ensures t.NaN? <==> ex / env.pixelRatio == a.left && a.right == a.left
    ensures a.right > a.left ==> t.Finite? && 0.0 <= t.r <= 1.0
    ensures a.right > a.left && a.left <= ex / env.pixelRatio <= a.right ==>
              t == Finite((ex / env.pixelRatio - a.left) / (a.right - a.left))
  {
    var d := ex / env.pixelRatio - a.left;
    QuotientInUnit(d, a.right - a.left);
    Clamp01(Div(d, a.right - a.left))
  }

  /** How many sub-sliders a multi-slider or colour control stacks: one per array entry, or 3 (4 with alpha). */
  function SliderCount(c: Control): nat
    requires c.value.Arr?
  {
    if c.kind == Color then (if c.options.alpha then 4 else 3) else |c.value.elems|
  }

  /** The height the sub-sliders share: the whole area, less a colour control's palette strip. */
  function SlidersHeight(c: Control): (h: real)
    ensures c.kind == Color && c.options.palette.Some? ==>
              h + PaletteHeight(c.area, c.options.palette.value) == c.area.bottom - c.area.top
    ensures !(c.kind == Color && c.options.palette.Some?) ==> h == c.area.bottom - c.area.top
  {
    if c.kind == Color && c.options.palette.Some? then PaletteStart(c.area, c.options.palette.value)
    else c.area.bottom - c.area.top
  }

  /** The band of `count` bands over `height` that a position `offset` below their top falls in: `floor(count * offset / height)`. */
  function Band(count: real, offset: real, height: real): Number
  {
    Floor(Div(count * offset, height))
  }

  /** The sub-slider under the pointer. The vertical position here ignores the panel offset. */
  function SubSliderAt(env: Env, c: Control, ey: real): Number
    requires env.pixelRatio != 0.0 && c.value.Arr?
  {
    Band(SliderCount(c) as real, ey / env.pixelRatio - c.area.top, SlidersHeight(c))
  }

  /** A drag of colour control `c` picks from the palette: the pointer is in the strip and no sub-slider is locked. */
  predicate PalettePickAt(env: Env, c: Control, ey: real)
    requires env.pixelRatio != 0.0
  {
    c.kind == Color && c.options.palette.Some? && InPalette(env, c.area, c.options.palette.value, ey) && !Locked(c)
  }

  /** The row of an `n`-entry radio list with area `a` under the point: `floor(n * hitY / height)`, `hitY` measured from the top. */
  function RadioRow(n: nat, a: Rect, pt: Point): Number
  {
    Band(n as real, pt.y - a.top, a.bottom - a.top)
  }

  /** The texture-list entry the pointer is in; when areas overlap the LAST one wins, as `forEach` overwrites. */
  function LastHit(cs: seq<Choice>, pt: Point): (r: Option<nat>)
    ensures r.Some? ==> r.value < |cs| && Contains(cs[r.value].area, pt)
    ensures r.Some? ==> forall j :: r.value < j < |cs| ==> !Contains(cs[j].area, pt)
    ensures r.None? ==> forall j :: 0 <= j < |cs| ==> !Contains(cs[j].area, pt)
    decreases |cs|
  {
    if |cs| == 0 then None
    else if Contains(cs[|cs| - 1].area, pt) then Some(|cs| - 1)
    else LastHit(cs[..|cs| - 1], pt)
  }

  /** The first control from position `i` on whose area holds the point. */
  function FirstHit(s: seq<Control>, pt: Point, i: nat): (r: Option<nat>)
    requires i <= |s|
    ensures r.Some? ==> i <= r.value < |s| && Contains(s[r.value].area, pt)
    ensures r.Some? ==> forall j :: i <= j < r.value ==> !Contains(s[j].area, pt)
    ensures r.None? ==> forall j :: i <= j < |s| ==> !Contains(s[j].area, pt)
    decreases |s| - i
  {
    if i == |s| then None
    else if Contains(s[i].area, pt) then Some(i)
    else FirstHit(s, pt, i + 1)
  }

  /** Every control that an update changed in any way is marked dirty, so the next frame redraws it. */
  predicate DirtyWhereChanged(before: seq<Control>, after: seq<Control>)
  {
    |after| == |before| && forall j :: 0 <= j < |before| && after[j] != before[j] ==> after[j].dirty
  }

  /** `q` differs from `p` at most in the value of control `i` and in the callback log. */
  predicate EditsOnly(p: Panel, q: Panel, i: nat)
    requires i < |p.items|
  {
    && |q.items| == |p.items|
    && q.activeControl == p.activeControl && q.enabled == p.enabled && q.mousePos == p.mousePos
    && (forall j :: 0 <= j < |p.items| && j != i ==> q.items[j] == p.items[j])
    && q.items[i] == p.items[i].(value := q.items[i].value)
  }

  /** A click that commits value `v` to control `i`: `Change` with only the value replaced. */
  function Assign(q: Panel, i: nat, v: Value): (r: Panel)
    requires Wf(q) && NoFocus(q.items) && i < |q.items|
    requires Bound(q.items[i].kind) ==> Fits(q.items[i].kind, v)
    ensures Wf(r) && NoFocus(r.items) && EditsOnly(q, r, i)
    ensures r.items[i].value == v
    ensures r.events == q.events + (if q.items[i].hasOnChange then [Changed(i, v)] else [])
  {
    Change(q, i, q.items[i].(value := v))
  }

  /** A hit control becomes the active control, with `active` and `dirty` set. */
  function Mark(p: Panel, i: nat): (q: Panel)
    requires Wf(p) && NoFocus(p.items) && i < |p.items|
    ensures Wf(q) && NoFocus(q.items) && |q.items| == |p.items|
    ensures q.activeControl == Some(i) && q.enabled == p.enabled && q.mousePos == p.mousePos && q.events == p.events
    ensures q.items[i] == p.items[i].(active := true, dirty := true)
    ensures forall j :: 0 <= j < |p.items| && j != i ==> q.items[j] == p.items[j]
  {
    p.(activeControl := Some(i), items := p.items[i := p.items[i].(active := true, dirty := true)])
  }

  /**
   * A radio list commits the value of the row under the pointer. A row index
   * below 0 or at least the row count passes the event on; a NaN row (a
   * zero-height list) reaches `items[NaN].value`, which throws.
   */
  function CommitRow(q: Panel, i: nat): (r: (Panel, HitResult))
    requires Wf(q) && NoFocus(q.items) && i < |q.items| && q.items[i].kind == RadioList
    ensures Wf(r.0) && NoFocus(r.0.items) && EditsOnly(q, r.0, i)
    ensures r.1 != Stopped ==> r.0 == q
    ensures var c := q.items[i];
            var row := RadioRow(|c.choices|, c.area, q.mousePos);
            && (r.1 == Stopped <==> IsIndex(row, |c.choices|))
            && (r.1 == Crashed <==> row.NaN?)
            && (r.1 == Stopped ==> r.0 == Assign(q, i, c.choices[row.r.Floor].value))
  {
    var c := q.items[i];
    var n := |c.choices|;
    var hitY := q.mousePos.y - c.area.top;
    var row := RadioRow(n, c.area, q.mousePos);
    FlooredIndexCases(Div(n as real * hitY, c.area.bottom - c.area.top), n);
    if Below(row, Finite(0.0)) then (q, Passed)
    else if AtLeast(row, Finite(n as real)) then (q, Passed)
    else if row.NaN? then (q, Crashed)
    else (Assign(q, i, c.choices[row.r.Floor].value), Stopped)
  }

  /** A texture list commits the value of the entry under the pointer, or passes the event on when there is none. */
  function CommitTile(q: Panel, i: nat): (r: (Panel, HitResult))
    requires Wf(q) && NoFocus(q.items) && i < |q.items| && q.items[i].kind == TextureList
    ensures Wf(r.0) && NoFocus(r.0.items) && EditsOnly(q, r.0, i)
    ensures r.1 != Crashed
    ensures r.1 == Passed ==> r.0 == q
    ensures var hit := LastHit(q.items[i].choices, q.mousePos);
            && (r.1 == Stopped <==> hit.Some?)
            && (hit.Some? ==> r.0 == Assign(q, i, q.items[i].choices[hit.value].value))
  {
    var c := q.items[i];
    match LastHit(c.choices, q.mousePos)
    case None => (q, Passed)
    case Some(j) => (Assign(q, i, c.choices[j].value), Stopped)
  }

  /**
   * A colour control with a palette samples the image when the pointer is in
   * the palette strip, writes the colour into the first three entries and
   * passes the event on; anywhere else it breaks out and the drag rules apply.
   */
  function CommitPalette(q: Panel, env: Env, ex: real, ey: real, i: nat): (r: (Panel, HitResult))
    requires Wf(q) && NoFocus(q.items) && env.pixelRatio != 0.0 && i < |q.items| && q.items[i].kind == Color
    ensures Wf(r.0) && NoFocus(r.0.items) && EditsOnly(q, r.0, i)
    ensures r.1 != Crashed
    ensures r.1 == Stopped ==> r.0 == q
    ensures var c := q.items[i];
            && (r.1 == Passed <==> c.options.palette.Some? && InPalette(env, c.area, c.options.palette.value, ey))
            && (r.1 == Passed ==>
                  r.0 == Assign(q, i, Arr(WithRgb(c.value.elems, PalettePick(env, c.area, c.options.palette.value, ex, ey)))))
  {
    var c := q.items[i];
    match c.options.palette
    case Some(img) =>
      if InPalette(env, c.area, img, ey) then
        (Assign(q, i, Arr(WithRgb(c.value.elems, PalettePick(env, c.area, img, ex, ey)))), Passed)
      else (q, Stopped)
    case None => (q, Stopped)
  }

  /** The per-kind commit of a marked control `i`. */
  function Commit(q: Panel, env: Env, ex: real, ey: real, i: nat): (r: (Panel, HitResult))
    requires Wf(q) && NoFocus(q.items) && env.pixelRatio != 0.0 && i < |q.items|
    ensures Wf(r.0)
    ensures q.items[i].kind != Text ==> EditsOnly(q, r.0, i) && NoFocus(r.0.items)
    ensures q.items[i].kind == Text ==> r == (q.(items := q.items[i := q.items[i].(focus := true)]), Stopped)
    ensures r.1 == Passed ==> q.items[i].kind in {RadioList, TextureList, Color}
    ensures r.1 == Crashed ==> q.items[i].kind == RadioList
  {
    var c := q.items[i];
    match c.kind
    case Button => (if c.hasOnClick then q.(events := q.events + [Clicked(i)]) else q, Stopped)
    case Toggle => (Assign(q, i, Bool(!Truthy(c.value))), Stopped)
    case RadioList => CommitRow(q, i)
    case TextureList => CommitTile(q, i)
    case Color => CommitPalette(q, env, ex, ey, i)
    case Text => (q.(items := q.items[i := c.(focus := true)]), Stopped)
    case _ => (q, Stopped)
  }

  /** What a pointer-down does to control `i` once the hit test has found it. */
  function Hit(p: Panel, env: Env, ex: real, ey: real, i: nat): (r: (Panel, HitResult))
    requires Wf(p) && NoFocus(p.items) && env.pixelRatio != 0.0 && i < |p.items|
    ensures Wf(r.0) && |r.0.items| == |p.items|
    ensures r.0.activeControl == Some(i) && r.0.enabled == p.enabled && r.0.mousePos == p.mousePos
    ensures r.0.items[i] == p.items[i].(value := r.0.items[i].value, active := true, dirty := true,
                                        focus := p.items[i].kind == Text)
    ensures forall j :: 0 <= j < |p.items| && j != i ==> r.0.items[j] == p.items[j]
    ensures r.1 != Stopped ==> NoFocus(r.0.items)
    ensures r.1 == Passed ==> p.items[i].kind in {RadioList, TextureList, Color}
    ensures r.1 == Crashed ==> p.items[i].kind == RadioList
  {
    Commit(Mark(p, i), env, ex, ey, i)
  }

  /**
   * `setNormalizedValue(t, idx)` at the sub-slider a drag steers: the index
   * remembered in `clickedSlider` once locked, otherwise `raw`, which is then
   * remembered.
   */
  function SlideAt(c: Control, t: Unit, raw: Number): (d: Control)
    requires c.value.Arr?
    ensures d.clickedSlider == Some(if Locked(c) then c.clickedSlider.value else raw)
    ensures d.value == Arr(SetAt(c.value.elems, d.clickedSlider.value, Lerp(c.options, t)))
    ensures d == c.(value := d.value, clickedSlider := d.clickedSlider, dirty := true)
  {
    var idx := if Locked(c) then c.clickedSlider.value else raw;
    c.(value := Arr(SetAt(c.value.elems, idx, Lerp(c.options, t))), clickedSlider := Some(idx), dirty := true)
  }

  /**
   * The control a drag leaves behind: a slider takes the value at the
   * clamped fraction; a colour control picks from its palette; a multi-slider
   * or colour control otherwise steers a sub-slider. Other kinds are unchanged.
   */
  function Steered(env: Env, c: Control, ex: real, ey: real): (d: Control)
    requires env.pixelRatio != 0.0 && WellTyped(c)
    ensures WellTyped(d)
    ensures d == c.(value := d.value, dirty := d.dirty, clickedSlider := d.clickedSlider)
    ensures c.kind in {Slider, MultiSlider, Color} ==> d.dirty
    ensures c.kind !in {Slider, MultiSlider, Color} ==> d == c
  {
    var t := Fraction(env, c.area, ex);
    match c.kind
    case Slider => c.(value := Num(Lerp(c.options, t)), dirty := true)
    case MultiSlider => SlideAt(c, t, SubSliderAt(env, c, ey))
    case Color =>
      if PalettePickAt(env, c, ey) then
        c.(value := Arr(WithRgb(c.value.elems, PalettePick(env, c.area, c.options.palette.value, ex, ey))), dirty := true)
      else SlideAt(c, t, SubSliderAt(env, c, ey))
    case _ => c
  }

  /** Pointer-drag: applies the continuous value rules to the active control. The boolean says whether propagation stopped. */
  function Drag(p: Panel, env: Env, ex: real, ey: real): (r: (Panel, bool))
    requires Wf(p) && env.pixelRatio != 0.0
    ensures Wf(r.0) && |r.0.items| == |p.items|
    ensures r.0.activeControl == p.activeControl && r.0.enabled == p.enabled && r.0.mousePos == p.mousePos
    ensures r.1 <==> p.enabled && p.activeControl.Some?
    ensures !p.enabled || p.activeControl.None? ==> r == (p, false)
    ensures forall j :: 0 <= j < |p.items| && Some(j) != p.activeControl ==> r.0.items[j] == p.items[j]
    ensures p.activeControl.Some? ==>
              var k := p.activeControl.value;
              r.0.items[k] == p.items[k].(value := r.0.items[k].value, dirty := r.0.items[k].dirty,
                                          clickedSlider := r.0.items[k].clickedSlider)
    ensures DirtyWhereChanged(p.items, r.0.items)
    ensures p.activeControl.Some? && p.items[p.activeControl.value].kind !in {Slider, MultiSlider, Color} ==>
              r == (p, p.enabled)
    ensures p.enabled && p.activeControl.Some? && p.items[p.activeControl.value].kind in {Slider, MultiSlider, Color} ==>
              var k := p.activeControl.value;
              && r.0.items[k].dirty
              && r.0.events == p.events + (if p.items[k].hasOnChange then [Changed(k, r.0.items[k].value)] else [])
  {
    if !p.enabled || p.activeControl.None? then (p, false)
    else
      var k := p.activeControl.value;
      var c := p.items[k];
      if c.kind in {Slider, MultiSlider, Color} then (Change(p, k, Steered(env, c, ex, ey)), true)
      else (p, true)
  }

  /** The scan of a pointer-down from control `i` on, in insertion order. */
  function DownScan(p: Panel, env: Env, ex: real, ey: real, i: nat): (r: (Panel, Outcome))
    requires Wf(p) && NoFocus(p.items) && env.pixelRatio != 0.0 && i <= |p.items|
    ensures Wf(r.0) && |r.0.items| == |p.items| && r.0.enabled == p.enabled && r.0.mousePos == p.mousePos
    ensures forall j :: 0 <= j < i ==> r.0.items[j] == p.items[j]
    ensures forall j :: i <= j < |p.items| && !Contains(p.items[j].area, p.mousePos) ==> r.0.items[j] == p.items[j]
    decreases |p.items| - i
  {
    if i == |p.items| then (p, Done(false))
    else if !Contains(p.items[i].area, p.mousePos) then DownScan(p, env, ex, ey, i + 1)
    else
      var (q, h) := Hit(p, env, ex, ey, i);
      match h
      case Passed => DownScan(q, env, ex, ey, i + 1)
      case Crashed => (q, Threw)
      case Stopped => (Drag(q, env, ex, ey).0, Done(true))
  }

  /** Pointer-down: a no-op when disabled; otherwise focus is cleared and the controls are scanned for the pointer. */
  function MouseDown(p: Panel, env: Env, ex: real, ey: real): (r: (Panel, Outcome))
    requires Wf(p) && env.pixelRatio != 0.0
    ensures Wf(r.0) && |r.0.items| == |p.items| && r.0.enabled == p.enabled
    ensures !p.enabled ==> r == (p, Done(false))
  {
    if !p.enabled then (p, Done(false))
    else DownScan(Pressed(p, env, ex, ey), env, ex, ey, 0)
  }

  /** Pointer-up: the active control goes idle and is released. */
  function MouseUp(p: Panel): (r: Panel)
    requires Wf(p)
    ensures Wf(r) && |r.items| == |p.items|
    ensures !p.enabled || p.activeControl.None? ==> r == p
    ensures p.enabled ==> r.activeControl.None?
    ensures p.enabled && p.activeControl.Some? ==>
              var k := p.activeControl.value;
              && r.items[k] == p.items[k].(active := false, dirty := true, clickedSlider := None)
              && (forall j :: 0 <= j < |p.items| && j != k ==> r.items[j] == p.items[j])
              && r.enabled == p.enabled && r.mousePos == p.mousePos && r.events == p.events
  {
    if !p.enabled || p.activeControl.None? then p
    else
      var k := p.activeControl.value;
      p.(items := p.items[k := p.items[k].(active := false, dirty := true, clickedSlider := None)],
         activeControl := None)
  }

  /** `items.filter(item => item.type == 'text' && item.focus)[0]`, from position `i` on. */
  function FocusedFrom(s: seq<Control>, i: nat): (r: Option<nat>)
    requires i <= |s|
    ensures r.Some? ==> i <= r.value < |s| && s[r.value].kind == Text && s[r.value].focus
    ensures r.Some? ==> forall j :: i <= j < r.value ==> !(s[j].kind == Text && s[j].focus)
    ensures r.None? ==> forall j :: i <= j < |s| ==> !(s[j].kind == Text && s[j].focus)
    decreases |s| - i
  {
    if i == |s| then None
    else if s[i].kind == Text && s[i].focus then Some(i)
    else FocusedFrom(s, i + 1)
  }

  function Focused(s: seq<Control>): Option<nat>
  {
    FocusedFrom(s, 0)
  }

  /** Key-down: backspace drops the last character of the focused field. Not gated by the enabled flag. */
  function KeyDown(p: Panel, key: KeyCode): (r: (Panel, bool))
    requires Wf(p)
    ensures Wf(r.0) && |r.0.items| == |p.items|
  {
    match Focused(p.items)
    case None => (p, false)
    case Some(k) =>
      if key == Backspace then
        var s := p.items[k].value.s;
        (Change(p, k, p.items[k].(value := Str(s[..if |s| == 0 then 0 else |s| - 1]), dirty := true)), true)
      else (p, false)
  }

  /** `c >= 32 && c <= 126` for `c = str.charCodeAt(0)`, which is NaN for an empty string. */
  predicate Printable(str: string)
  {
    |str| > 0 && 32 <= str[0] as int <= 126
  }

  /** Key-press: a printable event appends its whole text to the focused field. Not gated by the enabled flag. */
  function KeyPress(p: Panel, str: string): (r: (Panel, bool))
    requires Wf(p)
    ensures Wf(r.0) && |r.0.items| == |p.items|
  {
    match Focused(p.items)
    case None => (p, false)
    case Some(k) =>
      if Printable(str) then
        (Change(p, k, p.items[k].(value := Str(p.items[k].value.s + str), dirty := true)), true)
      else (p, false)
  }
}
