/**
 * The panel object: its list of controls, the active control, the enabled
 * flag and the pointer position, updated in place by the factories, the
 * event handlers, the render gate and the restore. The handlers, the render
 * gate and the restore are proved to agree with the step functions that
 * specify them; the factories and the enabled-flag methods state their new
 * state outright.
 */
module GuiPanel {
  import opened Wrappers
  import opened JsNumber
  import opened Widgets
  import opened Input
  import Scheduler
  import Serialization
  import InputLaws

  class Gui {
    var items: seq<Control>
    var activeControl: Option<nat>
    var enabled: bool
    var mousePos: Point
    /** The `onchange` and `onclick` calls made so far, in order. */
    var events: seq<Event>
    /** The panel's offset on screen; the caller may move it at any time. */
    var x: real
    var y: real
    const pixelRatio: real
    /** The renderer's `getImageColor`. */
    const sample: Sampler

    /** The state the handlers work on. */
    function State(): Panel
      reads this
    {
      Panel(items, activeControl, enabled, mousePos, events)
    }

    /** What the handlers read and never write. */
    function Frame(): Env
      reads this
    {
      Env(pixelRatio, x, y, sample)
    }

    /** What the pointer-down steps need: a usable pixel ratio and a well-formed state. */
    ghost predicate Ready()
      reads this
    {
      pixelRatio != 0.0 && Wf(State())
    }

    /** The panel invariant: `Ready`, and at most one control has focus. */
    ghost predicate Valid()
      reads this
    {
      Ready() && AtMostOneFocus(items)
    }

    /** A new panel: empty, enabled, at offset (0, 0); a missing (zero) pixel ratio counts as 1. */
    constructor (pixelRatio: real, sample: Sampler)
      ensures Valid()
      ensures this.pixelRatio == if pixelRatio == 0.0 then 1.0 else pixelRatio
      ensures this.sample == sample
      ensures State() == Panel([], None, true, Point(0.0, 0.0), [])
      ensures x == 0.0 && y == 0.0
    {
      this.pixelRatio := if pixelRatio == 0.0 then 1.0 else pixelRatio;
      this.sample := sample;
      items := [];
      activeControl := None;
      enabled := true;
      mousePos := Point(0.0, 0.0);
      events := [];
      x := 0.0;
      y := 0.0;
    }

    /** `items.push(ctrl)`; the index of the new control stands for the returned control object. */
    method Append(c: Control) returns (index: nat)
      requires Valid() && WellTyped(c) && !c.focus
      modifies this`items
      ensures Valid()
      ensures items == old(items) + [c] && index == |old(items)|
    {
      items := items + [c];
      index := |items| - 1;
    }

    method AddHeader(title: string) returns (index: nat)
      requires Valid()
      modifies this`items
      ensures Valid()
      ensures items == old(items) + [NewControl(Header, Some(title), Undefined, NO_OPTIONS, [], false, false)]
      ensures index == |old(items)|
    {
      index := Append(NewControl(Header, Some(title), Undefined, NO_OPTIONS, [], false, false));
    }

    /** A separator drops the title it is given. */
    method AddSeparator(title: string) returns (index: nat)
      requires Valid()
      modifies this`items
      ensures Valid()
      ensures items == old(items) + [NewControl(Separator, None, Undefined, NO_OPTIONS, [], false, false)]
      ensures index == |old(items)|
    {
      index := Append(NewControl(Separator, None, Undefined, NO_OPTIONS, [], false, false));
    }

    method AddLabel(title: string) returns (index: nat)
      requires Valid()
      modifies this`items
      ensures Valid()
      ensures items == old(items) + [NewControl(Label, Some(title), Undefined, NO_OPTIONS, [], false, false)]
      ensures index == |old(items)|
    {
      index := Append(NewControl(Label, Some(title), Undefined, NO_OPTIONS, [], false, false));
    }

    /**
     * `addParam`: binds a field holding `value`, with the kind `ParamKind`
     * chooses and `min`/`max` defaulted; a value of no supported shape adds
     * nothing and returns nothing.
     */
    method AddParam(title: string, value: Value, options: ParamOptions, hasOnChange: bool) returns (index: Option<nat>)
      requires Valid()
      modifies this`items
      ensures Valid()
      ensures ParamKind(value, options.isColor).None? ==> index.None? && items == old(items)
      ensures ParamKind(value, options.isColor).Some? ==>
                && index == Some(|old(items)|)
                && items == old(items) + [NewControl(ParamKind(value, options.isColor).value, Some(title), value,
                                                     Resolve(options), [], hasOnChange, false)]
    {
      var kind := ParamKind(value, options.isColor);
      if kind.None? {
        return None;
      }
      var i := Append(NewControl(kind.value, Some(title), value, Resolve(options), [], hasOnChange, false));
      index := Some(i);
    }

    method AddButton(title: string, hasOnClick: bool) returns (index: nat)
      requires Valid()
      modifies this`items
      ensures Valid()
      ensures items == old(items) + [NewControl(Button, Some(title), Undefined, NO_OPTIONS, [], false, hasOnClick)]
      ensures index == |old(items)|
    {
      index := Append(NewControl(Button, Some(title), Undefined, NO_OPTIONS, [], false, hasOnClick));
    }

    method AddRadioList(title: string, value: Value, entries: seq<Choice>, hasOnChange: bool) returns (index: nat)
      requires Valid()
      modifies this`items
      ensures Valid()
      ensures items == old(items) + [NewControl(RadioList, Some(title), value, NO_OPTIONS, entries, hasOnChange, false)]
      ensures index == |old(items)|
    {
      index := Append(NewControl(RadioList, Some(title), value, NO_OPTIONS, entries, hasOnChange, false));
    }

    method AddTexture2DList(title: string, value: Value, entries: seq<Choice>, hasOnChange: bool) returns (index: nat)
      requires Valid()
      modifies this`items
      ensures Valid()
      ensures items == old(items) + [NewControl(TextureList, Some(title), value, NO_OPTIONS, entries, hasOnChange, false)]
      ensures index == |old(items)|
    {
      index := Append(NewControl(TextureList, Some(title), value, NO_OPTIONS, entries, hasOnChange, false));
    }

    method AddTexture2D(title: string) returns (index: nat)
      requires Valid()
      modifies this`items
      ensures Valid()
      ensures items == old(items) + [NewControl(Texture2D, Some(title), Undefined, NO_OPTIONS, [], false, false)]
      ensures index == |old(items)|
    {
      index := Append(NewControl(Texture2D, Some(title), Undefined, NO_OPTIONS, [], false, false));
    }

    method AddTextureCube(title: string) returns (index: nat)
      requires Valid()
      modifies this`items
      ensures Valid()
      ensures items == old(items) + [NewControl(TextureCube, Some(title), Undefined, NO_OPTIONS, [], false, false)]
      ensures index == |old(items)|
    {
      index := Append(NewControl(TextureCube, Some(title), Undefined, NO_OPTIONS, [], false, false));
    }

    /** Writes control `k` back after an edit and calls its `onchange` with the new value. */
    method Store(k: nat, c: Control)
      requires k < |items|
      modifies this`items, this`events
      ensures State() == Change(old(State()), k, c)
    {
      items := items[k := c];
      if c.hasOnChange {
        events := events + [Changed(k, c.value)];
      }
    }

    /** The radio-list branch of a pointer-down. */
    method CommitRowAt(i: nat) returns (h: HitResult)
      requires Ready() && NoFocus(items) && i < |items| && items[i].kind == RadioList
      modifies this`items, this`events
      ensures (State(), h) == CommitRow(old(State()), i)
    {
      var c := items[i];
      var n := |c.choices|;
      var hitY := mousePos.y - c.area.top;
      var row := RadioRow(n, c.area, mousePos);
      if Below(row, Finite(0.0)) {
        return Passed;
      }
      if AtLeast(row, Finite(n as real)) {
        return Passed;
      }
      if row.NaN? {
        return Crashed;
      }
      FlooredIndexCases(Div(n as real * hitY, c.area.bottom - c.area.top), n);
      Store(i, c.(value := c.choices[row.r.Floor].value));
      h := Stopped;
    }

    /** The texture-list branch of a pointer-down: the last entry under the pointer wins. */
    method CommitTileAt(i: nat) returns (h: HitResult)
      requires Ready() && NoFocus(items) && i < |items| && items[i].kind == TextureList
      modifies this`items, this`events
      ensures (State(), h) == CommitTile(old(State()), i)
    {
      var c := items[i];
      var clicked: Option<nat> := None;
      for j := 0 to |c.choices|
        invariant clicked == LastHit(c.choices[..j], mousePos)
      {
        assert c.choices[..j + 1][..j] == c.choices[..j];
        if Contains(c.choices[j].area, mousePos) {
          clicked := Some(j);
        }
      }
      assert c.choices[..|c.choices|] == c.choices;
      match clicked
      case None =>
        h := Passed;
      case Some(j) =>
        Store(i, c.(value := c.choices[j].value));
        h := Stopped;
    }

    /** The colour branch of a pointer-down: a press in the palette strip picks a colour and passes the event on. */
    method CommitPaletteAt(i: nat, ex: real, ey: real) returns (h: HitResult)
      requires Ready() && NoFocus(items) && i < |items| && items[i].kind == Color
      modifies this`items, this`events
      ensures (State(), h) == CommitPalette(old(State()), Frame(), ex, ey, i)
    {
      var c := items[i];
      assert WellTyped(c);
      h := Stopped;
      if c.options.palette.Some? {
        var img := c.options.palette.value;
        if InPalette(Frame(), c.area, img, ey) {
          var color := PalettePick(Frame(), c.area, img, ex, ey);
          Store(i, c.(value := Arr(WithRgb(c.value.elems, color))));
          h := Passed;
        }
      }
    }

    /** Control `i` is under the pointer: it becomes the active control and its kind's commit runs. */
    method CommitHit(i: nat, ex: real, ey: real) returns (h: HitResult)
      requires Ready() && NoFocus(items) && i < |items|
      modifies this`items, this`activeControl, this`events
      ensures (State(), h) == Hit(old(State()), Frame(), ex, ey, i)
    {
      activeControl := Some(i);
      items := items[i := items[i].(active := true, dirty := true)];
      assert State() == Mark(old(State()), i);
      var c := items[i];
      match c.kind
      case Button =>
        if c.hasOnClick {
          events := events + [Clicked(i)];
        }
        h := Stopped;
      case Toggle =>
        Store(i, c.(value := Bool(!Truthy(c.value))));
        h := Stopped;
      case RadioList =>
        h := CommitRowAt(i);
      case TextureList =>
        h := CommitTileAt(i);
      case Color =>
        h := CommitPaletteAt(i, ex, ey);
      case Text =>
        items := items[i := c.(focus := true)];
        h := Stopped;
      case _ =>
        h := Stopped;
    }

    /** The first loop of `onMouseDown`: every focused text field loses focus and becomes dirty. */
    method ClearTextFocus()
      requires Ready()
      modifies this`items
      ensures items == ClearFocus(old(items))
    {
      var i := 0;
      while i < |items|
        invariant i <= |items| == |old(items)|
        invariant forall j :: 0 <= j < i ==> items[j] == Unfocus(old(items)[j])
        invariant forall j :: i <= j < |items| ==> items[j] == old(items)[j]
      {
        if items[i].kind == Text && items[i].focus {
          items := items[i := items[i].(focus := false, dirty := true)];
        }
        i := i + 1;
      }
    }

    /** The scan loop of `onMouseDown`, with its `continue` and `break` exits. */
    method ScanControls(ex: real, ey: real) returns (outcome: Outcome)
      requires Ready() && NoFocus(items)
      modifies this`items, this`activeControl, this`events
      ensures (State(), outcome) == DownScan(old(State()), Frame(), ex, ey, 0)
    {
      ghost var goal := DownScan(State(), Frame(), ex, ey, 0);
      var i := 0;
      while i < |items|
        invariant Ready() && NoFocus(items) && i <= |items|
        invariant DownScan(State(), Frame(), ex, ey, i) == goal
        decreases |items| - i
      {
        if Contains(items[i].area, mousePos) {
          ghost var before := State();
          var h := CommitHit(i, ex, ey);
          if h == Crashed {
            assert DownScan(before, Frame(), ex, ey, i) == (State(), Threw);
            return Threw;
          }
          if h == Stopped {
            assert DownScan(before, Frame(), ex, ey, i) == (Drag(State(), Frame(), ex, ey).0, Done(true));
            assert forall j :: 0 <= j < |items| && items[j].focus ==> j == i;
            var stopped := OnMouseDrag(ex, ey);
            return Done(true);
          }
        }
        i := i + 1;
      }
      return Done(false);
    }

    /** `onMouseDown`: clears every text focus, then scans the controls in order for the first one under the pointer. */
    method OnMouseDown(ex: real, ey: real) returns (outcome: Outcome)
      requires Valid()
      modifies this`items, this`activeControl, this`mousePos, this`events
      ensures Valid()
      ensures (State(), outcome) == MouseDown(old(State()), Frame(), ex, ey)
    {
      if !enabled {
        return Done(false);
      }
      ClearTextFocus();
      activeControl := None;
      mousePos := Point(ex / pixelRatio - x, ey / pixelRatio - y);
      assert State() == Pressed(old(State()), Frame(), ex, ey);
      outcome := ScanControls(ex, ey);
      InputLaws.MouseDownOneFocus(old(State()), Frame(), ex, ey);
    }

    /** Sets the sub-slider the drag steers: the locked one, or the one under the pointer, which is then locked. */
    method SteerSubSlider(k: nat, t: Unit, ey: real)
      requires k < |items| && items[k].value.Arr? && pixelRatio != 0.0
      modifies this`items, this`events
      ensures State() == Change(old(State()), k, SlideAt(old(items[k]), t, SubSliderAt(Frame(), old(items[k]), ey)))
    {
      var c := items[k];
      var idx := SubSliderAt(Frame(), c, ey);
      if Locked(c) {
        idx := c.clickedSlider.value;
      } else {
        c := c.(clickedSlider := Some(idx));
      }
      c := c.(value := Arr(SetAt(c.value.elems, idx, Lerp(c.options, t))), dirty := true);
      Store(k, c);
    }

    /** `onMouseDrag`: the continuous value rules for the active control. */
    method OnMouseDrag(ex: real, ey: real) returns (stopped: bool)
      requires Valid()
      modifies this`items, this`events
      ensures Valid()
      ensures (State(), stopped) == Drag(old(State()), Frame(), ex, ey)
    {
      InputLaws.DragKeepsFocus(State(), Frame(), ex, ey);
      if !enabled || activeControl.None? {
        return false;
      }
      var k := activeControl.value;
      var c := items[k];
      assert WellTyped(c);
      var t := Fraction(Frame(), c.area, ex);
      stopped := true;
      match c.kind
      case Slider =>
        Store(k, c.(value := Num(Lerp(c.options, t)), dirty := true));
      case MultiSlider =>
        SteerSubSlider(k, t, ey);
      case Color =>
        if PalettePickAt(Frame(), c, ey) {
          var color := PalettePick(Frame(), c.area, c.options.palette.value, ex, ey);
          Store(k, c.(value := Arr(WithRgb(c.value.elems, color)), dirty := true));
        } else {
          SteerSubSlider(k, t, ey);
        }
      case _ =>
    }

    /** `onMouseUp`: releases the active control. */
    method OnMouseUp()
      requires Valid()
      modifies this`items, this`activeControl
      ensures Valid()
      ensures State() == MouseUp(old(State()))
    {
      InputLaws.MouseUpKeepsFocus(State());
      if !enabled || activeControl.None? {
        return;
      }
      var k := activeControl.value;
      items := items[k := items[k].(active := false, dirty := true, clickedSlider := None)];
      activeControl := None;
    }

    /** The first text field that has focus, if any. */
    method FindFocused() returns (k: Option<nat>)
      ensures k == Focused(items)
      ensures k.Some? ==> k.value < |items| && items[k.value].kind == Text && items[k.value].focus
      ensures k.None? ==> forall j :: 0 <= j < |items| ==> !(items[j].kind == Text && items[j].focus)
    {
      var i := 0;
      while i < |items| && !(items[i].kind == Text && items[i].focus)
        invariant i <= |items|
        invariant FocusedFrom(items, i) == Focused(items)
      {
        i := i + 1;
      }
      k := if i < |items| then Some(i) else None;
    }

    /** `onKeyDown`: backspace drops the last character of the focused field. */
    method OnKeyDown(key: KeyCode) returns (stopped: bool)
      requires Valid()
      modifies this`items, this`events
      ensures Valid()
      ensures (State(), stopped) == KeyDown(old(State()), key)
    {
      InputLaws.KeysKeepFocus(State(), key, "");
      var focused := FindFocused();
      if focused.None? {
        return false;
      }
      var k := focused.value;
      if key == Backspace {
        assert WellTyped(items[k]);
        var s := items[k].value.s;
        Store(k, items[k].(value := Str(s[..if |s| == 0 then 0 else |s| - 1]), dirty := true));
        return true;
      }
      return false;
    }

    /** `onKeyPress`: a printable key appends its text to the focused field. */
    method OnKeyPress(str: string) returns (stopped: bool)
      requires Valid()
      modifies this`items, this`events
      ensures Valid()
      ensures (State(), stopped) == KeyPress(old(State()), str)
    {
      InputLaws.KeysKeepFocus(State(), Backspace, str);
      var focused := FindFocused();
      if focused.None? {
        return false;
      }
      var k := focused.value;
      if |str| > 0 && 32 <= str[0] as int <= 126 {
        assert WellTyped(items[k]);
        Store(k, items[k].(value := Str(items[k].value.s + str), dirty := true));
        return true;
      }
      return false;
    }

    /** `isAnyItemDirty(items)`: clears every dirty flag and says whether any was set. */
    method IsAnyItemDirty() returns (dirty: bool)
      requires Valid()
      modifies this`items
      ensures Valid()
      ensures items == Scheduler.ClearDirty(old(items))
      ensures dirty == Scheduler.AnyDirty(old(items))
    {
      dirty := false;
      var i := 0;
      while i < |items|
        invariant i <= |items| == |old(items)|
        invariant forall j :: 0 <= j < i ==> items[j] == old(items)[j].(dirty := false)
        invariant forall j :: i <= j < |items| ==> items[j] == old(items)[j]
        invariant dirty <==> exists j :: 0 <= j < i && old(items)[j].dirty
      {
        if items[i].dirty {
          items := items[i := items[i].(dirty := false)];
          dirty := true;
        }
        i := i + 1;
      }
      assert forall j :: 0 <= j < |items| ==> items[j].focus == old(items)[j].focus;
      assert forall j :: 0 <= j < |items| ==> WellTyped(old(items)[j]);
    }

    /** The gate of `draw`: when enabled and not empty, the chrome is regenerated if some control was dirty. */
    method Draw() returns (regenerated: bool)
      requires Valid()
      modifies this`items
      ensures Valid()
      ensures (items, regenerated) == Scheduler.DrawStep(old(items), enabled)
    {
      if !enabled {
        return false;
      }
      if |items| == 0 {
        return false;
      }
      regenerated := IsAnyItemDirty();
    }

    /** `serialize`: each control's serialised value under its title. */
    method Serialize() returns (data: map<string, Value>)
      ensures data == Serialization.SerializeItems(items)
      ensures data.Keys == set i | 0 <= i < |items| :: Serialization.TitleKey(items[i])
    {
      data := map[];
      for i := 0 to |items|
        invariant data == Serialization.SerializeItems(items[..i])
      {
        assert items[..i + 1][..i] == items[..i];
        data := data[Serialization.TitleKey(items[i]) := Serialized(items[i])];
      }
      assert items[..|items|] == items;
    }

    /** `deserialize`: every control whose title has a value in `data` takes it and becomes dirty. */
    method Deserialize(data: map<string, Value>)
      requires Valid()
      modifies this`items
      ensures Valid()
      ensures items == Serialization.DeserializeItems(old(items), data)
    {
      for i := 0 to |items|
        invariant |items| == |old(items)|
        invariant forall j :: 0 <= j < i ==> items[j] == Serialization.Restore(old(items)[j], data)
        invariant forall j :: i <= j < |items| ==> items[j] == old(items)[j]
      {
        var key := Serialization.TitleKey(items[i]);
        if key in data && data[key] != Undefined {
          items := items[i := SetSerialized(items[i], data[key]).(dirty := true)];
        }
      }
      assert forall j :: 0 <= j < |items| ==> items[j].focus == old(items)[j].focus;
      assert forall j :: 0 <= j < |items| ==> WellTyped(old(items)[j]) && WellTyped(items[j]);
    }

    method SetEnabled(state: bool)
      requires Valid()
      modifies this`enabled
      ensures Valid() && enabled == state
    {
      enabled := state;
    }

    /** Whether the panel reacts to the pointer and redraws. */
    method IsEnabled() returns (state: bool)
      ensures state == enabled
    {
      state := enabled;
    }

    /** Flips the enabled flag and returns the new value. */
    method ToggleEnabled() returns (state: bool)
      requires Valid()
      modifies this`enabled
      ensures Valid() && enabled == !old(enabled) && state == enabled
    {
      enabled := !enabled;
      state := enabled;
    }
  }
}
