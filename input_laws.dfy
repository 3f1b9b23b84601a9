/**
 * What the input handlers promise, proved on the step functions of the
 * input state machine.
 */
module InputLaws {
  import opened Wrappers
  import opened JsNumber
  import opened Widgets
  import opened Input

  lemma DirtyWhereChangedTrans(a: seq<Control>, b: seq<Control>, c: seq<Control>)
    requires DirtyWhereChanged(a, b) && DirtyWhereChanged(b, c)
    ensures DirtyWhereChanged(a, c)
  {
  }

  /** Controls that agree on their areas are hit in the same order. */
  lemma {:induction false} FirstHitSameAreas(s: seq<Control>, t: seq<Control>, pt: Point, i: nat)
    requires |s| == |t| && i <= |s|
    requires forall j :: 0 <= j < |s| ==> s[j].area == t[j].area
    ensures FirstHit(s, pt, i) == FirstHit(t, pt, i)
    decreases |s| - i
  {
    if i < |s| {
      FirstHitSameAreas(s, t, pt, i + 1);
    }
  }

  /** Controls the pointer misses are skipped: the scan goes on from the first control it hits. */
  lemma {:induction false} DownScanSkips(p: Panel, env: Env, ex: real, ey: real, i: nat)
    requires Wf(p) && NoFocus(p.items) && env.pixelRatio != 0.0 && i <= |p.items|
    ensures FirstHit(p.items, p.mousePos, i).None? ==> DownScan(p, env, ex, ey, i) == (p, Done(false))
    ensures FirstHit(p.items, p.mousePos, i).Some? ==>
              DownScan(p, env, ex, ey, i) == DownScan(p, env, ex, ey, FirstHit(p.items, p.mousePos, i).value)
    decreases |p.items| - i
  {
    if i < |p.items| && !Contains(p.items[i].area, p.mousePos) {
      DownScanSkips(p, env, ex, ey, i + 1);
    }
  }

  /** A scan marks dirty every control it changes. */
  lemma {:induction false} DownScanDirty(p: Panel, env: Env, ex: real, ey: real, i: nat)
    requires Wf(p) && NoFocus(p.items) && env.pixelRatio != 0.0 && i <= |p.items|
    ensures DirtyWhereChanged(p.items, DownScan(p, env, ex, ey, i).0.items)
    decreases |p.items| - i, 1
  {
    if i < |p.items| {
      if !Contains(p.items[i].area, p.mousePos) {
        DownScanDirty(p, env, ex, ey, i + 1);
      } else {
        var (q, h) := Hit(p, env, ex, ey, i);
        assert DirtyWhereChanged(p.items, q.items);
        match h
        case Passed =>
          HitPasses(p, env, ex, ey, i, q);
          DirtyAfterPass(p, env, ex, ey, i, q);
        case Crashed =>
          HitCrashes(p, env, ex, ey, i, q);
        case Stopped =>
          DirtyWhereChangedTrans(p.items, q.items, Drag(q, env, ex, ey).0.items);
          HitStops(p, env, ex, ey, i, q);
      }
    }
  }

  /** The step of `DownScanDirty` for a hit at `i` that passes the event on to the scan from `q`. */
  lemma {:induction false} DirtyAfterPass(p: Panel, env: Env, ex: real, ey: real, i: nat, q: Panel)
    requires Wf(q) && NoFocus(q.items) && env.pixelRatio != 0.0 && i < |q.items|
    requires DirtyWhereChanged(p.items, q.items)
    ensures DirtyWhereChanged(p.items, DownScan(q, env, ex, ey, i + 1).0.items)
    decreases |q.items| - i, 0
  {
    var r := DownScan(q, env, ex, ey, i + 1).0.items;
    DownScanDirty(q, env, ex, ey, i + 1);
    DirtyWhereChangedTrans(p.items, q.items, r);
  }

  /** A commit only appends to the callback log. */
  lemma HitExtendsLog(p: Panel, env: Env, ex: real, ey: real, i: nat)
    requires Wf(p) && NoFocus(p.items) && env.pixelRatio != 0.0 && i < |p.items|
    ensures p.events <= Hit(p, env, ex, ey, i).0.events
  {
    var m := Mark(p, i);
    match p.items[i].kind
    case RadioList => assert Hit(p, env, ex, ey, i) == CommitRow(m, i);
    case TextureList => assert Hit(p, env, ex, ey, i) == CommitTile(m, i);
    case Color => assert Hit(p, env, ex, ey, i) == CommitPalette(m, env, ex, ey, i);
    case _ =>
  }

  /** A scan only appends to the callback log: calls made earlier in the scan stay in it, in order. */
  lemma {:induction false} DownScanExtendsLog(p: Panel, env: Env, ex: real, ey: real, i: nat)
    requires Wf(p) && NoFocus(p.items) && env.pixelRatio != 0.0 && i <= |p.items|
    ensures p.events <= DownScan(p, env, ex, ey, i).0.events
    decreases |p.items| - i
  {
    if i < |p.items| {
      if !Contains(p.items[i].area, p.mousePos) {
        DownScanExtendsLog(p, env, ex, ey, i + 1);
      } else {
        var (q, h) := Hit(p, env, ex, ey, i);
        HitExtendsLog(p, env, ex, ey, i);
        match h
        case Passed =>
          DownScanExtendsLog(q, env, ex, ey, i + 1);
          HitPasses(p, env, ex, ey, i, q);
        case Crashed =>
          HitCrashes(p, env, ex, ey, i, q);
        case Stopped =>
          HitStops(p, env, ex, ey, i, q);
      }
    }
  }

  /** A pointer-down's outcome in which focus, if any, is on the active control, a text field, and the scan stopped there. */
  predicate FocusOnActiveText(r: (Panel, Outcome))
  {
    forall j :: 0 <= j < |r.0.items| && r.0.items[j].focus ==>
      r.0.activeControl == Some(j) && r.0.items[j].kind == Text && r.1 == Done(true)
  }

  /** After a scan from an unfocused state, only the active control can have focus, and it is a text field. */
  lemma {:induction false} DownScanFocus(p: Panel, env: Env, ex: real, ey: real, i: nat)
    requires Wf(p) && NoFocus(p.items) && env.pixelRatio != 0.0 && i <= |p.items|
    ensures FocusOnActiveText(DownScan(p, env, ex, ey, i))
    decreases |p.items| - i
  {
    if i < |p.items| {
      if !Contains(p.items[i].area, p.mousePos) {
        DownScanFocus(p, env, ex, ey, i + 1);
      } else {
        var (q, h) := Hit(p, env, ex, ey, i);
        match h
        case Passed =>
          DownScanFocus(q, env, ex, ey, i + 1);
          HitPasses(p, env, ex, ey, i, q);
        case Crashed =>
          HitCrashes(p, env, ex, ey, i, q);
        case Stopped =>
          HitStops(p, env, ex, ey, i, q);
          FocusAfterStop(q, env, ex, ey, i);
      }
    }
  }

  /** A drag from a hit that stopped the scan at `i` leaves focus, if any, on `i`, a text field. */
  lemma FocusAfterStop(q: Panel, env: Env, ex: real, ey: real, i: nat)
    requires Wf(q) && env.pixelRatio != 0.0 && i < |q.items| && q.activeControl == Some(i)
    requires forall j :: 0 <= j < |q.items| && j != i ==> !q.items[j].focus
    requires q.items[i].focus ==> q.items[i].kind == Text
    ensures FocusOnActiveText((Drag(q, env, ex, ey).0, Done(true)))
  {
  }

  /** The active control at the end of a scan is the one it started with or a control the pointer hit. */
  lemma {:induction false} DownScanActiveWasHit(p: Panel, env: Env, ex: real, ey: real, i: nat)
    requires Wf(p) && NoFocus(p.items) && env.pixelRatio != 0.0 && i <= |p.items|
    ensures var r := DownScan(p, env, ex, ey, i);
            r.0.activeControl.Some? ==>
              r.0.activeControl == p.activeControl ||
              (i <= r.0.activeControl.value < |p.items| && Contains(p.items[r.0.activeControl.value].area, p.mousePos))
    ensures p.activeControl.Some? ==> DownScan(p, env, ex, ey, i).0.activeControl.Some?
    ensures i < |p.items| && Contains(p.items[i].area, p.mousePos) ==>
              var r := DownScan(p, env, ex, ey, i);
              r.0.activeControl.Some? && i <= r.0.activeControl.value
    decreases |p.items| - i, 1
  {
    if i < |p.items| {
      if !Contains(p.items[i].area, p.mousePos) {
        DownScanActiveWasHit(p, env, ex, ey, i + 1);
      } else {
        var (q, h) := Hit(p, env, ex, ey, i);
        match h
        case Passed =>
          HitPasses(p, env, ex, ey, i, q);
          ActiveAfterPass(p, env, ex, ey, i, q);
        case Crashed =>
          HitCrashes(p, env, ex, ey, i, q);
        case Stopped =>
          HitStops(p, env, ex, ey, i, q);
      }
    }
  }

  /**
   * The step of `DownScanActiveWasHit` for a hit at `i` that passes the event
   * on: the scan from `q`, the state the hit left, ends with an active control
   * from `i` on that the pointer is over.
   */
  lemma {:induction false} ActiveAfterPass(p: Panel, env: Env, ex: real, ey: real, i: nat, q: Panel)
    requires Wf(p) && NoFocus(p.items) && env.pixelRatio != 0.0 && i < |p.items|
    requires Wf(q) && NoFocus(q.items) && |q.items| == |p.items| && q.mousePos == p.mousePos
    requires q.activeControl == Some(i) && Contains(p.items[i].area, p.mousePos)
    requires forall j :: 0 <= j < |p.items| && j != i ==> q.items[j] == p.items[j]
    ensures var r := DownScan(q, env, ex, ey, i + 1);
            && r.0.activeControl.Some? && i <= r.0.activeControl.value < |p.items|
            && Contains(p.items[r.0.activeControl.value].area, p.mousePos)
    decreases |p.items| - i, 0
  {
    DownScanActiveWasHit(q, env, ex, ey, i + 1);
    var r := DownScan(q, env, ex, ey, i + 1);
    if r.0.activeControl != q.activeControl {
      assert q.items[r.0.activeControl.value] == p.items[r.0.activeControl.value];
    }
  }

  /** The scan from a control the pointer hits, as `DownScanFirst` states it. */
  lemma HitMarks(p: Panel, env: Env, ex: real, ey: real, j: nat)
    requires Wf(p) && NoFocus(p.items) && env.pixelRatio != 0.0 && j < |p.items|
    requires Contains(p.items[j].area, p.mousePos)
    ensures var r := DownScan(p, env, ex, ey, j);
            && r.0.items[j].active && r.0.items[j].dirty && r.0.items[j].kind == p.items[j].kind
            && (p.items[j].kind !in {RadioList, TextureList, Color} ==>
                  && r.0.activeControl == Some(j) && r.1 == Done(true)
                  && r.0.items[j].focus == (p.items[j].kind == Text)
                  && forall k :: j < k < |p.items| ==> r.0.items[k] == p.items[k])
  {
    var (q, h) := Hit(p, env, ex, ey, j);
    match h
    case Passed =>
      assert DownScan(q, env, ex, ey, j + 1).0.items[j] == q.items[j];
    case Crashed =>
    case Stopped =>
      var d := Drag(q, env, ex, ey).0;
      assert DirtyWhereChanged(q.items, d.items);
  }

  /**
   * The first control the pointer hits becomes active and dirty. Unless it is
   * a radio list, texture list or colour control (which may pass the event on),
   * it stays the active control, the scan stops there, no later control is
   * touched and it has focus exactly when it is a text field.
   */
  lemma DownScanFirst(p: Panel, env: Env, ex: real, ey: real, i: nat)
    requires Wf(p) && NoFocus(p.items) && env.pixelRatio != 0.0 && i <= |p.items|
    ensures var r := DownScan(p, env, ex, ey, i);
            FirstHit(p.items, p.mousePos, i).Some? ==>
              var j := FirstHit(p.items, p.mousePos, i).value;
              && r.0.activeControl.Some? && j <= r.0.activeControl.value
              && r.0.items[j].active && r.0.items[j].dirty && r.0.items[j].kind == p.items[j].kind
              && (p.items[j].kind !in {RadioList, TextureList, Color} ==>
                    && r.0.activeControl == Some(j) && r.1 == Done(true)
                    && r.0.items[j].focus == (p.items[j].kind == Text)
                    && forall k :: j < k < |p.items| ==> r.0.items[k] == p.items[k])
  {
    DownScanSkips(p, env, ex, ey, i);
    if FirstHit(p.items, p.mousePos, i).Some? {
      var j := FirstHit(p.items, p.mousePos, i).value;
      HitMarks(p, env, ex, ey, j);
      HitStaysActive(p, env, ex, ey, j);
    }
  }

  /** A scan that starts at a hit always ends with an active control at or after it. */
  lemma HitStaysActive(p: Panel, env: Env, ex: real, ey: real, j: nat)
    requires Wf(p) && NoFocus(p.items) && env.pixelRatio != 0.0 && j < |p.items|
    requires Contains(p.items[j].area, p.mousePos)
    ensures var r := DownScan(p, env, ex, ey, j);
            r.0.activeControl.Some? && j <= r.0.activeControl.value
  {
    DownScanActiveWasHit(p, env, ex, ey, j);
  }

  /**
   * Pointer-down on an enabled panel: every focused text field loses focus and
   * is marked dirty; with no control under the pointer that is all, and no
   * control is active. Otherwise the first control under the pointer is marked
   * as `DownScanFirst` says, and no control before it changes further.
   * A control is active afterwards exactly when the pointer hit one, at most
   * the active text field has focus, and every changed control is dirty.
   */
  lemma MouseDownLaws(p: Panel, env: Env, ex: real, ey: real)
    requires Wf(p) && env.pixelRatio != 0.0 && p.enabled
    ensures var r := MouseDown(p, env, ex, ey);
            var hit := FirstHit(p.items, PanelPoint(env, ex, ey), 0);
            && (hit.None? ==> r == (p.(items := ClearFocus(p.items), activeControl := None,
                                       mousePos := PanelPoint(env, ex, ey)), Done(false)))
            && (hit.Some? ==>
                  var j := hit.value;
                  && r.0.items[j].active && r.0.items[j].dirty
                  && (forall k :: 0 <= k < j ==> r.0.items[k] == Unfocus(p.items[k]))
                  && (p.items[j].kind !in {RadioList, TextureList, Color} ==>
                        && r.0.activeControl == Some(j) && r.1 == Done(true)
                        && r.0.items[j].focus == (p.items[j].kind == Text)
                        && forall k :: j < k < |p.items| ==> r.0.items[k] == Unfocus(p.items[k])))
            && (r.0.activeControl.Some? <==> hit.Some?)
            && (r.0.activeControl.Some? ==> Contains(p.items[r.0.activeControl.value].area, PanelPoint(env, ex, ey)))
            && (forall k :: 0 <= k < |r.0.items| && r.0.items[k].focus ==>
                  r.0.activeControl == Some(k) && r.0.items[k].kind == Text)
            && DirtyWhereChanged(p.items, r.0.items)
  {
    MouseDownMarks(p, env, ex, ey);
    MouseDownKeeps(p, env, ex, ey);
  }

  /** The part of `MouseDownLaws` about what a pointer-down does to the controls up to the first one it hits. */
  lemma MouseDownMarks(p: Panel, env: Env, ex: real, ey: real)
    requires Wf(p) && env.pixelRatio != 0.0 && p.enabled
    ensures var r := MouseDown(p, env, ex, ey);
            var hit := FirstHit(p.items, PanelPoint(env, ex, ey), 0);
            && (hit.None? ==> r == (p.(items := ClearFocus(p.items), activeControl := None,
                                       mousePos := PanelPoint(env, ex, ey)), Done(false)))
            && (hit.Some? ==>
                  var j := hit.value;
                  && r.0.items[j].active && r.0.items[j].dirty
                  && (forall k :: 0 <= k < j ==> r.0.items[k] == Unfocus(p.items[k]))
                  && (p.items[j].kind !in {RadioList, TextureList, Color} ==>
                        && r.0.activeControl == Some(j) && r.1 == Done(true)
                        && r.0.items[j].focus == (p.items[j].kind == Text)
                        && forall k :: j < k < |p.items| ==> r.0.items[k] == Unfocus(p.items[k])))
  {
    var q := Pressed(p, env, ex, ey);
    FirstHitSameAreas(p.items, q.items, q.mousePos, 0);
    DownScanSkips(q, env, ex, ey, 0);
    DownScanFirst(q, env, ex, ey, 0);
  }

  /** The part of `MouseDownLaws` about the active control, focus and dirty flags after a pointer-down. */
  lemma MouseDownKeeps(p: Panel, env: Env, ex: real, ey: real)
    requires Wf(p) && env.pixelRatio != 0.0 && p.enabled
    ensures var r := MouseDown(p, env, ex, ey);
            var hit := FirstHit(p.items, PanelPoint(env, ex, ey), 0);
            && (r.0.activeControl.Some? <==> hit.Some?)
            && (r.0.activeControl.Some? ==> Contains(p.items[r.0.activeControl.value].area, PanelPoint(env, ex, ey)))
            && (forall k :: 0 <= k < |r.0.items| && r.0.items[k].focus ==>
                  r.0.activeControl == Some(k) && r.0.items[k].kind == Text)
            && DirtyWhereChanged(p.items, r.0.items)
  {
    var q := Pressed(p, env, ex, ey);
    FirstHitSameAreas(p.items, q.items, q.mousePos, 0);
    DownScanSkips(q, env, ex, ey, 0);
    DownScanFirst(q, env, ex, ey, 0);
    DownScanActiveWasHit(q, env, ex, ey, 0);
    DownScanFocus(q, env, ex, ey, 0);
    DownScanDirty(q, env, ex, ey, 0);
    assert DirtyWhereChanged(p.items, q.items);
    DirtyWhereChangedTrans(p.items, q.items, MouseDown(p, env, ex, ey).0.items);
  }

  /** Pointer-down reaches the first control it hits with the state `Pressed` leaves; the scan skips everything before it. */
  lemma DownReachesFirstHit(p: Panel, env: Env, ex: real, ey: real)
    requires Wf(p) && env.pixelRatio != 0.0 && p.enabled
    requires FirstHit(p.items, PanelPoint(env, ex, ey), 0).Some?
    ensures var q := Pressed(p, env, ex, ey);
            var j := FirstHit(p.items, PanelPoint(env, ex, ey), 0).value;
            && Wf(q) && NoFocus(q.items) && j < |q.items| && Contains(q.items[j].area, q.mousePos)
            && q.items[j] == Unfocus(p.items[j])
            && MouseDown(p, env, ex, ey) == DownScan(q, env, ex, ey, j)
  {
    var q := Pressed(p, env, ex, ey);
    FirstHitSameAreas(p.items, q.items, q.mousePos, 0);
    DownScanSkips(q, env, ex, ey, 0);
  }

  /** A toggle hit first flips its bound value to `!value` and reports the new value to `onchange`. */
  lemma MouseDownToggle(p: Panel, env: Env, ex: real, ey: real)
    requires Wf(p) && env.pixelRatio != 0.0 && p.enabled
    requires var hit := FirstHit(p.items, PanelPoint(env, ex, ey), 0);
             hit.Some? && p.items[hit.value].kind == Toggle
    ensures var j := FirstHit(p.items, PanelPoint(env, ex, ey), 0).value;
            var r := MouseDown(p, env, ex, ey);
            var flipped := Bool(!Truthy(p.items[j].value));
            && r.1 == Done(true) && r.0.activeControl == Some(j)
            && r.0.items[j].value == flipped
            && r.0.events == p.events + (if p.items[j].hasOnChange then [Changed(j, flipped)] else [])
  {
    DownReachesFirstHit(p, env, ex, ey);
  }

  /** A button hit first calls its `onclick`, when it has one, and changes no value. */
  lemma MouseDownButton(p: Panel, env: Env, ex: real, ey: real)
    requires Wf(p) && env.pixelRatio != 0.0 && p.enabled
    requires var hit := FirstHit(p.items, PanelPoint(env, ex, ey), 0);
             hit.Some? && p.items[hit.value].kind == Button
    ensures var j := FirstHit(p.items, PanelPoint(env, ex, ey), 0).value;
            var r := MouseDown(p, env, ex, ey);
            && r.1 == Done(true) && r.0.activeControl == Some(j)
            && r.0.items[j].value == p.items[j].value
            && r.0.events == p.events + (if p.items[j].hasOnClick then [Clicked(j)] else [])
  {
    DownReachesFirstHit(p, env, ex, ey);
  }

  /**
   * A radio list hit first commits the entry of row `floor(n * hitY / height)`
   * exactly when that row is in range. A row out of range leaves the value
   * alone and the scan goes on; a NaN row throws.
   */
  lemma MouseDownRadioList(p: Panel, env: Env, ex: real, ey: real)
    requires Wf(p) && env.pixelRatio != 0.0 && p.enabled
    requires var hit := FirstHit(p.items, PanelPoint(env, ex, ey), 0);
             hit.Some? && p.items[hit.value].kind == RadioList
    ensures var j := FirstHit(p.items, PanelPoint(env, ex, ey), 0).value;
            var c := p.items[j];
            var row := RadioRow(|c.choices|, c.area, PanelPoint(env, ex, ey));
            var r := MouseDown(p, env, ex, ey);
            && (IsIndex(row, |c.choices|) ==>
                  && r.1 == Done(true) && r.0.activeControl == Some(j)
                  && r.0.items[j].value == c.choices[row.r.Floor].value
                  && r.0.events == p.events + (if c.hasOnChange then [Changed(j, c.choices[row.r.Floor].value)] else []))
            && (!IsIndex(row, |c.choices|) ==> r.0.items[j].value == c.value)
            && (row.NaN? ==> r.1 == Threw && r.0.activeControl == Some(j))
  {
    DownReachesFirstHit(p, env, ex, ey);
    var j := FirstHit(p.items, PanelPoint(env, ex, ey), 0).value;
    ScanRadioList(Pressed(p, env, ex, ey), env, ex, ey, j);
  }

  /** `MouseDownRadioList` for a scan that has reached the radio list `j` under the pointer. */
  lemma ScanRadioList(q: Panel, env: Env, ex: real, ey: real, j: nat)
    requires Wf(q) && NoFocus(q.items) && env.pixelRatio != 0.0 && j < |q.items|
    requires Contains(q.items[j].area, q.mousePos) && q.items[j].kind == RadioList
    ensures var c := q.items[j];
            var row := RadioRow(|c.choices|, c.area, q.mousePos);
            var r := DownScan(q, env, ex, ey, j);
            && (IsIndex(row, |c.choices|) ==>
                  && r.1 == Done(true) && r.0.activeControl == Some(j)
                  && r.0.items[j].value == c.choices[row.r.Floor].value
                  && r.0.events == q.events + (if c.hasOnChange then [Changed(j, c.choices[row.r.Floor].value)] else []))
            && (!IsIndex(row, |c.choices|) ==> r.0.items[j].value == c.value)
            && (row.NaN? ==> r.1 == Threw && r.0.activeControl == Some(j))
  {
    var m := Mark(q, j);
    var c := q.items[j];
    var (h, res) := CommitRow(m, j);
    assert Hit(q, env, ex, ey, j) == (h, res);
    match res
    case Passed =>
      HitPasses(q, env, ex, ey, j, h);
      assert DownScan(h, env, ex, ey, j + 1).0.items[j] == h.items[j];
    case Crashed =>
      HitCrashes(q, env, ex, ey, j, h);
    case Stopped =>
      HitStops(q, env, ex, ey, j, h);
      assert Drag(h, env, ex, ey).0 == h;
  }

  /**
   * A texture list hit first commits the value of the last entry whose area
   * holds the pointer; with none, its value stays and the scan goes on.
   */
  lemma MouseDownTextureList(p: Panel, env: Env, ex: real, ey: real)
    requires Wf(p) && env.pixelRatio != 0.0 && p.enabled
    requires var hit := FirstHit(p.items, PanelPoint(env, ex, ey), 0);
             hit.Some? && p.items[hit.value].kind == TextureList
    ensures var j := FirstHit(p.items, PanelPoint(env, ex, ey), 0).value;
            var c := p.items[j];
            var r := MouseDown(p, env, ex, ey);
            match LastHit(c.choices, PanelPoint(env, ex, ey))
            case Some(e) =>
              && r.1 == Done(true) && r.0.activeControl == Some(j)
              && r.0.items[j].value == c.choices[e].value
              && r.0.events == p.events + (if c.hasOnChange then [Changed(j, c.choices[e].value)] else [])
            case None => r.0.items[j].value == c.value
  {
    DownReachesFirstHit(p, env, ex, ey);
    var q := Pressed(p, env, ex, ey);
    var j := FirstHit(p.items, PanelPoint(env, ex, ey), 0).value;
    assert Hit(q, env, ex, ey, j) == CommitTile(Mark(q, j), j);
    var (h, res) := Hit(q, env, ex, ey, j);
    if res == Passed {
      HitPasses(q, env, ex, ey, j, h);
      assert DownScan(h, env, ex, ey, j + 1).0.items[j] == h.items[j];
    } else {
      HitStops(q, env, ex, ey, j, h);
    }
  }

  /**
   * A colour control with a palette, hit first in the palette strip, takes the
   * sampled colour in its first three entries and the scan goes on; hit
   * anywhere else it stays active and the drag rules set its value.
   */
  lemma MouseDownColor(p: Panel, env: Env, ex: real, ey: real)
    requires Wf(p) && env.pixelRatio != 0.0 && p.enabled
    requires var hit := FirstHit(p.items, PanelPoint(env, ex, ey), 0);
             hit.Some? && p.items[hit.value].kind == Color
    ensures var j := FirstHit(p.items, PanelPoint(env, ex, ey), 0).value;
            var c := p.items[j];
            var r := MouseDown(p, env, ex, ey);
            if c.options.palette.Some? && InPalette(env, c.area, c.options.palette.value, ey) then
              var v := Arr(WithRgb(c.value.elems, PalettePick(env, c.area, c.options.palette.value, ex, ey)));
              && r.0.items[j].value == v
              && p.events + (if c.hasOnChange then [Changed(j, v)] else []) <= r.0.events
            else
              var q := Mark(Pressed(p, env, ex, ey), j);
              r == (Drag(q, env, ex, ey).0, Done(true))
  {
    DownReachesFirstHit(p, env, ex, ey);
    var q := Pressed(p, env, ex, ey);
    var j := FirstHit(p.items, PanelPoint(env, ex, ey), 0).value;
    var c := q.items[j];
    if c.options.palette.Some? && InPalette(env, c.area, c.options.palette.value, ey) {
      ScanPalette(q, env, ex, ey, j);
    } else {
      ScanColorSliders(q, env, ex, ey, j);
    }
  }

  /** A scan that reaches a colour control with the pointer in its palette strip writes the picked colour and goes on. */
  lemma ScanPalette(q: Panel, env: Env, ex: real, ey: real, j: nat)
    requires Wf(q) && NoFocus(q.items) && env.pixelRatio != 0.0 && j < |q.items|
    requires Contains(q.items[j].area, q.mousePos) && q.items[j].kind == Color
    requires var c := q.items[j]; c.options.palette.Some? && InPalette(env, c.area, c.options.palette.value, ey)
    ensures var c := q.items[j];
            var v := Arr(WithRgb(c.value.elems, PalettePick(env, c.area, c.options.palette.value, ex, ey)));
            var r := DownScan(q, env, ex, ey, j);
            && r.0.items[j].value == v
            && q.events + (if c.hasOnChange then [Changed(j, v)] else []) <= r.0.events
  {
    var c := q.items[j];
    var v := Arr(WithRgb(c.value.elems, PalettePick(env, c.area, c.options.palette.value, ex, ey)));
    var h := Assign(Mark(q, j), j, v);
    HitPalette(q, env, ex, ey, j);
    HitPasses(q, env, ex, ey, j, h);
    DownScanExtendsLog(h, env, ex, ey, j + 1);
  }

  /** The hit of a colour control in its palette strip is the palette commit, which passes the event on. */
  lemma HitPalette(q: Panel, env: Env, ex: real, ey: real, j: nat)
    requires Wf(q) && NoFocus(q.items) && env.pixelRatio != 0.0 && j < |q.items| && q.items[j].kind == Color
    requires var c := q.items[j]; c.options.palette.Some? && InPalette(env, c.area, c.options.palette.value, ey)
    ensures var c := q.items[j];
            var v := Arr(WithRgb(c.value.elems, PalettePick(env, c.area, c.options.palette.value, ex, ey)));
            Hit(q, env, ex, ey, j) == (Assign(Mark(q, j), j, v), Passed)
  {
    var c := q.items[j];
    var v := Arr(WithRgb(c.value.elems, PalettePick(env, c.area, c.options.palette.value, ex, ey)));
    var m := Mark(q, j);
    assert CommitPalette(m, env, ex, ey, j) == (Assign(m, j, v), Passed);
  }

  /** A hit that throws ends the scan with the TypeError. */
  lemma HitCrashes(q: Panel, env: Env, ex: real, ey: real, j: nat, h: Panel)
    requires Wf(q) && NoFocus(q.items) && env.pixelRatio != 0.0 && j < |q.items|
    requires Contains(q.items[j].area, q.mousePos) && Hit(q, env, ex, ey, j) == (h, Crashed)
    ensures DownScan(q, env, ex, ey, j) == (h, Threw)
  {
  }

  /** A hit that breaks out of the scan ends the pointer-down with the drag rules applied to the hit control. */
  lemma HitStops(q: Panel, env: Env, ex: real, ey: real, j: nat, h: Panel)
    requires Wf(q) && NoFocus(q.items) && env.pixelRatio != 0.0 && j < |q.items|
    requires Contains(q.items[j].area, q.mousePos) && Hit(q, env, ex, ey, j) == (h, Stopped)
    ensures DownScan(q, env, ex, ey, j) == (Drag(h, env, ex, ey).0, Done(true))
  {
  }

  /** A hit that passes the event on continues the scan with the next control. */
  lemma HitPasses(q: Panel, env: Env, ex: real, ey: real, j: nat, h: Panel)
    requires Wf(q) && NoFocus(q.items) && env.pixelRatio != 0.0 && j < |q.items|
    requires Contains(q.items[j].area, q.mousePos) && Hit(q, env, ex, ey, j) == (h, Passed)
    ensures DownScan(q, env, ex, ey, j) == DownScan(h, env, ex, ey, j + 1)
  {
  }

  /** A scan that reaches a colour control anywhere outside its palette strip stops there and drags. */
  lemma ScanColorSliders(q: Panel, env: Env, ex: real, ey: real, j: nat)
    requires Wf(q) && NoFocus(q.items) && env.pixelRatio != 0.0 && j < |q.items|
    requires Contains(q.items[j].area, q.mousePos) && q.items[j].kind == Color
    requires var c := q.items[j]; !(c.options.palette.Some? && InPalette(env, c.area, c.options.palette.value, ey))
    ensures DownScan(q, env, ex, ey, j) == (Drag(Mark(q, j), env, ex, ey).0, Done(true))
  {
    assert Hit(q, env, ex, ey, j) == (Mark(q, j), Stopped);
  }

  /**
   * Dragging a slider sets it to `min + t * (max - min)` for the clamped
   * fraction `t`, which lies in [0, 1] whenever the area has width; the value
   * then lies in [min, max]. The vertical position plays no part.
   */
  lemma DragSlider(p: Panel, env: Env, ex: real, ey: real, ey2: real)
    requires Wf(p) && env.pixelRatio != 0.0 && p.enabled
    requires p.activeControl.Some? && p.items[p.activeControl.value].kind == Slider
    ensures var k := p.activeControl.value;
            var c := p.items[k];
            var r := Drag(p, env, ex, ey);
            var v := Lerp(c.options, Fraction(env, c.area, ex));
            && r.0.items[k] == c.(value := Num(v), dirty := true)
            && r.0.events == p.events + (if c.hasOnChange then [Changed(k, Num(v))] else [])
            && (c.area.right > c.area.left && c.options.min <= c.options.max ==>
                  v.Finite? && c.options.min <= v.r <= c.options.max)
            && Drag(p, env, ex, ey2) == r
  {
  }

  /**
   * Once a multi-slider or colour control has locked a sub-slider, a drag
   * writes to that sub-slider whatever the vertical position, and a colour
   * control never samples its palette.
   */
  lemma DragLocked(p: Panel, env: Env, ex: real, ey: real, ey2: real, sample2: Sampler)
    requires Wf(p) && env.pixelRatio != 0.0 && p.enabled && p.activeControl.Some?
    requires var c := p.items[p.activeControl.value]; c.kind in {MultiSlider, Color} && Locked(c)
    ensures var k := p.activeControl.value;
            var c := p.items[k];
            var r := Drag(p, env, ex, ey);
            && r.0.items[k].value == Arr(SetAt(c.value.elems, c.clickedSlider.value, Lerp(c.options, Fraction(env, c.area, ex))))
            && r.0.items[k].clickedSlider == c.clickedSlider && r.0.items[k].dirty
            && r.0.events == p.events + (if c.hasOnChange then [Changed(k, r.0.items[k].value)] else [])
            && Drag(p, env, ex, ey2) == r
            && Drag(p, env.(sample := sample2), ex, ey) == r
  {
  }

  /**
   * The first drag sample of a multi-slider or colour control (outside the
   * palette) stores the sub-slider under the pointer in `clickedSlider` and
   * writes to it; every later drag, at any position, writes to that same
   * sub-slider.
   */
  lemma DragFirstSampleLocks(p: Panel, env: Env, ex: real, ey: real, ex2: real, ey2: real)
    requires Wf(p) && env.pixelRatio != 0.0 && p.enabled && p.activeControl.Some?
    requires var c := p.items[p.activeControl.value];
             c.kind in {MultiSlider, Color} && !Locked(c) && !PalettePickAt(env, c, ey)
    ensures var k := p.activeControl.value;
            var c := p.items[k];
            var q := Drag(p, env, ex, ey).0;
            var idx := SubSliderAt(env, c, ey);
            && q.items[k].clickedSlider == Some(idx) && q.items[k].dirty
            && q.items[k].value == Arr(SetAt(c.value.elems, idx, Lerp(c.options, Fraction(env, c.area, ex))))
            && q.events == p.events + (if c.hasOnChange then [Changed(k, q.items[k].value)] else [])
            && (!idx.NaN? ==> Drag(q, env, ex2, ey2).0.items[k].clickedSlider == Some(idx))
  {
    var k := p.activeControl.value;
    var q := Drag(p, env, ex, ey).0;
    if !SubSliderAt(env, p.items[k], ey).NaN? {
      DragLocked(q, env, ex2, ey2, ey2, env.sample);
    }
  }

  /** A colour control with no lock samples the palette while the pointer is in the strip: the drag writes the picked colour. */
  lemma DragPalette(p: Panel, env: Env, ex: real, ey: real)
    requires Wf(p) && env.pixelRatio != 0.0 && p.enabled && p.activeControl.Some?
    requires PalettePickAt(env, p.items[p.activeControl.value], ey)
    ensures var k := p.activeControl.value;
            var c := p.items[k];
            var r := Drag(p, env, ex, ey);
            var v := Arr(WithRgb(c.value.elems, PalettePick(env, c.area, c.options.palette.value, ex, ey)));
            && r.0.items[k] == c.(value := v, dirty := true)
            && r.0.events == p.events + (if c.hasOnChange then [Changed(k, v)] else [])
  {
  }

  /** After pointer-up a drag changes nothing: no control is active any more. */
  lemma DragAfterUp(p: Panel, env: Env, ex: real, ey: real)
    requires Wf(p) && env.pixelRatio != 0.0
    ensures Drag(MouseUp(p), env, ex, ey) == (MouseUp(p), false)
  {
  }

  /** Lists of the same length whose controls have the same focus flags. */
  predicate SameFocus(s: seq<Control>, t: seq<Control>)
  {
    |t| == |s| && forall j :: 0 <= j < |s| ==> t[j].focus == s[j].focus
  }

  /** After a pointer-down at most one control has focus, whatever focus the panel had before. */
  lemma MouseDownOneFocus(p: Panel, env: Env, ex: real, ey: real)
    requires Wf(p) && env.pixelRatio != 0.0 && p.enabled
    ensures AtMostOneFocus(MouseDown(p, env, ex, ey).0.items)
  {
    MouseDownLaws(p, env, ex, ey);
  }

  /** Equal focus flags keep the at-most-one-focus property. */
  lemma SameFocusKeepsOne(s: seq<Control>, t: seq<Control>)
    requires SameFocus(s, t) && AtMostOneFocus(s)
    ensures AtMostOneFocus(t)
  {
  }

  /** A drag leaves every focus flag as it was. */
  lemma DragKeepsFocus(p: Panel, env: Env, ex: real, ey: real)
    requires Wf(p) && env.pixelRatio != 0.0
    ensures SameFocus(p.items, Drag(p, env, ex, ey).0.items)
    ensures AtMostOneFocus(p.items) ==> AtMostOneFocus(Drag(p, env, ex, ey).0.items)
  {
    if AtMostOneFocus(p.items) {
      SameFocusKeepsOne(p.items, Drag(p, env, ex, ey).0.items);
    }
  }

  /** A pointer-up leaves every focus flag as it was. */
  lemma MouseUpKeepsFocus(p: Panel)
    requires Wf(p)
    ensures SameFocus(p.items, MouseUp(p).items)
    ensures AtMostOneFocus(p.items) ==> AtMostOneFocus(MouseUp(p).items)
  {
    if AtMostOneFocus(p.items) {
      SameFocusKeepsOne(p.items, MouseUp(p).items);
    }
  }

  /** The key handlers leave every focus flag as it was. */
  lemma KeysKeepFocus(p: Panel, key: KeyCode, str: string)
    requires Wf(p)
    ensures SameFocus(p.items, KeyDown(p, key).0.items)
    ensures SameFocus(p.items, KeyPress(p, str).0.items)
    ensures AtMostOneFocus(p.items) ==>
              AtMostOneFocus(KeyDown(p, key).0.items) && AtMostOneFocus(KeyPress(p, str).0.items)
  {
    KeyDownLaws(p, key);
    KeyPressLaws(p, str);
    if AtMostOneFocus(p.items) {
      SameFocusKeepsOne(p.items, KeyDown(p, key).0.items);
      SameFocusKeepsOne(p.items, KeyPress(p, str).0.items);
    }
  }

  /** Only the focused text field, if any, is the one the key handlers edit. */
  lemma FocusedIsTheFocus(p: Panel)
    requires Wf(p) && AtMostOneFocus(p.items)
    ensures Focused(p.items).None? <==> forall j :: 0 <= j < |p.items| ==> !p.items[j].focus
    ensures Focused(p.items).Some? ==>
              forall j :: 0 <= j < |p.items| && p.items[j].focus ==> Focused(p.items) == Some(j)
  {
    if Focused(p.items).None? {
      forall j | 0 <= j < |p.items| ensures !p.items[j].focus {
        assert WellTyped(p.items[j]);
      }
    }
  }

  /**
   * Backspace removes the last character of the focused field (an empty field
   * stays empty), marks it dirty and reports the new text; any other key, or
   * no focused field, changes nothing.
   */
  lemma KeyDownLaws(p: Panel, key: KeyCode)
    requires Wf(p)
    ensures Focused(p.items).None? || key != Backspace ==> KeyDown(p, key) == (p, false)
    ensures Focused(p.items).Some? && key == Backspace ==>
              var k := Focused(p.items).value;
              var s := p.items[k].value.s;
              var r := KeyDown(p, key);
              && r.1
              && r.0.items[k] == p.items[k].(value := r.0.items[k].value, dirty := true)
              && r.0.items[k].value.Str?
              && (s == [] ==> r.0.items[k].value.s == [])
              && (s != [] ==> r.0.items[k].value.s + [s[|s| - 1]] == s)
              && (forall j :: 0 <= j < |p.items| && j != k ==> r.0.items[j] == p.items[j])
              && r.0.events == p.events + (if p.items[k].hasOnChange then [Changed(k, r.0.items[k].value)] else [])
  {
    if Focused(p.items).Some? && key == Backspace {
      var k := Focused(p.items).value;
      assert WellTyped(p.items[k]);
    }
  }

  /**
   * A key press whose first character code is in [32, 126] appends the whole
   * text to the focused field, marks it dirty and reports the new text; any
   * other press, or no focused field, changes nothing and marks nothing dirty.
   */
  lemma KeyPressLaws(p: Panel, str: string)
    requires Wf(p)
    ensures Focused(p.items).None? || !Printable(str) ==> KeyPress(p, str) == (p, false)
    ensures Focused(p.items).Some? && Printable(str) ==>
              var k := Focused(p.items).value;
              var r := KeyPress(p, str);
              var t := Str(p.items[k].value.s + str);
              && r.1
              && r.0.items[k] == p.items[k].(value := t, dirty := true)
              && (forall j :: 0 <= j < |p.items| && j != k ==> r.0.items[j] == p.items[j])
              && r.0.events == p.events + (if p.items[k].hasOnChange then [Changed(k, t)] else [])
  {
  }

  /** Typing one printable character and then backspace gives the focused field its old text back. */
  lemma TypeThenDelete(p: Panel, ch: char)
    requires Wf(p) && AtMostOneFocus(p.items) && Focused(p.items).Some? && Printable([ch])
    ensures var k := Focused(p.items).value;
            KeyDown(KeyPress(p, [ch]).0, Backspace).0.items[k].value == p.items[k].value
  {
    var k := Focused(p.items).value;
    var q := KeyPress(p, [ch]).0;
    assert WellTyped(p.items[k]);
    FocusedIsTheFocus(q);
    assert q.items[k].focus;
    var s := p.items[k].value.s + [ch];
    assert s[..|s| - 1] == p.items[k].value.s;
  }

  /** The key handlers do not look at the enabled flag: a disabled panel edits its focused field the same way. */
  lemma KeysIgnoreEnabled(p: Panel, key: KeyCode, str: string, b: bool)
    requires Wf(p)
    ensures KeyDown(p.(enabled := b), key) == (KeyDown(p, key).0.(enabled := b), KeyDown(p, key).1)
    ensures KeyPress(p.(enabled := b), str) == (KeyPress(p, str).0.(enabled := b), KeyPress(p, str).1)
  {
  }
}
