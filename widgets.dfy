/**
 * The widget registry's data model: one record per control, and the
 * operations of a control object that the panel calls (setting a normalised
 * value, reading and writing the serialised value).
 */
module Widgets {
  import opened Wrappers
  import opened JsNumber

  datatype Kind =
    | Header | Separator | Label | Toggle | Slider | MultiSlider | Color | Text
    | Button | RadioList | TextureList | Texture2D | TextureCube

  /** A JavaScript value as it can sit in a bound field or in a list entry. */
  datatype Value =
    | Bool(b: bool)
    | Num(n: Number)
    | Arr(elems: seq<Number>)
    | Str(s: string)
    | Obj          // any other object or function; `null` is folded in here, and no truthiness test sees it
    | Undefined

  /** The kinds that observe and write a named field of a caller's context object. */
  predicate Bound(k: Kind)
  {
    k in {Toggle, Slider, MultiSlider, Color, Text, RadioList, TextureList}
  }

  /** The shape of value a bound kind works on; list kinds store any entry value. */
  predicate Fits(k: Kind, v: Value)
  {
    match k
    case Toggle => v.Bool?
    case Slider => v.Num?
    case MultiSlider => v.Arr?
    case Color => v.Arr?
    case Text => v.Str?
    case _ => true
  }

  /** JavaScript's truthiness, used by the toggle's `!value`. */
  predicate Truthy(v: Value)
  {
    match v
    case Bool(b) => b
    case Num(n) => !(n.NaN? || n == Finite(0.0))
    case Arr(_) => true
    case Str(s) => s != ""
    case Obj => true
    case Undefined => false
  }

  /** A point in panel pixels. */
  datatype Point = Point(x: real, y: real)

  /** An active area `[[left, top], [right, bottom]]`. */
  datatype Rect = Rect(left: real, top: real, right: real, bottom: real)

  /** The area every factory gives a new control, `[[0, 0], [0, 0]]`, until the renderer lays it out. */
  const UNPLACED := Rect(0.0, 0.0, 0.0, 0.0)

  /** `Rect.containsPoint`: inclusive, axis-aligned containment. */
  predicate Contains(a: Rect, p: Point)
  {
    a.left <= p.x <= a.right && a.top <= p.y <= a.bottom
  }

  type Dimension = n: int | n > 0 witness 1

  /** A loaded palette image; only its size matters to the panel. */
  datatype Image = Image(width: Dimension, height: Dimension)

  /**
   * The option keys the panel's own logic reads. `palette` stands for both
   * `options.palette` (the flag the colour branch tests) and
   * `options.paletteImage` (the image it measures and samples): `Some` means
   * both are set, `None` that the flag is falsy.
   */
  datatype Options = Options(min: real, max: real, alpha: bool, palette: Option<Image>)

  /** Options of controls whose logic never reads them. */
  const NO_OPTIONS := Options(0.0, 1.0, false, None)

  /** The option bag as `addParam` receives it: `min` and `max` may be missing. */
  datatype ParamOptions = ParamOptions(min: Option<real>, max: Option<real>, isColor: bool, alpha: bool, palette: Option<Image>)

  /** `options || {}`: no option bag at all. */
  const NO_PARAM_OPTIONS := ParamOptions(None, None, false, false, None)

  /** An entry of a radio list or a texture list: the value it commits and (texture lists) its own area. */
  datatype Choice = Choice(area: Rect, value: Value)

  datatype Control = Control(
    kind: Kind,
    title: Option<string>,
    value: Value,            // the bound field; Undefined for kinds without one
    options: Options,
    choices: seq<Choice>,    // radio-list and texture-list entries
    hasOnChange: bool,
    hasOnClick: bool,
    area: Rect,              // activeArea, written by the renderer
    dirty: bool,
    active: bool,
    focus: bool,
    clickedSlider: Option<Number>)

  /** A callback invocation: `onchange(value)` or `onclick()`. */
  datatype Event = Changed(item: nat, value: Value) | Clicked(item: nat)

  datatype Rgb = Rgb(r: real, g: real, b: real)

  /** `renderer.getImageColor(image, x, y)`, supplied by the renderer. */
  type Sampler = (Image, Number, Number) -> Rgb

  /** What each control keeps true: only a text field takes focus, and a bound field holds its kind's shape. */
  predicate WellTyped(c: Control)
  {
    (c.focus ==> c.kind == Text) && (Bound(c.kind) ==> Fits(c.kind, c.value))
  }

  /** `!isNaN(clickedSlider)`: a drag has locked the sub-slider index. */
  predicate Locked(c: Control)
  {
    c.clickedSlider.Some? && !c.clickedSlider.value.NaN?
  }

  /** The record every factory creates: dirty, idle, unfocused and not yet laid out. */
  function NewControl(kind: Kind, title: Option<string>, value: Value, options: Options,
                      choices: seq<Choice>, hasOnChange: bool, hasOnClick: bool): (c: Control)
    ensures c.kind == kind && c.title == title && c.value == value
    ensures c.dirty && !c.active && !c.focus && c.clickedSlider == None && c.area == UNPLACED
  {
    Control(kind, title, value, options, choices, hasOnChange, hasOnClick, UNPLACED, true, false, false, None)
  }

  /** `addParam`'s defaults: `min` 0 and `max` 1 when missing. */
  function Resolve(o: ParamOptions): (r: Options)
    ensures o.min.None? ==> r.min == 0.0
    ensures o.max.None? ==> r.max == 1.0
    ensures o.min.Some? ==> r.min == o.min.value
    ensures o.max.Some? ==> r.max == o.max.value
    ensures r.alpha == o.alpha && r.palette == o.palette
  {
    Options(o.min.GetOr(0.0), o.max.GetOr(1.0), o.alpha, o.palette)
  }

  /**
   * The kind `addParam` chooses for the current value of a field, testing in the
   * order boolean, number, colour array, array, string; None for anything else.
   */
  function ParamKind(v: Value, isColor: bool): (k: Option<Kind>)
    ensures k == Some(Toggle) <==> v.Bool?
    ensures k == Some(Slider) <==> v.Num? && !v.n.NaN?
    ensures k == Some(Color) <==> v.Arr? && isColor
    ensures k == Some(MultiSlider) <==> v.Arr? && !isColor
    ensures k == Some(Text) <==> v.Str?
    ensures k == None <==> v == Obj || v == Undefined || v == Num(NaN)
    ensures k.Some? ==> Bound(k.value) && Fits(k.value, v)
  {
    if v.Bool? then Some(Toggle)
    else if v.Num? && !v.n.NaN? then Some(Slider)
    else if v.Arr? && isColor then Some(Color)
    else if v.Arr? then Some(MultiSlider)
    else if v.Str? then Some(Text)
    else None
  }

  /**
   * `setNormalizedValue(t)`: the value a fraction `t` of the way from `min` to
   * `max`. A NaN fraction gives NaN.
   */
  function Lerp(o: Options, t: Unit): (v: Number)
    ensures v.NaN? <==> t.NaN?
    ensures t.Finite? && o.min <= o.max ==> v.Finite? && o.min <= v.r <= o.max
    ensures t == Finite(0.0) ==> v == Finite(o.min)
    ensures t == Finite(1.0) ==> v == Finite(o.max)
  {
    if t.NaN? then NaN
    else
      var x := o.min + t.r * (o.max - o.min);
      assert o.min <= o.max ==> o.min <= x <= o.max by {
        if o.min <= o.max {
          assert 0.0 <= t.r * (o.max - o.min) <= o.max - o.min by { BetweenProduct(t.r, o.max - o.min); }
        }
      }
      Finite(x)
  }

  lemma BetweenProduct(t: real, d: real)
    requires 0.0 <= t <= 1.0 && 0.0 <= d
    ensures 0.0 <= t * d <= d
  {
    assert d - t * d == (1.0 - t) * d;
  }

  /**
   * `setNormalizedValue(x, idx)` on an array: the entry at an integer index in
   * range takes `x`; any other index leaves the array as it is.
   */
  function SetAt(a: seq<Number>, idx: Number, x: Number): (r: seq<Number>)
    ensures |r| == |a|
    ensures IsIndex(idx, |a|) ==> r[idx.r.Floor] == x
    ensures forall j :: 0 <= j < |a| && !(IsIndex(idx, |a|) && j == idx.r.Floor) ==> r[j] == a[j]
  {
    if IsIndex(idx, |a|) then a[idx.r.Floor := x] else a
  }

  /**
   * The three writes `a[0] = c[0]; a[1] = c[1]; a[2] = c[2]` of a palette pick.
   * Written in this order they never leave a hole, so a shorter array grows to
   * length 3 and every entry after the third is kept.
   */
  function WithRgb(a: seq<Number>, c: Rgb): (r: seq<Number>)
    ensures |r| == if |a| < 3 then 3 else |a|
    ensures r[0] == Finite(c.r) && r[1] == Finite(c.g) && r[2] == Finite(c.b)
    ensures forall j :: 3 <= j < |a| ==> r[j] == a[j]
  {
    [Finite(c.r), Finite(c.g), Finite(c.b)] + (if |a| > 3 then a[3..] else [])
  }

  /** `getSerializedValue()`: the bound field, or undefined for a control without one. */
  function Serialized(c: Control): (v: Value)
    ensures !Bound(c.kind) ==> v == Undefined
    ensures Bound(c.kind) ==> v == c.value
  {
    if Bound(c.kind) then c.value else Undefined
  }

  /**
   * `setSerializedValue(v)`: a bound control stores a value of its kind's shape;
   * any other value, and any control without a binding, is left as it was.
   */
  function SetSerialized(c: Control, v: Value): (d: Control)
    ensures d == c.(value := d.value)
    ensures d.value == (if Bound(c.kind) && Fits(c.kind, v) then v else c.value)
    ensures WellTyped(c) ==> WellTyped(d)
  {
    if Bound(c.kind) && Fits(c.kind, v) then c.(value := v) else c
  }
}
