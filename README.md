# pex-gui panel core in Dafny

This project models the widget panel of `GUI.js`: a retained list of controls, the
input state machine that routes pointer and keyboard events to them, the dirty-flag
gate that decides when the panel chrome is regenerated, title-keyed save and
restore, and the enabled flag.

Layout:

- `wrappers.dfy` (`Wrappers`): `Option`.
- `js_number.dfy` (`JsNumber`): the JavaScript number arithmetic the hit tests
  use: division by a zero extent (`±Infinity`, `NaN`), `Math.floor`, `Math.min`,
  `Math.max`, and the `<` and `>=` comparisons that are false on `NaN`.
- `widgets.dfy` (`Widgets`): one control as a record. It holds the kind, title,
  bound value, options, child entries, active area, and the `dirty`, `active`,
  `focus` and `clickedSlider` flags. The module also holds the abstract
  `GUIControl` operations (`setNormalizedValue`, `get/setSerializedValue`) and
  the kind choice of `addParam`.
- `input.dfy` (`Input`): the specification of every event handler as a function
  from the panel state to the new state and outcome. `DownScan` is the `for` loop
  of `onMouseDown` with its `continue` and `break` exits. `Hit` is the per-kind
  commit, and `Drag`, `MouseUp`, `KeyDown` and `KeyPress` are the other handlers.
- `input_laws.dfy` (`InputLaws`): what the handlers guarantee, proved about those
  functions.
- `scheduler.dfy` (`Scheduler`): `isAnyItemDirty` and the gate of `draw`, and
  what many frames in a row do.
- `serialization.dfy` (`Serialization`): `serialize`, `deserialize` and their
  round trip.
- `gui.dfy` (`GuiPanel`): the `Gui` class. Its fields are the items, the active
  control, the enabled flag, the pointer position, the callback log and the
  offset. Its methods mutate them as the source does, with the same loops,
  `continue` and `break`. The event handlers, `isAnyItemDirty`, `draw`,
  `serialize` and `deserialize` are proved equal to the step functions above.
  The factories and the enabled-flag methods state their new state outright.
  The constructor, the factories, the event handlers, `isAnyItemDirty`,
  `draw`, `deserialize` and the enabled-flag methods keep the class invariant
  `Valid`: every control is well typed, the active control exists, and at
  most one control has focus. The step helpers the handlers call
  (`ClearTextFocus`, `ScanControls`, `CommitHit`, `CommitRowAt`,
  `CommitTileAt`, `CommitPaletteAt`, `SteerSubSlider`, `Store`) promise only
  their step function. They assume at most `Ready`, which is a well-formed
  state and a non-zero pixel ratio.

Modelling choices:

- The active control is an index into `items`, and each factory returns the
  index of the control it appends.
- The bound field `contextObject[attributeName]` is the control's `value`.
- `onchange` and `onclick` calls are appended to the `events` log, in order.
- `renderer.getImageColor` is the `sample` parameter, fixed when the panel is
  built. It is a function of the image and the two (possibly non-finite) pixel
  coordinates.
- `Rect.containsPoint` is inclusive containment in an axis-aligned rectangle.
- Numbers are exact reals plus the three IEEE specials.

A radio list whose area has zero height, pressed exactly on its top edge, computes
row `floor(0 / 0) = NaN`. The two range tests let `NaN` through, and
`items[NaN].value` then throws. The model keeps this as the outcome `Threw`.

Likewise, the slider fraction `max(0, min(r, 1))` is in [0, 1] except that it is
`NaN` when the area has zero width and the pointer is exactly on its left edge.
`Input.Fraction` states both cases.

A palette pick on the right or bottom edge of a colour control's area reads
the pixel one column or row past the image (`x == iw`, `y == ih`), as
`GeometryLaws.PaletteTexelInImage` shows. What the renderer returns there is
whatever `sample` gives. Inside the area the pixel lies within the image.

Serialisation files each control under `data[item.title]`, and a separator has
no title, so every separator is filed under the key `"undefined"`. The laws of
save and restore therefore ask only that controls with a bound value have keys
of their own (`UniqueTitles`). Separators, headers, labels and buttons may
share keys.

`GUIControl.js` is not part of this model. Its operations are modelled by the
contracts stated on `Lerp`, `SetAt`, `Serialized` and `SetSerialized`.

## Model

| member | source | states |
|---|---|---|
| GuiPanel.Gui.constructor | GUI.js:74-103 | a new panel is empty, enabled, at offset (0, 0), pointer at the origin; a missing pixel ratio counts as 1 |
| GuiPanel.Gui.AddHeader | GUI.js:360-373 | appends one dirty, idle, unplaced header with the title; earlier controls unchanged; returns its index |
| GuiPanel.Gui.AddSeparator | GUI.js:379-387 | appends one dirty separator without a title (the argument is dropped); returns its index |
| GuiPanel.Gui.AddLabel | GUI.js:393-406 | appends one dirty label with the title; returns its index |
| GuiPanel.Gui.AddParam | GUI.js:416-490 | appends one control of the kind `ParamKind` picks, with min/max defaulted, and returns its index; a value of no supported shape appends nothing and returns nothing |
| GuiPanel.Gui.AddButton | GUI.js:497-508 | appends one dirty button that records whether it has `onclick` |
| GuiPanel.Gui.AddRadioList | GUI.js:518-531 | appends one dirty radio list bound to the value, with the entries as rows |
| GuiPanel.Gui.AddTexture2DList | GUI.js:542-556 | appends one dirty texture list bound to the value, with the entries as tiles |
| GuiPanel.Gui.AddTexture2D | GUI.js:564-575 | appends one dirty texture view |
| GuiPanel.Gui.AddTextureCube | GUI.js:577-589 | appends one dirty cube-texture view |
| GuiPanel.Gui.Append | GUI.js:371-372 | the control is appended after the existing ones and its index returned; the invariant is kept |
| GuiPanel.Gui.Store | GUI.js:137-140 | writes control `k` back and logs its `onchange` with the new value: exactly `Input.Change` |
| GuiPanel.Gui.OnMouseDown | GUI.js:110-207 | the new state and outcome are exactly `Input.MouseDown` of the old state; the panel invariant, including at most one focus, is kept |
| GuiPanel.Gui.ClearTextFocus | GUI.js:113-120 | every focused text field loses focus and becomes dirty, others unchanged (`ClearFocus`) |
| GuiPanel.Gui.ScanControls | GUI.js:125-206 | the `for` loop with `continue`/`break` gives exactly `Input.DownScan` from index 0 |
| GuiPanel.Gui.CommitHit | GUI.js:126-201 | marking the hit control active and dirty, then its kind's commit, gives exactly `Input.Hit` |
| GuiPanel.Gui.CommitRowAt | GUI.js:142-153 | the radio-list branch equals `Input.CommitRow` |
| GuiPanel.Gui.CommitTileAt | GUI.js:154-169 | the `forEach` over tiles keeps the last tile under the pointer; equals `Input.CommitTile` |
| GuiPanel.Gui.CommitPaletteAt | GUI.js:170-197 | the colour branch equals `Input.CommitPalette` |
| GuiPanel.Gui.OnMouseDrag | GUI.js:214-291 | exactly `Input.Drag` of the old state; the invariant is kept |
| GuiPanel.Gui.SteerSubSlider | GUI.js:231-245 | writes the locked sub-slider, or locks and writes the one under the pointer, and reports the change (`SlideAt`) |
| GuiPanel.Gui.OnMouseUp | GUI.js:298-307 | exactly `Input.MouseUp` of the old state; the invariant is kept |
| GuiPanel.Gui.FindFocused | GUI.js:315-315 | returns the first focused text field, or none when no text field has focus |
| GuiPanel.Gui.OnKeyDown | GUI.js:314-332 | exactly `Input.KeyDown` of the old state; the invariant is kept |
| GuiPanel.Gui.OnKeyPress | GUI.js:339-354 | exactly `Input.KeyPress` of the old state; the invariant is kept |
| GuiPanel.Gui.IsAnyItemDirty | GUI.js:603-612 | returns whether some control was dirty, and clears every dirty flag and nothing else |
| GuiPanel.Gui.Draw | GUI.js:618-629 | the gate of `draw`: equals `Scheduler.DrawStep` of the items and the enabled flag |
| GuiPanel.Gui.Serialize | GUI.js:701-707 | returns `SerializeItems(items)`, one key per control title, and changes nothing |
| GuiPanel.Gui.Deserialize | GUI.js:714-721 | the items become `DeserializeItems(items, data)`; the invariant is kept |
| GuiPanel.Gui.SetEnabled | GUI.js:755-757 | the enabled flag becomes the given state |
| GuiPanel.Gui.IsEnabled | GUI.js:763-765 | returns the enabled flag |
| GuiPanel.Gui.ToggleEnabled | GUI.js:771-773 | flips the enabled flag and returns the new value |
| Input.ClearFocus | GUI.js:113-120 | one result per control, each `Unfocus`ed; from well-typed controls no control keeps focus |
| Input.Change | GUI.js:137-140 | writes one control back, logs `onchange` with its new value when it has one, and keeps the state well formed |
| Input.FirstHit | GUI.js:125-127 | the first index from `i` on whose area holds the point: every earlier one misses, and none means all miss |
| Input.Mark | GUI.js:127-132 | the hit control becomes active and dirty and the active control; nothing else changes |
| Input.Fraction | GUI.js:222-223 | the clamped fraction is NaN exactly for a zero width with the pointer on the left edge; with a positive width it lies in [0, 1] and equals the raw ratio inside the area |
| Input.LastHit | GUI.js:155-160 | the last tile whose area holds the point: every later tile misses, and none means all miss |
| Input.CommitRow | GUI.js:142-153 | commits row `floor(n * hitY / height)` exactly when it is an index in range; throws exactly when it is NaN; otherwise passes on unchanged |
| Input.CommitTile | GUI.js:154-169 | stops exactly when a tile is under the pointer, and then assigns the last such tile's value, logging `onchange` with it; passes on unchanged when there is none; never throws |
| Input.CommitPalette | GUI.js:170-197 | passes on exactly when there is a palette and the pointer is in its strip, and then assigns the sampled colour's three channels, logging `onchange`; otherwise stops with nothing changed; never throws |
| Input.Unfocus | GUI.js:113-120 | a focused text field loses focus and becomes dirty; only focus and dirty can change, and any change dirties; afterwards only a non-text control can hold focus |
| Input.PanelPoint | GUI.js:123-124 | the recorded pointer plus the panel offset, times the pixel ratio, is the device position |
| Input.Pressed | GUI.js:113-124 | every control `Unfocus`ed, no active control, the pointer recorded; the enabled flag and the log are kept; from a well-formed state no control has focus |
| Input.PaletteHeight | GUI.js:174-178 | the palette image spans the area's width at the image's aspect ratio; its height is not negative for an area of non-negative width |
| Input.PaletteStart | GUI.js:179-179 | the strip's start below the top, plus the palette height, is the area's height |
| Input.SlidersHeight | GUI.js:172-177 | with a palette, the sub-sliders share the area's height less the palette's; otherwise the whole height |
| Input.Assign | GUI.js:137-140 | writes the committed value to control `i` only and logs `onchange` with it when the control has one; the state stays well formed with no focus |
| Input.Commit | GUI.js:133-201 | the per-kind commit changes only the hit control's value (a text field only gains focus); only radio lists, texture lists and colour controls pass on; only radio lists throw |
| Input.Hit | GUI.js:126-201 | the hit control becomes active and dirty, gains focus exactly when it is text, keeps everything but its value; no other control changes |
| Input.SlideAt | GUI.js:233-240 | the sub-slider written is the locked one if any, else the one under the pointer, which becomes the lock; that entry takes `Lerp` of the fraction |
| Input.Steered | GUI.js:221-288 | a slider, multi-slider or colour drag changes only the value, dirty flag and lock of the control, marks it dirty, and keeps it well typed; other kinds are unchanged |
| Input.Drag | GUI.js:214-291 | does nothing when disabled or with no active control; otherwise changes only the active control's value, dirty flag and lock, marks every change dirty, and leaves other kinds unchanged; a slider, multi-slider or colour drag marks the control dirty and logs `onchange` with the new value when the control has one |
| Input.DownScan | GUI.js:125-206 | keeps the state well formed; controls before the scan start and controls the pointer misses are unchanged |
| Input.MouseDown | GUI.js:110-207 | a disabled panel is unchanged and reports nothing handled |
| Input.MouseUp | GUI.js:298-307 | with an active control on an enabled panel, that control becomes idle and dirty with no lock, and no control is active; otherwise nothing changes |
| Input.FocusedFrom | GUI.js:315-315 | the first focused text field from `i` on; every earlier one is not focused, and none means no text field has focus |
| Input.KeyDown | GUI.js:314-332 | keeps the state well formed and the number of controls |
| Input.KeyPress | GUI.js:339-354 | keeps the state well formed and the number of controls |
| JsNumber.Div | GUI.js:144-144 | `a / b`: finite exactly for a non-zero divisor; otherwise `+Infinity`, `-Infinity` or NaN by the sign of `a` |
| JsNumber.Floor | GUI.js:144-144 | `Math.floor`: the greatest integer not above a finite number; specials are kept |
| JsNumber.Scale | GUI.js:184-185 | `iw * u`: finite exactly when `u` is; specials are kept |
| JsNumber.Clamp01 | GUI.js:223-223 | `max(0, min(v, 1))`: NaN exactly for NaN, else the value clamped to [0, 1], infinities to the end they point at |
| JsNumber.FlooredIndexCases | GUI.js:144-149 | a floored quotient passes both range tests exactly when it is an index in range or the quotient is NaN |
| Widgets.NewControl | GUI.js:361-370 | every factory's control is dirty, idle, unfocused, unlocked and unplaced, with the given kind, title and value |
| Widgets.Resolve | GUI.js:417-419 | `min` defaults to 0 and `max` to 1; given bounds are kept |
| Widgets.ParamKind | GUI.js:420-489 | boolean gives toggle, non-NaN number gives slider, colour array gives colour, other array gives multi-slider, string gives text, each exactly; anything else gives none; the chosen kind fits the value |
| Widgets.Lerp | GUI.js:224-224 | `setNormalizedValue`: NaN exactly for a NaN fraction; 0 gives `min`, 1 gives `max`, a fraction in [0, 1] gives a value in [min, max] |
| Widgets.SetAt | GUI.js:240-240 | the indexed `setNormalizedValue` writes the entry at an in-range integer index and keeps every other entry |
| Widgets.WithRgb | GUI.js:189-191 | the three palette writes set entries 0 to 2 and keep every later entry |
| Widgets.Serialized | GUI.js:704-704 | `getSerializedValue`: the bound value, or undefined for a control without one |
| Widgets.SetSerialized | GUI.js:717-717 | `setSerializedValue`: only the value changes, to the given value when it fits the kind; well-typedness is kept |
| Scheduler.ClearDirty | GUI.js:605-610 | each control with only its dirty flag cleared |
| Scheduler.DrawStep | GUI.js:618-629 | regenerates exactly when enabled, not empty and some control was dirty; afterwards none is dirty; disabled or empty leaves the items; only dirty flags change |
| Scheduler.ClearDirtySettles | GUI.js:603-612 | after `isAnyItemDirty` no control is dirty, so an immediate second call returns false and changes nothing |
| Scheduler.ClearDirtyKeepsRest | GUI.js:605-610 | clearing changes nothing but the dirty flag and keeps each control well typed |
| Scheduler.IdleFramesRegenerateOnce | GUI.js:618-629 | over any run of frames with no input, the chrome is regenerated once if something was dirty at the start, else never |
| Scheduler.CleanFramesRegenerateNothing | GUI.js:618-629 | frames that start with nothing dirty never regenerate |
| Serialization.SerializeItems | GUI.js:701-707 | the keys are exactly the controls' keys (`TitleKey`) |
| Serialization.SerializeLastWins | GUI.js:703-705 | a key holds the value of the last control filed under it |
| Serialization.SerializeLookup | GUI.js:703-705 | when only controls without a bound value share keys, every control's serialised value is under its key |
| Serialization.TitleKey | GUI.js:704-704 | the key is the control's title, or `"undefined"` for a control without one |
| Serialization.Restore | GUI.js:715-719 | a control whose key holds a defined value is marked dirty and takes that value when its kind fits it; only value and dirty flag can change; any other control is kept |
| Serialization.DistinctTitlesSuffice | GUI.js:379-387 | a panel whose titles are distinct and never "undefined", and whose untitled controls hold no value, meets `UniqueTitles`, whatever number of separators it has |
| Serialization.DeserializeItems | GUI.js:714-721 | one result per control, each the control restored from the map |
| Serialization.DeserializeTouchesExactlyPresent | GUI.js:714-721 | a control whose title has a defined value becomes dirty and takes the value when its kind fits it, nothing else changes; every other control is untouched; well-typedness is kept |
| Serialization.RestoreSaved | GUI.js:701-721 | restoring a saved map (keys shared only by controls without a bound value) into a panel with the same keys and kinds gives each bound control the saved value and marks it dirty |
| Serialization.RoundTrip | GUI.js:701-721 | for a panel whose keys are shared only by controls without a bound value, deserialising its own serialisation changes no value and only dirties the controls with a bound value |
| InputLaws.DownScanSkips | GUI.js:125-126 | a scan with no control under the pointer changes nothing and reports nothing handled; otherwise it starts at the first hit |
| InputLaws.DownScanDirty | GUI.js:125-206 | every control the scan changes is dirty |
| InputLaws.DownScanFocus | GUI.js:199-204 | after a scan from an unfocused state, a focused control is the active control, is text, and the scan stopped |
| InputLaws.DownScanActiveWasHit | GUI.js:126-127 | the active control after a scan is the one before it or a control the pointer hit; an active control stays; a scan starting at a hit ends with an active control at or after it |
| InputLaws.HitMarks | GUI.js:127-132 | the hit control ends active and dirty; unless it can pass the event on, the scan stops there with it active, focus exactly for text, later controls untouched |
| InputLaws.HitStaysActive | GUI.js:127-127 | a scan starting at a hit ends with an active control at or after it |
| InputLaws.DownScanFirst | GUI.js:125-206 | the first control under the pointer is marked, and unless it can pass the event on, it stays active, the scan stops, later controls are untouched |
| InputLaws.MouseDownLaws | GUI.js:110-207 | focus is cleared and dirtied first; with no hit nothing else changes; otherwise the first hit is active and dirty; a control is active exactly after a hit and holds the point; only the active text field can have focus; every change is dirty |
| InputLaws.DownReachesFirstHit | GUI.js:113-127 | pointer-down equals the scan from the first control hit, after focus clearing |
| InputLaws.MouseDownToggle | GUI.js:136-141 | a toggle hit first flips its value and logs `onchange` with the new value |
| InputLaws.MouseDownButton | GUI.js:133-135 | a button hit first logs its `onclick` when it has one and changes no value |
| InputLaws.MouseDownRadioList | GUI.js:142-153 | a radio list hit first commits row `floor(n * hitY / height)` exactly when it is in range, and logs it; otherwise its value stays; a NaN row throws |
| InputLaws.ScanRadioList | GUI.js:142-153 | the same, for the scan that has reached the radio list |
| InputLaws.MouseDownTextureList | GUI.js:154-169 | a texture list hit first commits the last tile under the pointer and stops; with none, its value stays |
| InputLaws.MouseDownColor | GUI.js:170-204 | a colour control hit first in its palette strip takes the sampled colour, and its `onchange` call follows the earlier ones in the log; elsewhere the outcome is the drag from the marked control, handled |
| InputLaws.HitExtendsLog | GUI.js:133-201 | a hit's commit only appends to the callback log |
| InputLaws.DownScanExtendsLog | GUI.js:125-206 | a scan only appends to the callback log: earlier calls stay in order |
| InputLaws.HitPasses | GUI.js:145-195 | after a hit that passes the event on (a `continue`), the scan goes on from the next control in the state the hit left |
| InputLaws.HitCrashes | GUI.js:149-149 | a hit that throws ends the scan with `Threw` in the state the hit left |
| InputLaws.HitStops | GUI.js:202-204 | a hit that stops ends the scan with the drag from the state the hit left, handled |
| InputLaws.ActiveAfterPass | GUI.js:125-127 | after a hit that passes the event on, the rest of the scan still ends with an active control at or after the hit that the pointer is over |
| InputLaws.DirtyAfterPass | GUI.js:125-206 | after a hit that passes the event on, the controls changed so far stay dirty across the rest of the scan |
| InputLaws.FocusAfterStop | GUI.js:199-203 | the drag after a stopping hit leaves focus only on the active control, a text field |
| InputLaws.MouseDownMarks | GUI.js:110-204 | the part of `MouseDownLaws` about the controls up to the first hit and, for a hit that stops, after it |
| InputLaws.MouseDownKeeps | GUI.js:110-207 | the part of `MouseDownLaws` about the active control, focus and dirty flags |
| InputLaws.HitPalette | GUI.js:181-195 | a colour hit in the palette strip assigns the sampled colour to the marked control and passes on |
| InputLaws.ScanPalette | GUI.js:170-196 | a scan that reaches a colour control hit in its strip leaves it with the sampled colour and its `onchange` after the earlier calls |
| InputLaws.ScanColorSliders | GUI.js:197-204 | a scan that reaches a colour control hit outside the strip, or without a palette, ends with the drag from the marked state, handled |
| InputLaws.DragSlider | GUI.js:221-229 | a slider drag sets `min + t * (max - min)` for the clamped fraction, in [min, max] when the area has width; the vertical position plays no part |
| InputLaws.DragLocked | GUI.js:277-287 | once a sub-slider is locked, a drag writes that sub-slider whatever the vertical position, never samples the palette, marks the control dirty, and logs `onchange` with the new value when the control has one |
| InputLaws.DragFirstSampleLocks | GUI.js:233-244 | the first drag sample stores the sub-slider under the pointer, writes it, marks the control dirty and logs `onchange`; unless that index is NaN, every later drag at any point writes the same one |
| InputLaws.DragPalette | GUI.js:256-268 | with no lock and the pointer in the strip, a colour drag writes the sampled colour and logs it |
| InputLaws.DragAfterUp | GUI.js:298-307 | after pointer-up a drag changes nothing |
| InputLaws.MouseDownOneFocus | GUI.js:113-120 | after any pointer-down at most one control has focus |
| InputLaws.DragKeepsFocus | GUI.js:214-291 | a drag keeps every focus flag, hence at most one focus |
| InputLaws.MouseUpKeepsFocus | GUI.js:298-307 | pointer-up keeps every focus flag, hence at most one focus |
| InputLaws.KeysKeepFocus | GUI.js:314-354 | the key handlers keep every focus flag, hence at most one focus |
| InputLaws.FocusedIsTheFocus | GUI.js:315-315 | with at most one focus, the first focused text field is the focused control, and there is none exactly when no control has focus |
| InputLaws.KeyDownLaws | GUI.js:314-332 | backspace drops the last character of the focused field (an empty one stays empty), dirties it and logs it; any other key, or no focused field, changes nothing |
| InputLaws.KeyPressLaws | GUI.js:339-354 | a text whose first code is in [32, 126] is appended whole to the focused field, which is dirtied and logged; otherwise nothing changes |
| InputLaws.TypeThenDelete | GUI.js:321-347 | typing one printable character and then backspace restores the focused field's text |
| InputLaws.KeysIgnoreEnabled | GUI.js:314-354 | the key handlers act the same on a disabled panel |
| GeometryLaws.UnplacedHoldsOnlyOrigin | GUI.js:365-365 | a control still at the factories' area `[[0, 0], [0, 0]]` is hit exactly at the panel's origin |
| GeometryLaws.FalsyValues | GUI.js:137-137 | the toggle's `!value`: among the modelled values, false, 0, NaN, the empty string and undefined are exactly the false ones (`null` is folded into `Obj`, which no toggle holds) |
| GeometryLaws.BandCases | GUI.js:144-144 | `floor(count * offset / height)`: an index below `count` inside the span; `count` itself on its closed bottom end; negative above it; for zero height, NaN exactly when the numerator is 0 |
| GeometryLaws.RadioRowUnderPointer | GUI.js:143-149 | the radio row under a pointer inside the area is a row of the list, except on the bottom edge, which names one past the last, and for a list of no height, which gives NaN |
| GeometryLaws.SubSliderUnderPointer | GUI.js:247-276 | the sub-slider a drag picks inside the sliders' band is one of `SliderCount` (3, 4 with alpha, or one per multi-slider entry); the band's bottom edge names one past the last |
| GeometryLaws.PaletteStripBelowSliders | GUI.js:172-181 | the palette strip is exactly the part of the area below the sliders' band, the last `PaletteHeight` of it |
| GeometryLaws.ScaledTexel | GUI.js:182-185 | `floor(k * num / den)` for a part of the whole: a whole number from 0 to `k`, and `k` for the whole |
| GeometryLaws.PaletteTexelInImage | GUI.js:182-186 | a pointer in the strip and within the area names an integer pixel from 0 to the image's width and height; the right and bottom edges name the width and height themselves |

## Left out

- GLSL shader strings, program and mesh creation, the GL state and draw calls
  of `draw` and `drawTextures`, and `dispose`: graphics plumbing with no panel
  logic.
- The renderer (`renderer.draw`, the layout that sets active areas,
  `getImageColor`): external. `getImageColor` is the `sample` parameter, and
  areas are data that the caller sets.
- `save`/`load`: file I/O and JSON. Only `serialize`/`deserialize` are modelled.
- The bodies of `onchange` and `onclick` callbacks: only their calls are
  recorded, and re-entrant edits of the panel from a callback are not modelled.
- Two controls bound to the same field: each control holds its own copy of the
  bound value, so a write through one is not seen by the other.
- The options object that `addParam` fills in place (`options.min = 0`) is
  shared with the caller in the source; here the control keeps its own copy.
- Texture handles, `itemsPerRow`, `flipZ`, texture `options` and `setTitle`:
  they only matter to drawing.
- Floating point: numbers are exact reals with `±Infinity` and `NaN`. Rounding of
  the pixel-ratio divisions is not modelled. A zero pixel ratio is mapped to 1, as
  `pixelRatio || 1` does. A NaN ratio cannot be written, and a negative ratio is
  taken as given.
- `e.stopPropagation()`: the event object is not modelled. `Done(true)` and the
  boolean results mark where the source stops propagation.
- The caller moving `x`/`y`: the offset is a field that no handler writes.
- GuiPanel.Gui.AddParam: JavaScript's `!isNaN` coercion is abstracted. Only a
  number other than NaN makes a slider. In the source, `null`, a numeric string,
  the empty string `""` and any whitespace-only string (both coerce to 0), an
  empty array and a one-number array also pass `!isNaN` and would become
  sliders; the model makes the strings text fields.
- Widgets.ParamKind: encodes that same choice, so "string gives text" holds for
  the model's abstraction of `!isNaN`, not for the coercion itself.
- Widgets.Lerp: `GUIControl.setNormalizedValue` is not part of this model; the
  model assumes `min + t * (max - min)`.
- Widgets.SetSerialized: `setSerializedValue` is not part of this model. The
  model assumes it stores a value of the kind's shape and ignores any other.
- Input.KeyDown: strings are sequences of Unicode characters, not of UTF-16
  code units. For a last character outside the Basic Multilingual Plane,
  backspace in the source (`substr` on code units) removes only its low
  surrogate; the model removes the whole character.
- Input.Printable: `charCodeAt(0)` is a UTF-16 code unit. A text starting with a
  character outside the Basic Multilingual Plane starts with a surrogate in the
  source and is not printable there; in the model its code point is tested,
  which is not printable either, as every such code point is above 126.
- Serialization.Present: `data` is a map from strings to values. Keys that a
  JavaScript object inherits from `Object.prototype` are not modelled: in the
  source a control titled `constructor` or `toString` finds a function in any
  `data` object, and `serialize` assigning `data["__proto__"]` sets the
  object's prototype instead of adding a key.
- Widgets.Image: palette images have a positive width and height. With a zero
  width or height the source's `aaWidth * ih / iw` is infinite or NaN, and the
  strip test and pixel coordinates follow from that; the model does not cover
  such images.
- Widgets.SetAt: an index that is not an entry's writes nothing. In
  JavaScript an index equal to the length appends an entry (and a larger one
  leaves holes in the array). A drag on a multi-slider's bottom edge names
  exactly that index (`GeometryLaws.SubSliderUnderPointer`).
- Widgets.Options: `palette` stands for two option keys, the flag
  `options.palette` and the image `options.paletteImage`. `Some` means both
  are set. Nothing in `GUI.js` sets `paletteImage`. With the flag set and no
  image, reading its width throws a TypeError in `onMouseDown` (the control
  stays marked active and dirty) and in `onMouseDrag`. The model has no such
  state, so that error path is not modelled.
