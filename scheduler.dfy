/**
 * The dirty-tracking render gate: the widget chrome is regenerated in a frame
 * only when some control changed since the last regeneration.
 */
module Scheduler {
  import opened Widgets

  predicate AnyDirty(s: seq<Control>)
  {
    exists i :: 0 <= i < |s| && s[i].dirty
  }

  /** Every control with its dirty flag cleared. */
  function ClearDirty(s: seq<Control>): (r: seq<Control>)
    ensures |r| == |s|
    ensures forall i :: 0 <= i < |s| ==> r[i] == s[i].(dirty := false)
  {
    if s == [] then [] else [s[0].(dirty := false)] + ClearDirty(s[1..])
  }

  /**
   * The gate of one `draw` call: nothing happens when the panel is disabled or
   * empty; otherwise every dirty flag is cleared, and the chrome is
   * regenerated exactly when some flag was set.
   */
  function DrawStep(items: seq<Control>, enabled: bool): (r: (seq<Control>, bool))
    ensures r.1 <==> enabled && |items| > 0 && AnyDirty(items)
    ensures enabled && |items| > 0 ==> !AnyDirty(r.0)
    ensures !(enabled && |items| > 0) ==> r.0 == items
    ensures |r.0| == |items| && forall i :: 0 <= i < |items| ==> r.0[i] == items[i].(dirty := r.0[i].dirty)
  {
    if !enabled || |items| == 0 then (items, false)
    else (ClearDirty(items), AnyDirty(items))
  }

  /** After `isAnyItemDirty` no control is dirty, so an immediate second call reports false. */
  lemma {:induction false} ClearDirtySettles(s: seq<Control>)
    ensures !AnyDirty(ClearDirty(s))
    ensures ClearDirty(ClearDirty(s)) == ClearDirty(s)
  {
    var r := ClearDirty(s);
    forall i | 0 <= i < |r| ensures !r[i].dirty { }
    assert |ClearDirty(r)| == |r|;
    forall i | 0 <= i < |r| ensures ClearDirty(r)[i] == r[i] { }
  }

  /** Clearing the flags changes nothing but the flags. */
  lemma ClearDirtyKeepsRest(s: seq<Control>, i: nat)
    requires i < |s|
    ensures ClearDirty(s)[i] == s[i].(dirty := ClearDirty(s)[i].dirty)
    ensures WellTyped(s[i]) ==> WellTyped(ClearDirty(s)[i])
  {
  }

  /** How many of `n` consecutive frames with no input in between regenerate the chrome. */
  function Regenerations(items: seq<Control>, enabled: bool, n: nat): nat
    decreases n
  {
    if n == 0 then 0
    else
      var (next, regen) := DrawStep(items, enabled);
      (if regen then 1 else 0) + Regenerations(next, enabled, n - 1)
  }

  /**
   * Dirty batching: across any number of idle frames the chrome is regenerated
   * once, in the first frame, when something was dirty, and never otherwise.
   */
  lemma {:induction false} IdleFramesRegenerateOnce(items: seq<Control>, enabled: bool, n: nat)
    requires n >= 1
    ensures Regenerations(items, enabled, n) ==
            if enabled && |items| > 0 && AnyDirty(items) then 1 else 0
  {
    CleanFramesRegenerateNothing(DrawStep(items, enabled).0, enabled, n - 1);
  }

  lemma {:induction false} CleanFramesRegenerateNothing(items: seq<Control>, enabled: bool, n: nat)
    requires !(enabled && |items| > 0 && AnyDirty(items))
    ensures Regenerations(items, enabled, n) == 0
    decreases n
  {
    if n > 0 {
      var next := DrawStep(items, enabled).0;
      if enabled && |items| > 0 {
        ClearDirtySettles(items);
      }
      CleanFramesRegenerateNothing(next, enabled, n - 1);
    }
  }
}
