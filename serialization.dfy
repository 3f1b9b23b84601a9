/**
 * Save and restore of control values, keyed by title and independent of
 * geometry.
 */
module Serialization {
  import opened Wrappers
  import opened Widgets

  /** The key `data[item.title]` uses: a control without a title (a separator) is filed under "undefined". */
  function TitleKey(c: Control): (key: string)
    ensures c.title.Some? ==> key == c.title.value
    ensures c.title.None? ==> key == "undefined"
  {
    match c.title
    case Some(t) => t
    case None => "undefined"
  }

  /**
   * The documented invariant callers must respect, as far as saving depends
   * on it: a key that a control with a bound value uses belongs to no other
   * control. Controls without a value (separators, which all share the key
   * "undefined", headers, labels, buttons) may share keys with each other.
   */
  predicate UniqueTitles(s: seq<Control>)
  {
    forall i, j :: 0 <= i < |s| && 0 <= j < |s| && i != j && TitleKey(s[i]) == TitleKey(s[j]) ==> !Bound(s[i].kind)
  }

  /**
   * A panel whose titles are distinct and never "undefined", and whose
   * untitled controls hold no value (the factories build every separator so),
   * meets `UniqueTitles`, however many separators it has.
   */
  lemma DistinctTitlesSuffice(s: seq<Control>)
    requires forall i, j :: 0 <= i < j < |s| && s[i].title.Some? && s[j].title.Some? ==> s[i].title != s[j].title
    requires forall i :: 0 <= i < |s| ==> s[i].title != Some("undefined")
    requires forall i :: 0 <= i < |s| && s[i].title.None? ==> !Bound(s[i].kind)
    ensures UniqueTitles(s)
  {
    forall i, j | 0 <= i < |s| && 0 <= j < |s| && i != j && TitleKey(s[i]) == TitleKey(s[j])
      ensures !Bound(s[i].kind)
    {
      if i > j {
        assert s[j].title.Some? && s[i].title.Some? ==> s[j].title != s[i].title;
      }
    }
  }

  /** `serialize`: every control's serialised value under its key, written in order. */
  function SerializeItems(s: seq<Control>): (m: map<string, Value>)
    ensures m.Keys == set i | 0 <= i < |s| :: TitleKey(s[i])
    decreases |s|
  {
    if s == [] then map[]
    else
      var init := s[..|s| - 1];
      var m := SerializeItems(init)[TitleKey(s[|s| - 1]) := Serialized(s[|s| - 1])];
      assert m.Keys == (set i | 0 <= i < |init| :: TitleKey(init[i])) + {TitleKey(s[|s| - 1])};
      assert forall i :: 0 <= i < |init| ==> init[i] == s[i];
      m
  }

  /** A key holds the value of the last control filed under it: when titles repeat, later controls overwrite earlier ones. */
  lemma {:induction false} SerializeLastWins(s: seq<Control>, i: nat)
    requires i < |s|
    requires forall j :: i < j < |s| ==> TitleKey(s[j]) != TitleKey(s[i])
    ensures SerializeItems(s)[TitleKey(s[i])] == Serialized(s[i])
    decreases |s|
  {
    if i < |s| - 1 {
      var init := s[..|s| - 1];
      assert init[i] == s[i];
      assert forall j :: i < j < |init| ==> init[j] == s[j];
      SerializeLastWins(init, i);
    }
  }

  /** With unique titles, every control's value is found under its own key. */
  lemma {:induction false} SerializeLookup(s: seq<Control>, i: nat)
    requires UniqueTitles(s) && i < |s|
    ensures TitleKey(s[i]) in SerializeItems(s)
    ensures SerializeItems(s)[TitleKey(s[i])] == Serialized(s[i])
    decreases |s| - i
  {
    if j :| i < j < |s| && TitleKey(s[j]) == TitleKey(s[i]) {
      // a later control shares the key, so neither has a value
      SerializeLookup(s, j);
    } else {
      SerializeLastWins(s, i);
    }
  }

  /** `data[key] !== undefined`: the map holds a value for the key. */
  predicate Present(data: map<string, Value>, key: string)
  {
    key in data && data[key] != Undefined
  }

  /** `deserialize` for one control: a present key is written back through `setSerializedValue` and marks the control dirty. */
  function Restore(c: Control, data: map<string, Value>): (d: Control)
    ensures d == c.(value := d.value, dirty := d.dirty)
    ensures d.dirty == (c.dirty || Present(data, TitleKey(c)))
    ensures d.value == (if Present(data, TitleKey(c)) && Bound(c.kind) && Fits(c.kind, data[TitleKey(c)])
                        then data[TitleKey(c)] else c.value)
  {
    if Present(data, TitleKey(c)) then SetSerialized(c, data[TitleKey(c)]).(dirty := true) else c
  }

  /** `deserialize`: Restore applied to every control, in order. */
  function DeserializeItems(s: seq<Control>, data: map<string, Value>): (r: seq<Control>)
    ensures |r| == |s|
    ensures forall i :: 0 <= i < |s| ==> r[i] == Restore(s[i], data)
  {
    if s == [] then [] else [Restore(s[0], data)] + DeserializeItems(s[1..], data)
  }

  /**
   * Deserialisation touches exactly the controls whose key is present: those
   * become dirty and may take the stored value (nothing else of them changes);
   * every other control is left exactly as it was.
   */
  lemma DeserializeTouchesExactlyPresent(s: seq<Control>, data: map<string, Value>, i: nat)
    requires i < |s|
    ensures var r := DeserializeItems(s, data)[i];
            if Present(data, TitleKey(s[i])) then
              && r == s[i].(value := r.value, dirty := true)
              && r.value == (if Bound(s[i].kind) && Fits(s[i].kind, data[TitleKey(s[i])])
                             then data[TitleKey(s[i])] else s[i].value)
            else r == s[i]
    ensures WellTyped(s[i]) ==> WellTyped(DeserializeItems(s, data)[i])
  {
  }

  /**
   * Restoring a saved map into a panel built the same way (same keys and
   * kinds in the same order) gives every bound control the saved value; the
   * rest of each control is kept, apart from the dirty flag.
   */
  lemma {:induction false} RestoreSaved(saved: seq<Control>, target: seq<Control>, i: nat)
    requires UniqueTitles(saved)
    requires |target| == |saved| && i < |saved|
    requires forall j :: 0 <= j < |saved| ==> TitleKey(target[j]) == TitleKey(saved[j]) && target[j].kind == saved[j].kind
    requires WellTyped(saved[i])
    ensures var r := DeserializeItems(target, SerializeItems(saved))[i];
            if Serialized(saved[i]) == Undefined then r == target[i]
            else r == target[i].(value := saved[i].value, dirty := true)
  {
    SerializeLookup(saved, i);
    assert TitleKey(target[i]) == TitleKey(saved[i]);
  }

  /**
   * Round trip: deserialising a panel's own serialisation changes no value; it
   * only marks dirty the controls that have a bound value.
   */
  lemma {:induction false} RoundTrip(s: seq<Control>)
    requires UniqueTitles(s)
    requires forall i :: 0 <= i < |s| ==> WellTyped(s[i])
    ensures var r := DeserializeItems(s, SerializeItems(s));
            && |r| == |s|
            && forall i :: 0 <= i < |s| ==>
                 r[i].value == s[i].value &&
                 r[i] == (if Serialized(s[i]) == Undefined then s[i] else s[i].(dirty := true))
  {
    forall i | 0 <= i < |s|
      ensures DeserializeItems(s, SerializeItems(s))[i] ==
              (if Serialized(s[i]) == Undefined then s[i] else s[i].(dirty := true))
    {
      RestoreSaved(s, s, i);
    }
  }
}
