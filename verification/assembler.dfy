/** The status walk over a role's traits. */
module Assembler {
  import opened Agreement
  import opened Lists
  import opened Overlays
  import opened Wrappers

  /** The layers that are set, in order. */
  function Present(layers: seq<Option<Overlay>>): seq<Overlay> {
    if layers == [] then []
    else Present(layers[..|layers| - 1]) +
         (if layers[|layers| - 1].None? then [] else [layers[|layers| - 1].value])
  }

  lemma OneMoreEdit(base: seq<Name>, done: seq<Edit>, edits: seq<Edit>, i: nat)
    requires i < |edits|
    ensures EditedIfAbsent(base, done + edits[..i + 1]) == EditedIfAbsent(base, done + edits[..i] + [edits[i]])
  {
    assert done + edits[..i + 1] == done + edits[..i] + [edits[i]];
  }

  /** One layer: present names are removed, absent ones appended. */
  method ApplyLayer(before: seq<Name>, layer: Overlay, ghost base: seq<Name>, ghost done: seq<Edit>)
      returns (traits: seq<Name>)
    requires before == EditedIfAbsent(base, done)
    ensures traits == EditedIfAbsent(base, done + Removals(layer.removeTraits) + Additions(layer.addTraits))
  {
    traits := before;
    ghost var removals, additions := Removals(layer.removeTraits), Additions(layer.addTraits);
    assert done + removals[..0] == done;
    for i := 0 to |layer.removeTraits|
      invariant traits == EditedIfAbsent(base, done + removals[..i])
    {
      OneMoreEdit(base, done, removals, i);
      EditedSnoc(base, done + removals[..i], removals[i]);
      if layer.removeTraits[i] in traits {
        traits := RemoveFirst(traits, layer.removeTraits[i]);
      }
    }
    assert removals[..|removals|] == removals;
    ghost var removed := done + removals;
    assert removed + additions[..0] == removed;
    for i := 0 to |layer.addTraits|
      invariant traits == EditedIfAbsent(base, removed + additions[..i])
    {
      OneMoreEdit(base, removed, additions, i);
      EditedSnoc(base, removed + additions[..i], additions[i]);
      if layer.addTraits[i] !in traits {
        traits := traits + [layer.addTraits[i]];
      }
    }
    assert additions[..|additions|] == additions;
  }

  lemma PresentSnoc(layers: seq<Option<Overlay>>, k: nat)
    requires k < |layers|
    ensures Present(layers[..k + 1]) ==
            if layers[k].None? then Present(layers[..k]) else Present(layers[..k]) + [layers[k].value]
  {
    assert layers[..k + 1][..k] == layers[..k];
    assert Present(layers[..k]) + [] == Present(layers[..k]);
  }

  method EffectiveTraits(base: Option<seq<Name>>, layers: seq<Option<Overlay>>) returns (traits: seq<Name>)
    ensures traits == EditedIfAbsent(if base.Some? then base.value else [], Edits(Present(layers), Traits))
  {
    traits := if base.Some? then base.value else [];
    ghost var start := traits;
    for k := 0 to |layers|
      invariant traits == EditedIfAbsent(start, Edits(Present(layers[..k]), Traits))
    {
      PresentSnoc(layers, k);
      if layers[k].Some? {
        EditsSnoc(Present(layers[..k]), layers[k].value, Traits);
        traits := ApplyLayer(traits, layers[k].value, start, Edits(Present(layers[..k]), Traits));
      }
    }
    assert layers[..|layers|] == layers;
  }

  /**
   The traits shown are the traits composed, in the composer's visiting order, when no
   last removal leaves one behind.
  */
  lemma ShownIsComposed(base: seq<Name>, layers: seq<Overlay>)
    requires Distinct(base) && NothingLeft(base, Edits(layers, Traits))
    ensures EditedIfAbsent(base, Edits(layers, Traits)) == Dedup(Edited(base, Edits(layers, Traits)))
  {
    ResultsAgree(base, Edits(layers, Traits));
  }
}
