/**
 Customization overlays: each layer removes and then adds names in a role's lists.

 Two walks over the same edits exist.  The composer keeps a plain list: a removal
 takes one occurrence and an addition always appends.  The status walk adds a name
 only when it is absent.
 */
module Overlays {
  import opened Lists

  type Name = string

  /** The three lists that a role declares. */
  datatype Kind = Traits | Rules | Skills

  datatype Overlay = Overlay(
    addTraits: seq<Name>, addRules: seq<Name>, addSkills: seq<Name>,
    removeTraits: seq<Name>, removeRules: seq<Name>, removeSkills: seq<Name>)

  datatype Edit = Remove(name: Name) | Add(name: Name)

  function Removals(names: seq<Name>): seq<Edit> {
    seq(|names|, i requires 0 <= i < |names| => Remove(names[i]))
  }

  function Additions(names: seq<Name>): seq<Edit> {
    seq(|names|, i requires 0 <= i < |names| => Add(names[i]))
  }

  function Removed(layer: Overlay, kind: Kind): seq<Name> {
    match kind
    case Traits => layer.removeTraits
    case Rules => layer.removeRules
    case Skills => layer.removeSkills
  }

  function Added(layer: Overlay, kind: Kind): seq<Name> {
    match kind
    case Traits => layer.addTraits
    case Rules => layer.addRules
    case Skills => layer.addSkills
  }

  /** The edits of all layers to one of the three lists, in the order they are applied. */
  function Edits(layers: seq<Overlay>, kind: Kind): seq<Edit> {
    if layers == [] then []
    else
      var last := layers[|layers| - 1];
      Edits(layers[..|layers| - 1], kind) + Removals(Removed(last, kind)) + Additions(Added(last, kind))
  }

  lemma EditsSnoc(layers: seq<Overlay>, layer: Overlay, kind: Kind)
    ensures Edits(layers + [layer], kind) ==
            Edits(layers, kind) + Removals(Removed(layer, kind)) + Additions(Added(layer, kind))
  {
    assert (layers + [layer])[..|layers|] == layers;
  }

  // ------------------------------------------------------------- the two walks

  /** The list the composer is left with. */
  function Edited(base: seq<Name>, edits: seq<Edit>): seq<Name> {
    if edits == [] then base
    else
      var before := Edited(base, edits[..|edits| - 1]);
      match edits[|edits| - 1]
      case Remove(n) => RemoveFirst(before, n)
      case Add(n) => before + [n]
  }

  /** The list the status walk is left with. */
  function EditedIfAbsent(base: seq<Name>, edits: seq<Edit>): seq<Name> {
    if edits == [] then base
    else
      var before := EditedIfAbsent(base, edits[..|edits| - 1]);
      match edits[|edits| - 1]
      case Remove(n) => RemoveFirst(before, n)
      case Add(n) => if n in before then before else before + [n]
  }

  lemma EditedSnoc(base: seq<Name>, edits: seq<Edit>, e: Edit)
    ensures Edited(base, edits + [e]) ==
            if e.Remove? then RemoveFirst(Edited(base, edits), e.name) else Edited(base, edits) + [e.name]
    ensures EditedIfAbsent(base, edits + [e]) ==
            if e.Remove? then RemoveFirst(EditedIfAbsent(base, edits), e.name)
            else if e.name in EditedIfAbsent(base, edits) then EditedIfAbsent(base, edits)
            else EditedIfAbsent(base, edits) + [e.name]
  {
    assert (edits + [e])[..|edits|] == edits;
  }

  lemma AdditionsSnoc(names: seq<Name>, n: Name)
    ensures Additions(names + [n]) == Additions(names) + [Add(n)]
  {
  }

  lemma {:induction false} EditedAdditions(base: seq<Name>, edits: seq<Edit>, names: seq<Name>)
    ensures Edited(base, edits + Additions(names)) == Edited(base, edits) + names
  {
    if names == [] {
      assert edits + Additions(names) == edits;
      assert Edited(base, edits) + names == Edited(base, edits);
    } else {
      var front, last := names[..|names| - 1], names[|names| - 1];
      assert names == front + [last];
      EditedAdditions(base, edits, front);
      AdditionsSnoc(front, last);
      Assoc(edits, Additions(front), [Add(last)]);
      EditedSnoc(base, edits + Additions(front), Add(last));
      Assoc(Edited(base, edits), front, [last]);
    }
  }

  // -------------------------------------------------- what removals were asked and met

  ghost predicate Requested(edits: seq<Edit>, n: Name) {
    Remove(n) in edits
  }

  /** Edit `k` removes `n`, and finds it in the list or not. */
  ghost predicate RemovalAt(base: seq<Name>, edits: seq<Edit>, k: int, n: Name, found: bool) {
    0 <= k < |edits| && edits[k] == Remove(n) && (n in Edited(base, edits[..k]) <==> found)
  }

  ghost predicate Met(base: seq<Name>, edits: seq<Edit>, n: Name, found: bool) {
    exists k :: RemovalAt(base, edits, k, n, found)
  }

  /** Some removal of `n` found it in the list. */
  ghost predicate Hit(base: seq<Name>, edits: seq<Edit>, n: Name) {
    Met(base, edits, n, true)
  }

  /** Some removal of `n` did not find it in the list. */
  ghost predicate Missed(base: seq<Name>, edits: seq<Edit>, n: Name) {
    Met(base, edits, n, false)
  }

  lemma RemovalAtSnoc(base: seq<Name>, edits: seq<Edit>, e: Edit, k: int, n: Name, found: bool)
    ensures RemovalAt(base, edits + [e], k, n, found) <==>
            RemovalAt(base, edits, k, n, found)
            || (k == |edits| && e == Remove(n) && (n in Edited(base, edits) <==> found))
  {
    if 0 <= k <= |edits| {
      assert (edits + [e])[..k] == edits[..k];
      assert edits[..|edits|] == edits;
    }
  }

  lemma MetSnoc(base: seq<Name>, edits: seq<Edit>, e: Edit, n: Name, found: bool)
    ensures Met(base, edits + [e], n, found) <==>
            Met(base, edits, n, found) || (e == Remove(n) && (n in Edited(base, edits) <==> found))
  {
    var all := edits + [e];
    if Met(base, all, n, found) {
      var k :| RemovalAt(base, all, k, n, found);
      RemovalAtSnoc(base, edits, e, k, n, found);
    }
    if Met(base, edits, n, found) {
      var k :| RemovalAt(base, edits, k, n, found);
      RemovalAtSnoc(base, edits, e, k, n, found);
    }
    RemovalAtSnoc(base, edits, e, |edits|, n, found);
  }

  lemma RemovalOutcome(base: seq<Name>, edits: seq<Edit>, e: Edit, n: Name)
    ensures Requested(edits + [e], n) <==> Requested(edits, n) || e == Remove(n)
    ensures Hit(base, edits + [e], n) <==> Hit(base, edits, n) || (e == Remove(n) && n in Edited(base, edits))
    ensures Missed(base, edits + [e], n) <==> Missed(base, edits, n) || (e == Remove(n) && n !in Edited(base, edits))
  {
    MetSnoc(base, edits, e, n, true);
    MetSnoc(base, edits, e, n, false);
  }

  /** The same three as sets, kept as the edits go by. */
  ghost function Requests(edits: seq<Edit>): set<Name> {
    if edits == [] then {}
    else
      var e := edits[|edits| - 1];
      Requests(edits[..|edits| - 1]) + (if e.Remove? then {e.name} else {})
  }

  ghost function Hits(base: seq<Name>, edits: seq<Edit>): set<Name> {
    if edits == [] then {}
    else
      var before, e := edits[..|edits| - 1], edits[|edits| - 1];
      Hits(base, before) + (if e.Remove? && e.name in Edited(base, before) then {e.name} else {})
  }

  lemma RemovalSnoc(base: seq<Name>, edits: seq<Edit>, e: Edit)
    ensures Requests(edits + [e]) == Requests(edits) + (if e.Remove? then {e.name} else {})
    ensures Hits(base, edits + [e]) == Hits(base, edits)
        + (if e.Remove? && e.name in Edited(base, edits) then {e.name} else {})
  {
    assert (edits + [e])[..|edits|] == edits;
  }

  lemma {:induction false} RemovalSets(base: seq<Name>, edits: seq<Edit>, n: Name)
    ensures n in Requests(edits) <==> Requested(edits, n)
    ensures n in Hits(base, edits) <==> Hit(base, edits, n)
  {
    if edits != [] {
      var before, e := edits[..|edits| - 1], edits[|edits| - 1];
      RemovalSets(base, before, n);
      assert edits == before + [e];
      RemovalOutcome(base, before, e, n);
    }
  }

  lemma {:induction false} AdditionsRemoveNothing(base: seq<Name>, edits: seq<Edit>, add: seq<Name>)
    ensures Requests(edits + Additions(add)) == Requests(edits)
    ensures Hits(base, edits + Additions(add)) == Hits(base, edits)
    ensures forall n :: Missed(base, edits + Additions(add), n) <==> Missed(base, edits, n)
  {
    if add == [] {
      assert edits + Additions(add) == edits;
    } else {
      var front, last := add[..|add| - 1], Add(add[|add| - 1]);
      AdditionsRemoveNothing(base, edits, front);
      assert edits + Additions(add) == edits + Additions(front) + [last];
      RemovalSnoc(base, edits + Additions(front), last);
      forall n
        ensures Missed(base, edits + Additions(front) + [last], n) <==> Missed(base, edits + Additions(front), n)
      {
        RemovalOutcome(base, edits + Additions(front), last, n);
      }
    }
  }
}
