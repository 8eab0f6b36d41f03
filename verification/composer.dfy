/**
 The composition engine: a role's overlaid lists are resolved against a library
 into rules, skills and errors.

 The engine works in place on accumulators and seen-sets.  `IsComposition` says
 what it produces without them: first occurrences, minus what a removal took, and
 the errors in the order in which they are met.
 */
module Composer {
  import opened Lists
  import opened Overlays

  /** The lists of a role or a trait. */
  datatype Declared = Declared(traits: seq<Name>, rules: seq<Name>, skills: seq<Name>)

  function Own(d: Declared, kind: Kind): seq<Name> {
    match kind
    case Traits => d.traits
    case Rules => d.rules
    case Skills => d.skills
  }

  /** What is composed in the end: rules and skills. */
  type Part = k: Kind | !k.Traits? witness Rules

  type Index = map<Name, string>

  datatype Library = Library(roles: map<Name, Declared>, traits: map<Name, Declared>, rules: Index, skills: Index)

  function IndexOfPart(lib: Library, part: Part): Index {
    if part.Rules? then lib.rules else lib.skills
  }

  datatype Component = Component(name: Name, source: string)

  datatype Error =
    | RoleNotFound(name: Name)
    | SubTraits(name: Name)
    | NotFound(kind: Kind, name: Name)
    | CannotRemove(kind: Kind, name: Name)
  {
    /** Declared content is missing from the result. */
    predicate Lossy() {
      !CannotRemove?
    }
  }

  datatype Composition = Composition(role: Name, rules: seq<Component>, skills: seq<Component>, errors: seq<Error>)

  function Items(c: Composition, part: Part): seq<Component> {
    if part.Rules? then c.rules else c.skills
  }

  // ------------------------------------------------------------- specification

  /** The components of the names that the index knows. */
  function Resolved(names: seq<Name>, index: Index): seq<Component> {
    if names == [] then []
    else
      var n := names[|names| - 1];
      Resolved(names[..|names| - 1], index) + (if n in index then [Component(n, index[n])] else [])
  }

  lemma {:induction false} ResolvedNames(names: seq<Name>, index: Index, c: Component)
    ensures c in Resolved(names, index) <==> c.name in names && c.name in index && c.source == index[c.name]
  {
    if names != [] {
      ResolvedNames(names[..|names| - 1], index, c);
      assert names == names[..|names| - 1] + [names[|names| - 1]];
    }
  }

  /** The components whose name was not dropped. */
  function Undropped(items: seq<Component>, dropped: set<Name>): seq<Component> {
    if items == [] then []
    else
      var c := items[|items| - 1];
      Undropped(items[..|items| - 1], dropped) + (if c.name in dropped then [] else [c])
  }

  lemma {:induction false} UndroppedNone(items: seq<Component>)
    ensures Undropped(items, {}) == items
  {
    if items != [] {
      UndroppedNone(items[..|items| - 1]);
    }
  }

  /** Dropping components by name is the same as not declaring those names. */
  lemma {:induction false} UndroppedResolved(names: seq<Name>, index: Index, dropped: set<Name>)
    ensures Undropped(Resolved(names, index), dropped) == Resolved(Filter(names, n => n !in dropped), index)
  {
    if names != [] {
      var front, n := names[..|names| - 1], names[|names| - 1];
      assert names == front + [n];
      UndroppedResolved(front, index, dropped);
      FilterSnoc(front, n, m => m !in dropped);
      if n in index {
        var found := Resolved(front, index);
        assert (found + [Component(n, index[n])])[..|found|] == found;
      } else {
        assert Resolved(front, index) + [] == Resolved(front, index);
      }
      if n !in dropped {
        var kept := Filter(front, m => m !in dropped);
        assert (kept + [n])[..|kept|] == kept;
      } else {
        assert Filter(front, m => m !in dropped) + [] == Filter(front, m => m !in dropped);
      }
    }
  }

  /** What an overlay removal takes: names it asked for that the role's final list does not restate. */
  ghost predicate Dropped(base: seq<Name>, edits: seq<Edit>, n: Name) {
    Requested(edits, n) && n !in Edited(base, edits)
  }

  /** A removal that met nothing: not in the role's lists at any removal, and not composed. */
  ghost predicate Refused(base: seq<Name>, edits: seq<Edit>, offered: seq<Name>, index: Index, n: Name) {
    Dropped(base, edits, n) && !Hit(base, edits, n) && !(n in offered && n in index)
  }

  predicate Composable(lib: Library, t: Name) {
    t in lib.traits && lib.traits[t].traits == []
  }

  /** The rules (skills) that the composable ones among `visited` bring, in order. */
  function Brought(lib: Library, visited: seq<Name>, part: Part): seq<Name> {
    if visited == [] then []
    else
      var before, t := Brought(lib, visited[..|visited| - 1], part), visited[|visited| - 1];
      if Composable(lib, t) then before + Own(lib.traits[t], part) else before
  }

  lemma BroughtSnoc(lib: Library, visited: seq<Name>, t: Name, part: Part)
    ensures Brought(lib, visited + [t], part) ==
            if Composable(lib, t) then Brought(lib, visited, part) + Own(lib.traits[t], part)
                else Brought(lib, visited, part)
  {
    assert (visited + [t])[..|visited|] == visited;
  }

  /** The role's list after all layers. */
  function Final(role: Declared, layers: seq<Overlay>, kind: Kind): seq<Name> {
    Edited(Own(role, kind), Edits(layers, kind))
  }

  /** The traits in the order in which they are resolved. */
  function Visited(role: Declared, layers: seq<Overlay>): seq<Name> {
    Dedup(Final(role, layers, Traits))
  }

  /** Every rule (skill) named by a composed trait and then by the role. */
  function Offered(lib: Library, role: Declared, layers: seq<Overlay>, part: Part): seq<Name> {
    Brought(lib, Visited(role, layers), part) + Final(role, layers, part)
  }

  /** `items` are the first occurrences among `offered` that resolve and were not dropped. */
  ghost predicate Composed(items: seq<Component>, offered: seq<Name>, index: Index, base: seq<Name>, edits: seq<Edit>) {
    items == Resolved(Filter(Dedup(offered), n => !Dropped(base, edits, n)), index)
  }

  // ------------------------------------------------------------ the errors in order

  function NotFounds(names: seq<Name>, kind: Kind): seq<Error> {
    seq(|names|, i requires 0 <= i < |names| => NotFound(kind, names[i]))
  }

  function CannotRemoves(names: seq<Name>, kind: Kind): seq<Error> {
    seq(|names|, i requires 0 <= i < |names| => CannotRemove(kind, names[i]))
  }

  /** The trait removals that find nothing. */
  function Misses(base: seq<Name>, edits: seq<Edit>): seq<Name> {
    if edits == [] then []
    else
      var front, last := edits[..|edits| - 1], edits[|edits| - 1];
      var before := Misses(base, front);
      if last.Remove? && last.name !in Edited(base, front) then before + [last.name] else before
  }

  lemma MissesSnoc(base: seq<Name>, edits: seq<Edit>, e: Edit)
    ensures Misses(base, edits + [e]) ==
            if e.Remove? && e.name !in Edited(base, edits) then Misses(base, edits) + [e.name] else Misses(base, edits)
  {
    assert (edits + [e])[..|edits|] == edits;
  }

  /** The names, each once, that were not offered before and that the index lacks. */
  function Lost(names: seq<Name>, before: seq<Name>, index: Index): seq<Name> {
    if names == [] then []
    else
      var front, n := names[..|names| - 1], names[|names| - 1];
      var lost := Lost(front, before, index);
      if n in before || n in front || n in index then lost else lost + [n]
  }

  /** What one trait reports, `rules` and `skills` having been offered before it. */
  function TraitReports(lib: Library, t: Name, rules: seq<Name>, skills: seq<Name>): seq<Error> {
    if t !in lib.traits then [NotFound(Traits, t)]
    else if lib.traits[t].traits != [] then [SubTraits(t)]
    else
      NotFounds(Lost(lib.traits[t].rules, rules, lib.rules), Rules)
      + NotFounds(Lost(lib.traits[t].skills, skills, lib.skills), Skills)
  }

  function TraitErrors(lib: Library, visited: seq<Name>): seq<Error> {
    if visited == [] then []
    else
      var front, t := visited[..|visited| - 1], visited[|visited| - 1];
      TraitErrors(lib, front) + TraitReports(lib, t, Brought(lib, front, Rules), Brought(lib, front, Skills))
  }

  lemma TraitErrorsSnoc(lib: Library, visited: seq<Name>, t: Name)
    ensures TraitErrors(lib, visited + [t]) ==
            TraitErrors(lib, visited) +
            TraitReports(lib, t, Brought(lib, visited, Rules), Brought(lib, visited, Skills))
  {
    assert (visited + [t])[..|visited|] == visited;
  }

  /** The refused removals, each once; the original walks a set, in whatever order. */
  ghost predicate RefusedOnce(names: seq<Name>, base: seq<Name>, edits: seq<Edit>, offered: seq<Name>, index: Index) {
    Distinct(names) && forall n :: n in names <==> Refused(base, edits, offered, index, n)
  }

  /** What the role's own list of one kind reports. */
  function OwnErrors(lib: Library, role: Declared, layers: seq<Overlay>, part: Part, refused: seq<Name>): seq<Error> {
    NotFounds(Lost(Final(role, layers, part), Brought(lib, Visited(role, layers), part), IndexOfPart(lib, part)), part)
    + CannotRemoves(refused, part)
  }

  ghost predicate RefusedAre(lib: Library, role: Declared, layers: seq<Overlay>, part: Part, refused: seq<Name>) {
    RefusedOnce(refused, Own(role, part), Edits(layers, part), Offered(lib, role, layers, part), IndexOfPart(lib, part))
  }

  /** All errors, in the order in which they are met. */
  function AllErrors(lib: Library, role: Declared, layers: seq<Overlay>, rules: seq<Name>,
      skills: seq<Name>): seq<Error> {
    CannotRemoves(Misses(role.traits, Edits(layers, Traits)), Traits)
    + TraitErrors(lib, Visited(role, layers))
    + OwnErrors(lib, role, layers, Rules, rules)
    + OwnErrors(lib, role, layers, Skills, skills)
  }

  ghost predicate Reports(lib: Library, role: Declared, layers: seq<Overlay>, errors: seq<Error>) {
    exists rules, skills ::
      && RefusedAre(lib, role, layers, Rules, rules) && RefusedAre(lib, role, layers, Skills, skills)
      && errors == AllErrors(lib, role, layers, rules, skills)
  }

  ghost predicate PartComposed(lib: Library, role: Declared, layers: seq<Overlay>, part: Part, items: seq<Component>) {
    Composed(items, Offered(lib, role, layers, part), IndexOfPart(lib, part), Own(role, part), Edits(layers, part))
  }

  ghost predicate IsComposition(lib: Library, name: Name, layers: seq<Overlay>, c: Composition) {
    && c.role == name
    && (name !in lib.roles ==> c.rules == [] && c.skills == [] && c.errors == [RoleNotFound(name)])
    && (name in lib.roles ==>
          var role := lib.roles[name];
          && PartComposed(lib, role, layers, Rules, c.rules)
          && PartComposed(lib, role, layers, Skills, c.skills)
          && Reports(lib, role, layers, c.errors))
  }

  // ----------------------------------------------------------------- the engine

  ghost predicate Accumulated(seen: set<Name>, items: seq<Component>, offered: seq<Name>, index: Index) {
    seen == Elems(offered) && items == Resolved(Dedup(offered), index)
  }

  /** One more name: seen before, unknown, or a new component. */
  lemma AccumulatedSnoc(seen: set<Name>, items: seq<Component>, offered: seq<Name>, index: Index, n: Name)
    requires Accumulated(seen, items, offered, index)
    ensures n in seen <==> n in offered
    ensures n in seen ==> Accumulated(seen, items, offered + [n], index)
    ensures n !in seen && n in index ==> Accumulated(seen + {n}, items + [Component(n, index[n])], offered + [n], index)
    ensures n !in seen && n !in index ==> Accumulated(seen + {n}, items, offered + [n], index)
  {
    OfferedSnoc(offered, n, index);
  }

  method Accumulate(seen: set<Name>, items: seq<Component>, ghost offered: seq<Name>, index: Index, n: Name)
      returns (found: bool, seen': set<Name>, items': seq<Component>)
    requires Accumulated(seen, items, offered, index)
    ensures Accumulated(seen', items', offered + [n], index)
    ensures found <==> n in offered || n in index
  {
    AccumulatedSnoc(seen, items, offered, index, n);
    found, seen', items' := true, seen, items;
    if n !in seen {
      seen' := seen + {n};
      if n in index {
        items' := items + [Component(n, index[n])];
      } else {
        found := false;
      }
    }
  }

  /** The role's list and the removals asked and met, after some edits. */
  ghost predicate Tracked(base: seq<Name>, edits: seq<Edit>, declared: seq<Name>, requested: set<Name>,
      roleLevel: set<Name>) {
    && declared == Edited(base, edits)
    && requested == Requests(edits)
    && roleLevel == Hits(base, edits)
  }

  /**
   The accumulators of one kind of component: the role's own list, the removals
   asked for, the names seen and the components found.
   */
  class Bucket {
    const index: Index
    var declared: seq<Name>
    var requested: set<Name>
    var roleLevel: set<Name>
    var seen: set<Name>
    var items: seq<Component>

    ghost const base: seq<Name>
    ghost var edits: seq<Edit>
    ghost var offered: seq<Name>

    ghost predicate EditsTracked()
      reads this`declared, this`requested, this`roleLevel, this`edits
    {
      Tracked(base, edits, declared, requested, roleLevel)
    }

    ghost predicate Valid()
      reads this
    {
      EditsTracked() && Accumulated(seen, items, offered, index)
    }

    constructor (base: seq<Name>, index: Index)
      ensures Valid() && this.base == base && this.index == index && edits == [] && offered == []
    {
      this.base, this.index, declared := base, index, base;
      requested, roleLevel, seen, items := {}, {}, {}, [];
      edits, offered := [], [];
    }

    method RemoveOne(n: Name)
      requires Valid()
      modifies this`declared, this`requested, this`roleLevel, this`edits
      ensures Valid() && offered == old(offered) && edits == old(edits) + [Remove(n)]
    {
      ghost var more := edits + [Remove(n)];
      RemovalSnoc(base, edits, Remove(n));
      EditedSnoc(base, edits, Remove(n));
      var met := n in declared;
      declared := RemoveFirst(declared, n);
      requested := requested + {n};
      roleLevel := if met then roleLevel + {n} else roleLevel;
      edits := more;
      assert EditsTracked();
    }

    method Extend(add: seq<Name>)
      requires Valid()
      modifies this`declared, this`edits
      ensures Valid() && offered == old(offered) && edits == old(edits) + Additions(add)
    {
      AdditionsRemoveNothing(base, edits, add);
      EditedAdditions(base, edits, add);
      declared := declared + add;
      edits := edits + Additions(add);
    }

    /** One layer: its removals, each recorded as asked and as met, then its additions. */
    method Apply(remove: seq<Name>, add: seq<Name>)
      requires Valid()
      modifies this`declared, this`requested, this`roleLevel, this`edits
      ensures Valid() && offered == old(offered)
      ensures edits == old(edits) + Removals(remove) + Additions(add)
    {
      ghost var start, removals := edits, Removals(remove);
      assert start + removals[..0] == start;
      for i := 0 to |remove|
        invariant Valid() && offered == old(offered) && edits == start + removals[..i]
      {
        Assoc(start, removals[..i], [removals[i]]);
        assert removals[..i + 1] == removals[..i] + [removals[i]];
        RemoveOne(remove[i]);
      }
      assert removals[..|removals|] == removals;
      Extend(add);
    }

    /** Resolve a name unless it was seen; false when the library lacks it. */
    method OfferOne(n: Name) returns (found: bool)
      requires Valid()
      modifies this`seen, this`items, this`offered
      ensures Valid() && edits == old(edits) && offered == old(offered) + [n]
      ensures found <==> n in old(offered) || n in index
    {
      ghost var more := offered + [n];
      var seen', items';
      found, seen', items' := Accumulate(seen, items, offered, index, n);
      seen, items, offered := seen', items', more;
      assert EditsTracked();
    }

    /** Resolve names not yet seen; the ones the library lacks are returned, each once. */
    method Offer(names: seq<Name>) returns (lost: seq<Name>)
      requires Valid()
      modifies this`seen, this`items, this`offered
      ensures Valid() && edits == old(edits)
      ensures offered == old(offered) + names
      ensures lost == Lost(names, old(offered), index)
    {
      lost := [];
      ghost var start := offered;
      assert start + names[..0] == start;
      for i := 0 to |names|
        invariant Valid() && edits == old(edits)
        invariant offered == start + names[..i]
        invariant lost == Lost(names[..i], start, index)
      {
        Assoc(start, names[..i], [names[i]]);
        assert names[..i + 1] == names[..i] + [names[i]];
        LostNext(names, i, start, index);
        ghost var offeredBefore := offered;
        var found := OfferOne(names[i]);
        assert found <==> names[i] in offeredBefore || names[i] in index;
        if !found {
          lost := lost + [names[i]];
        }
      }
      assert names[..|names|] == names;
    }

    /** Take the removals that the role does not restate; return those that met nothing. */
    method DropRemoved() returns (refused: set<Name>)
      requires Valid()
      modifies this`items
      ensures EditsTracked()
      ensures Composed(items, offered, index, base, edits)
      ensures forall n :: n in refused <==> Refused(base, edits, offered, index, n)
    {
      var effective := requested - Elems(declared);
      ghost var found := items;
      assert found == Resolved(Dedup(offered), index);
      EffectiveIsDropped(base, edits, declared, requested, roleLevel);
      DroppedItems(offered, index, base, edits, effective);
      refused := {};
      if effective != {} {
        var kept, removed := Partition(items, effective);
        refused := effective - removed - roleLevel;
        RefusedAreThose(offered, index, base, edits, found, effective, roleLevel, removed);
        items := kept;
      } else {
        UndroppedNone(items);
      }
    }
  }

  lemma RefusedAreThose(offered: seq<Name>, index: Index, base: seq<Name>, edits: seq<Edit>,
                        found: seq<Component>, effective: set<Name>, roleLevel: set<Name>, removed: set<Name>)
    requires found == Resolved(Dedup(offered), index)
    requires forall n :: n in effective <==> Dropped(base, edits, n)
    requires forall n :: n in roleLevel <==> Hit(base, edits, n)
    requires forall n :: n in removed <==> n in effective && Named(found, |found|, n)
    ensures forall n :: n in effective - removed - roleLevel <==> Refused(base, edits, offered, index, n)
  {
    forall n
      ensures n in effective - removed - roleLevel <==> Refused(base, edits, offered, index, n)
    {
      FoundNames(offered, index, n);
      assert n in removed <==> n in effective && Named(found, |found|, n);
    }
  }

  lemma LostNext(names: seq<Name>, i: nat, before: seq<Name>, index: Index)
    requires i < |names|
    ensures
      var lost := Lost(names[..i], before, index);
      Lost(names[..i + 1], before, index) ==
        if names[i] in before + names[..i] || names[i] in index then lost else lost + [names[i]]
  {
    assert names[..i + 1][..i] == names[..i];
  }

  /** What is requested and not restated is what is dropped. */
  lemma EffectiveIsDropped(base: seq<Name>, edits: seq<Edit>, declared: seq<Name>, requested: set<Name>,
      roleLevel: set<Name>)
    requires declared == Edited(base, edits) && requested == Requests(edits) && roleLevel == Hits(base, edits)
    ensures forall n :: n in requested - Elems(declared) <==> Dropped(base, edits, n)
    ensures forall n :: n in roleLevel <==> Hit(base, edits, n)
  {
    forall n
      ensures n in requested - Elems(declared) <==> Dropped(base, edits, n)
      ensures n in roleLevel <==> Hit(base, edits, n)
    {
      RemovalSets(base, edits, n);
    }
  }

  /** One of the first `i` components is called `n`. */
  ghost predicate Named(items: seq<Component>, i: nat, n: Name) {
    exists k :: 0 <= k < i && k < |items| && items[k].name == n
  }

  lemma NamedNext(items: seq<Component>, i: nat)
    requires i < |items|
    ensures forall n :: Named(items, i + 1, n) <==> Named(items, i, n) || n == items[i].name
  {
    forall n
      ensures Named(items, i + 1, n) <==> Named(items, i, n) || n == items[i].name
    {
      if Named(items, i, n) {
        var k :| 0 <= k < i && k < |items| && items[k].name == n;
      }
    }
  }

  lemma UndroppedNext(items: seq<Component>, dropped: set<Name>, i: nat)
    requires i < |items|
    ensures Undropped(items[..i + 1], dropped) ==
            Undropped(items[..i], dropped) + (if items[i].name in dropped then [] else [items[i]])
  {
    assert items[..i + 1][..i] == items[..i];
  }

  method Partition(items: seq<Component>, drop: set<Name>) returns (kept: seq<Component>, removed: set<Name>)
    ensures kept == Undropped(items, drop)
    ensures forall n :: n in removed <==> n in drop && Named(items, |items|, n)
  {
    kept, removed := [], {};
    for i := 0 to |items|
      invariant kept == Undropped(items[..i], drop)
      invariant forall n :: n in removed <==> n in drop && Named(items, i, n)
    {
      NamedNext(items, i);
      UndroppedNext(items, drop, i);
      if items[i].name in drop {
        removed := removed + {items[i].name};
      } else {
        kept := kept + [items[i]];
      }
    }
    assert items[..|items|] == items;
  }

  lemma DroppedItems(offered: seq<Name>, index: Index, base: seq<Name>, edits: seq<Edit>, effective: set<Name>)
    requires forall n :: n in effective <==> Dropped(base, edits, n)
    ensures Composed(Undropped(Resolved(Dedup(offered), index), effective), offered, index, base, edits)
  {
    UndroppedResolved(Dedup(offered), index, effective);
    FilterSame(Dedup(offered), n => n !in effective, n => !Dropped(base, edits, n));
  }

  lemma OfferedSnoc(offered: seq<Name>, n: Name, index: Index)
    ensures Elems(offered + [n]) == if n in offered then Elems(offered) else Elems(offered) + {n}
    ensures Resolved(Dedup(offered + [n]), index) ==
            if n in offered || n !in index then Resolved(Dedup(offered), index)
            else Resolved(Dedup(offered), index) + [Component(n, index[n])]
  {
    DedupSnoc(offered, n);
    if n !in offered {
      assert (Dedup(offered) + [n])[..|Dedup(offered)|] == Dedup(offered);
      assert n !in index ==> Resolved(Dedup(offered), index) + [] == Resolved(Dedup(offered), index);
    }
  }

  lemma FoundNames(offered: seq<Name>, index: Index, n: Name)
    ensures Named(Resolved(Dedup(offered), index), |Resolved(Dedup(offered), index)|, n) <==> n in offered && n in index
  {
    var items := Resolved(Dedup(offered), index);
    assert n in Dedup(offered) <==> n in Elems(Dedup(offered));
    if n in offered && n in index {
      ResolvedNames(Dedup(offered), index, Component(n, index[n]));
    }
    forall k | 0 <= k < |items| && items[k].name == n
      ensures n in offered && n in index
    {
      ResolvedNames(Dedup(offered), index, items[k]);
    }
  }

  /** The elements of a set, each once, in whatever order it is walked. */
  method Listed(names: set<Name>) returns (order: seq<Name>)
    ensures Elems(order) == names && Distinct(order)
  {
    order := [];
    var todo := names;
    while todo != {}
      invariant todo <= names && Elems(order) == names - todo && Distinct(order)
      decreases |todo|
    {
      var n :| n in todo;
      assert n !in Elems(order);
      assert Elems(order + [n]) == Elems(order) + {n};
      order := order + [n];
      todo := todo - {n};
    }
  }

  lemma OneMoreRemoval(base: seq<Name>, edits: seq<Edit>, names: seq<Name>, i: nat)
    requires i < |names|
    ensures
      var before, after := edits + Removals(names)[..i], edits + Removals(names)[..i + 1];
      && Edited(base, after) == RemoveFirst(Edited(base, before), names[i])
      && Misses(base, after) ==
           if names[i] in Edited(base, before) then Misses(base, before) else Misses(base, before) + [names[i]]
  {
    var before := edits + Removals(names)[..i];
    Assoc(edits, Removals(names)[..i], [Remove(names[i])]);
    assert Removals(names)[..i + 1] == Removals(names)[..i] + [Remove(names[i])];
    EditedSnoc(base, before, Remove(names[i]));
    MissesSnoc(base, before, Remove(names[i]));
  }

  lemma {:induction false} AdditionsMissNothing(base: seq<Name>, edits: seq<Edit>, add: seq<Name>)
    ensures Misses(base, edits + Additions(add)) == Misses(base, edits)
  {
    if add == [] {
      assert edits + Additions(add) == edits;
    } else {
      var front, last := add[..|add| - 1], add[|add| - 1];
      assert add == front + [last];
      AdditionsMissNothing(base, edits, front);
      AdditionsSnoc(front, last);
      Assoc(edits, Additions(front), [Add(last)]);
      MissesSnoc(base, edits + Additions(front), Add(last));
    }
  }

  /** The trait removals of one layer; a name that is not there joins the missed ones. */
  method RemoveTraits(traits: seq<Name>, missed: seq<Name>, names: seq<Name>,
                      ghost base: seq<Name>, ghost edits: seq<Edit>)
      returns (traits': seq<Name>, missed': seq<Name>)
    requires traits == Edited(base, edits) && missed == Misses(base, edits)
    ensures traits' == Edited(base, edits + Removals(names)) && missed' == Misses(base, edits + Removals(names))
  {
    traits', missed' := traits, missed;
    assert edits + Removals(names)[..0] == edits;
    for i := 0 to |names|
      invariant traits' == Edited(base, edits + Removals(names)[..i])
      invariant missed' == Misses(base, edits + Removals(names)[..i])
    {
      OneMoreRemoval(base, edits, names, i);
      if names[i] in traits' {
        traits' := RemoveFirst(traits', names[i]);
      } else {
        missed' := missed' + [names[i]];
      }
    }
    assert Removals(names)[..|names|] == Removals(names);
  }

  lemma OneMoreLayer(role: Declared, layers: seq<Overlay>, i: nat)
    requires i < |layers|
    ensures
      var before, layer := layers[..i], layers[i];
      var done := Edits(before, Traits) + Removals(Removed(layer, Traits));
      && Edits(layers[..i + 1], Traits) == done + Additions(Added(layer, Traits))
      && Edits(layers[..i + 1], Rules) == Edits(before, Rules) + Removals(layer.removeRules) + Additions(layer.addRules)
      && Edits(layers[..i + 1], Skills) == Edits(before, Skills) + Removals(layer.removeSkills)
          + Additions(layer.addSkills)
      && Final(role, layers[..i + 1], Traits) == Edited(role.traits, done) + layer.addTraits
      && Misses(role.traits, Edits(layers[..i + 1], Traits)) == Misses(role.traits, done)
  {
    var layer := layers[i];
    assert layers[..i + 1] == layers[..i] + [layer];
    EditsSnoc(layers[..i], layer, Traits);
    EditsSnoc(layers[..i], layer, Rules);
    EditsSnoc(layers[..i], layer, Skills);
    var done := Edits(layers[..i], Traits) + Removals(layer.removeTraits);
    EditedAdditions(role.traits, done, layer.addTraits);
    AdditionsMissNothing(role.traits, done, layer.addTraits);
  }

  method ApplyOverlays(role: Declared, layers: seq<Overlay>, rules: Bucket, skills: Bucket)
      returns (traits: seq<Name>, missed: seq<Name>)
    requires rules.Valid() && skills.Valid() && rules != skills
    requires rules.edits == [] && skills.edits == [] && rules.offered == [] && skills.offered == []
    modifies rules, skills
    ensures rules.Valid() && skills.Valid() && rules.offered == [] && skills.offered == []
    ensures rules.edits == Edits(layers, Rules) && skills.edits == Edits(layers, Skills)
    ensures traits == Final(role, layers, Traits)
    ensures missed == Misses(role.traits, Edits(layers, Traits))
  {
    traits, missed := role.traits, [];
    for i := 0 to |layers|
      invariant rules.Valid() && skills.Valid() && rules.offered == [] && skills.offered == []
      invariant rules.edits == Edits(layers[..i], Rules) && skills.edits == Edits(layers[..i], Skills)
      invariant traits == Final(role, layers[..i], Traits)
      invariant missed == Misses(role.traits, Edits(layers[..i], Traits))
    {
      var layer := layers[i];
      OneMoreLayer(role, layers, i);
      traits, missed := RemoveTraits(traits, missed, layer.removeTraits, role.traits, Edits(layers[..i], Traits));
      traits := traits + layer.addTraits;
      rules.Apply(layer.removeRules, layer.addRules);
      skills.Apply(layer.removeSkills, layer.addSkills);
    }
    assert layers[..|layers|] == layers;
  }

  /** Both accumulators hold what the traits `visited` brought. */
  ghost predicate Gathered(lib: Library, visited: seq<Name>, rules: Bucket, skills: Bucket)
    reads rules, skills
  {
    && rules.Valid() && skills.Valid() && rules != skills
    && rules.index == lib.rules && skills.index == lib.skills
    && rules.offered == Brought(lib, visited, Rules) && skills.offered == Brought(lib, visited, Skills)
  }

  /** One trait: refused when unknown or nested, else its rules and skills are offered. */
  method ResolveTrait(lib: Library, t: Name, ghost visited: seq<Name>, rules: Bucket, skills: Bucket)
      returns (errors: seq<Error>)
    requires Gathered(lib, visited, rules, skills)
    modifies rules, skills
    ensures Gathered(lib, visited + [t], rules, skills)
    ensures rules.edits == old(rules.edits) && skills.edits == old(skills.edits)
    ensures errors == TraitReports(lib, t, Brought(lib, visited, Rules), Brought(lib, visited, Skills))
  {
    BroughtSnoc(lib, visited, t, Rules);
    BroughtSnoc(lib, visited, t, Skills);
    if t !in lib.traits {
      return [NotFound(Traits, t)];
    }
    if lib.traits[t].traits != [] {
      return [SubTraits(t)];
    }
    var lostRules := rules.Offer(lib.traits[t].rules);
    var lostSkills := skills.Offer(lib.traits[t].skills);
    errors := NotFounds(lostRules, Rules) + NotFounds(lostSkills, Skills);
  }

  method ResolveTraits(lib: Library, names: seq<Name>, rules: Bucket, skills: Bucket) returns (errors: seq<Error>)
    requires Gathered(lib, [], rules, skills)
    modifies rules, skills
    ensures Gathered(lib, Dedup(names), rules, skills)
    ensures rules.edits == old(rules.edits) && skills.edits == old(skills.edits)
    ensures errors == TraitErrors(lib, Dedup(names))
  {
    errors := [];
    var visited: set<Name> := {};
    ghost var order: seq<Name> := [];
    for i := 0 to |names|
      invariant order == Dedup(names[..i]) && visited == Elems(order)
      invariant Gathered(lib, order, rules, skills)
      invariant rules.edits == old(rules.edits) && skills.edits == old(skills.edits)
      invariant errors == TraitErrors(lib, order)
    {
      var t := names[i];
      VisitNext(names, i);
      TraitErrorsSnoc(lib, order, t);
      if t !in visited {
        visited := visited + {t};
        var found := ResolveTrait(lib, t, order, rules, skills);
        errors := errors + found;
        order := order + [t];
      }
    }
    assert names[..|names|] == names;
  }

  /** The role's own names, and then the removals that are due. */
  method ResolveOwn(bucket: Bucket, part: Part) returns (errors: seq<Error>, ghost refused: seq<Name>)
    requires bucket.Valid()
    modifies bucket
    ensures Composed(bucket.items, old(bucket.offered) + Edited(bucket.base, old(bucket.edits)), bucket.index,
        bucket.base, old(bucket.edits))
    ensures RefusedOnce(refused, bucket.base, old(bucket.edits),
                        old(bucket.offered) + Edited(bucket.base, old(bucket.edits)), bucket.index)
    ensures errors == NotFounds(Lost(Edited(bucket.base, old(bucket.edits)), old(bucket.offered), bucket.index), part)
                      + CannotRemoves(refused, part)
  {
    var lost := bucket.Offer(bucket.declared);
    var names := bucket.DropRemoved();
    var order := Listed(names);
    forall n
      ensures n in order <==> n in names
    {
      assert n in order <==> n in Elems(order);
    }
    refused := order;
    errors := NotFounds(lost, part) + CannotRemoves(order, part);
  }

  method Compose(lib: Library, name: Name, layers: seq<Overlay>) returns (c: Composition)
    ensures IsComposition(lib, name, layers, c)
  {
    if name !in lib.roles {
      return Composition(name, [], [], [RoleNotFound(name)]);
    }
    var role := lib.roles[name];
    var rules := new Bucket(role.rules, lib.rules);
    var skills := new Bucket(role.skills, lib.skills);
    var traits, missed := ApplyOverlays(role, layers, rules, skills);
    var unresolved := ResolveTraits(lib, traits, rules, skills);
    ghost var refusedRules, refusedSkills;
    var ownRules, ownSkills;
    ownRules, refusedRules := ResolveOwn(rules, Rules);
    ownSkills, refusedSkills := ResolveOwn(skills, Skills);
    var errors := CannotRemoves(missed, Traits) + unresolved + ownRules + ownSkills;
    assert RefusedAre(lib, role, layers, Rules, refusedRules) && RefusedAre(lib, role, layers, Skills, refusedSkills);
    assert errors == AllErrors(lib, role, layers, refusedRules, refusedSkills);
    c := Composition(name, rules.items, skills.items, errors);
  }

  // --------------------------------------------------------------- what is reported

  /** The trouble to report: what each error means. */
  ghost predicate Trouble(lib: Library, role: Declared, layers: seq<Overlay>, e: Error) {
    match e
    case RoleNotFound(_) => false
    case SubTraits(n) => n in Final(role, layers, Traits) && n in lib.traits && lib.traits[n].traits != []
    case NotFound(kind, n) =>
      if kind.Traits? then n in Final(role, layers, Traits) && n !in lib.traits
      else n in Offered(lib, role, layers, kind) && n !in IndexOfPart(lib, kind)
    case CannotRemove(kind, n) =>
      if kind.Traits? then Missed(role.traits, Edits(layers, Traits), n)
      else Refused(Own(role, kind), Edits(layers, kind), Offered(lib, role, layers, kind), IndexOfPart(lib, kind), n)
  }

  lemma NotFoundsMembers(names: seq<Name>, kind: Kind, e: Error)
    ensures e in NotFounds(names, kind) <==> e == NotFound(kind, e.name) && e.name in names
  {
    if e == NotFound(kind, e.name) && e.name in names {
      var i :| 0 <= i < |names| && names[i] == e.name;
      assert NotFounds(names, kind)[i] == e;
    }
  }

  lemma CannotRemovesMembers(names: seq<Name>, kind: Kind, e: Error)
    ensures e in CannotRemoves(names, kind) <==> e == CannotRemove(kind, e.name) && e.name in names
  {
    if e == CannotRemove(kind, e.name) && e.name in names {
      var i :| 0 <= i < |names| && names[i] == e.name;
      assert CannotRemoves(names, kind)[i] == e;
    }
  }

  lemma {:induction false} LostMembers(names: seq<Name>, before: seq<Name>, index: Index, n: Name)
    ensures n in Lost(names, before, index) <==> n in names && n !in before && n !in index
    ensures Distinct(Lost(names, before, index))
  {
    if names != [] {
      var front, last := names[..|names| - 1], names[|names| - 1];
      LostMembers(front, before, index, n);
      LostMembers(front, before, index, last);
      assert names == front + [last];
    }
  }

  lemma {:induction false} MissesMembers(base: seq<Name>, edits: seq<Edit>, n: Name)
    ensures n in Misses(base, edits) <==> Missed(base, edits, n)
  {
    if edits != [] {
      var front, last := edits[..|edits| - 1], edits[|edits| - 1];
      assert edits == front + [last];
      MissesMembers(base, front, n);
      RemovalOutcome(base, front, last, n);
    }
  }

  /** The trouble that the traits `visited` give. */
  ghost predicate TraitTrouble(lib: Library, visited: seq<Name>, e: Error) {
    match e
    case SubTraits(n) => n in visited && n in lib.traits && lib.traits[n].traits != []
    case NotFound(kind, n) =>
      if kind.Traits? then n in visited && n !in lib.traits
      else n in Brought(lib, visited, kind) && n !in IndexOfPart(lib, kind)
    case _ => false
  }

  /** The trouble of one trait. */
  ghost predicate OneTrouble(lib: Library, t: Name, rules: seq<Name>, skills: seq<Name>, e: Error) {
    match e
    case SubTraits(n) => n == t && t in lib.traits && lib.traits[t].traits != []
    case NotFound(kind, n) =>
      if kind.Traits? then n == t && t !in lib.traits
      else
        && Composable(lib, t) && n in Own(lib.traits[t], kind) && n !in IndexOfPart(lib, kind)
        && n !in (if kind.Rules? then rules else skills)
    case _ => false
  }

  lemma TraitReportsMembers(lib: Library, t: Name, rules: seq<Name>, skills: seq<Name>, e: Error)
    ensures e in TraitReports(lib, t, rules, skills) <==> OneTrouble(lib, t, rules, skills, e)
  {
    if Composable(lib, t) {
      var lostRules := Lost(lib.traits[t].rules, rules, lib.rules);
      var lostSkills := Lost(lib.traits[t].skills, skills, lib.skills);
      NotFoundsMembers(lostRules, Rules, e);
      NotFoundsMembers(lostSkills, Skills, e);
      LostMembers(lib.traits[t].rules, rules, lib.rules, e.name);
      LostMembers(lib.traits[t].skills, skills, lib.skills, e.name);
    }
  }

  lemma TraitTroubleSnoc(lib: Library, visited: seq<Name>, t: Name, e: Error)
    ensures TraitTrouble(lib, visited + [t], e) <==>
            || TraitTrouble(lib, visited, e)
            || OneTrouble(lib, t, Brought(lib, visited, Rules), Brought(lib, visited, Skills), e)
  {
    if e.NotFound? && !e.kind.Traits? {
      BroughtSnoc(lib, visited, t, e.kind);
    }
  }

  lemma {:induction false} TraitErrorsMembers(lib: Library, visited: seq<Name>, e: Error)
    ensures e in TraitErrors(lib, visited) <==> TraitTrouble(lib, visited, e)
  {
    if visited != [] {
      var front, t := visited[..|visited| - 1], visited[|visited| - 1];
      assert visited == front + [t];
      TraitErrorsMembers(lib, front, e);
      TraitReportsMembers(lib, t, Brought(lib, front, Rules), Brought(lib, front, Skills), e);
      TraitTroubleSnoc(lib, front, t, e);
    }
  }

  /** The trouble that the role's own list of one kind gives. */
  ghost predicate OwnTrouble(lib: Library, role: Declared, layers: seq<Overlay>, part: Part, e: Error) {
    match e
    case NotFound(kind, n) =>
      && kind == part && n in Final(role, layers, part)
      && n !in Brought(lib, Visited(role, layers), part) && n !in IndexOfPart(lib, part)
    case CannotRemove(kind, n) =>
      && kind == part
      && Refused(Own(role, part), Edits(layers, part), Offered(lib, role, layers, part), IndexOfPart(lib, part), n)
    case _ => false
  }

  lemma OwnErrorsMembers(lib: Library, role: Declared, layers: seq<Overlay>, part: Part, refused: seq<Name>, e: Error)
    requires RefusedAre(lib, role, layers, part, refused)
    ensures e in OwnErrors(lib, role, layers, part, refused) <==> OwnTrouble(lib, role, layers, part, e)
  {
    var before := Brought(lib, Visited(role, layers), part);
    NotFoundsMembers(Lost(Final(role, layers, part), before, IndexOfPart(lib, part)), part, e);
    LostMembers(Final(role, layers, part), before, IndexOfPart(lib, part), e.name);
    CannotRemovesMembers(refused, part, e);
  }

  lemma VisitedMembers(role: Declared, layers: seq<Overlay>, t: Name)
    ensures t in Visited(role, layers) <==> t in Final(role, layers, Traits)
  {
    assert t in Visited(role, layers) <==> t in Elems(Visited(role, layers));
  }

  lemma InOneOfFour<T>(a: seq<T>, b: seq<T>, c: seq<T>, d: seq<T>, x: T)
    ensures x in a + b + c + d <==> x in a || x in b || x in c || x in d
  {
  }

  ghost predicate MissedTrouble(role: Declared, layers: seq<Overlay>, e: Error) {
    e.CannotRemove? && e.kind.Traits? && Missed(role.traits, Edits(layers, Traits), e.name)
  }

  lemma TroubleHasFourSources(lib: Library, role: Declared, layers: seq<Overlay>, e: Error)
    ensures Trouble(lib, role, layers, e) <==>
            || MissedTrouble(role, layers, e) || TraitTrouble(lib, Visited(role, layers), e)
            || OwnTrouble(lib, role, layers, Rules, e) || OwnTrouble(lib, role, layers, Skills, e)
  {
    VisitedMembers(role, layers, e.name);
  }

  lemma AllErrorsMembers(lib: Library, role: Declared, layers: seq<Overlay>, rules: seq<Name>, skills: seq<Name>,
      e: Error)
    requires RefusedAre(lib, role, layers, Rules, rules) && RefusedAre(lib, role, layers, Skills, skills)
    ensures e in AllErrors(lib, role, layers, rules, skills) <==> Trouble(lib, role, layers, e)
  {
    InOneOfFour(CannotRemoves(Misses(role.traits, Edits(layers, Traits)), Traits),
                TraitErrors(lib, Visited(role, layers)),
                OwnErrors(lib, role, layers, Rules, rules), OwnErrors(lib, role, layers, Skills, skills), e);
    CannotRemovesMembers(Misses(role.traits, Edits(layers, Traits)), Traits, e);
    MissesMembers(role.traits, Edits(layers, Traits), e.name);
    TraitErrorsMembers(lib, Visited(role, layers), e);
    OwnErrorsMembers(lib, role, layers, Rules, rules, e);
    OwnErrorsMembers(lib, role, layers, Skills, skills, e);
    TroubleHasFourSources(lib, role, layers, e);
  }

  /** Exactly the trouble is reported. */
  lemma TroubleIsReported(lib: Library, role: Declared, layers: seq<Overlay>, errors: seq<Error>, e: Error)
    requires Reports(lib, role, layers, errors)
    ensures e in errors <==> Trouble(lib, role, layers, e)
  {
    var rules, skills :|
      && RefusedAre(lib, role, layers, Rules, rules) && RefusedAre(lib, role, layers, Skills, skills)
      && errors == AllErrors(lib, role, layers, rules, skills);
    AllErrorsMembers(lib, role, layers, rules, skills, e);
  }

  // ------------------------------------------------------------- what it promises

  lemma {:induction false} BroughtMembers(lib: Library, visited: seq<Name>, part: Part, n: Name)
    ensures n in Brought(lib, visited, part) <==>
            exists t :: t in visited && Composable(lib, t) && n in Own(lib.traits[t], part)
  {
    if visited != [] {
      var front, t := visited[..|visited| - 1], visited[|visited| - 1];
      BroughtMembers(lib, front, part, n);
      assert visited == front + [t];
    }
  }

  ghost predicate Holds(items: seq<Component>, n: Name) {
    exists c :: c in items && c.name == n
  }

  /** Every component is where the index says. */
  lemma ComposedSources(items: seq<Component>, offered: seq<Name>, index: Index, base: seq<Name>, edits: seq<Edit>)
    requires Composed(items, offered, index, base, edits)
    ensures forall c :: c in items ==> c.name in index && c.source == index[c.name]
  {
    forall c | c in items
      ensures c.name in index && c.source == index[c.name]
    {
      ResolvedNames(Filter(Dedup(offered), m => !Dropped(base, edits, m)), index, c);
    }
  }

  /** Exactly the offered names that resolve and were not dropped are composed. */
  lemma ComposedMembers(items: seq<Component>, offered: seq<Name>, index: Index, base: seq<Name>, edits: seq<Edit>,
      n: Name)
    requires Composed(items, offered, index, base, edits)
    ensures Holds(items, n) <==> n in offered && n in index && !Dropped(base, edits, n)
  {
    var kept := Filter(Dedup(offered), m => !Dropped(base, edits, m));
    assert n in Dedup(offered) <==> n in Elems(Dedup(offered));
    forall c | c in items
      ensures c.name in kept && c.name in index && c.source == index[c.name]
    {
      ResolvedNames(kept, index, c);
    }
    if n in kept && n in index {
      ResolvedNames(kept, index, Component(n, index[n]));
    }
  }

  lemma {:induction false} ResolvedOnce(names: seq<Name>, index: Index, i: nat, j: nat)
    requires Distinct(names) && i < j < |Resolved(names, index)|
    ensures Resolved(names, index)[i].name != Resolved(names, index)[j].name
  {
    var front, n := names[..|names| - 1], names[|names| - 1];
    var items := Resolved(front, index);
    if j < |items| {
      ResolvedOnce(front, index, i, j);
    } else {
      ResolvedNames(front, index, items[i]);
    }
  }

  lemma {:induction false} FilterDistinct(names: seq<Name>, keep: Name -> bool)
    requires Distinct(names)
    ensures Distinct(Filter(names, keep))
  {
    if names != [] {
      var front := names[..|names| - 1];
      FilterDistinct(front, keep);
      assert forall x :: x in Filter(front, keep) ==> x in front;
    }
  }

  /** No component is composed twice. */
  lemma ComposedOnce(items: seq<Component>, offered: seq<Name>, index: Index, base: seq<Name>, edits: seq<Edit>)
    requires Composed(items, offered, index, base, edits)
    ensures forall i, j :: 0 <= i < j < |items| ==> items[i].name != items[j].name
  {
    FilterDistinct(Dedup(offered), n => !Dropped(base, edits, n));
    forall i, j | 0 <= i < j < |items|
      ensures items[i].name != items[j].name
    {
      ResolvedOnce(Filter(Dedup(offered), n => !Dropped(base, edits, n)), index, i, j);
    }
  }

  ghost predicate Declares(lib: Library, role: Declared, layers: seq<Overlay>, part: Part, n: Name) {
    n in Final(role, layers, part) ||
    exists t :: t in Final(role, layers, Traits) && Composable(lib, t) && n in Own(lib.traits[t], part)
  }

  lemma OfferedIsDeclared(lib: Library, role: Declared, layers: seq<Overlay>, part: Part, n: Name)
    ensures n in Offered(lib, role, layers, part) <==> Declares(lib, role, layers, part, n)
  {
    var traits := Final(role, layers, Traits);
    BroughtMembers(lib, Visited(role, layers), part, n);
    assert forall t :: t in traits <==> t in Elems(Dedup(traits));
  }

  /** A trait is composed or named in a lossy error. */
  ghost predicate TraitAccounted(lib: Library, errors: seq<Error>, t: Name) {
    Composable(lib, t) || NotFound(Traits, t) in errors || SubTraits(t) in errors
  }

  /** A declared name is present, or taken by a removal, or named in a lossy error; and what is present was declared. */
  ghost predicate Accounted(lib: Library, role: Declared, layers: seq<Overlay>, c: Composition, part: Part, n: Name) {
    var dropped := Dropped(Own(role, part), Edits(layers, part), n);
    && (Declares(lib, role, layers, part, n) ==> Holds(Items(c, part), n) || dropped || NotFound(part, n) in c.errors)
    && (Holds(Items(c, part), n) ==> Declares(lib, role, layers, part, n) && !dropped)
  }

  lemma TraitIsAccounted(lib: Library, name: Name, layers: seq<Overlay>, c: Composition, t: Name)
    requires IsComposition(lib, name, layers, c) && name in lib.roles && t in Final(lib.roles[name], layers, Traits)
    ensures TraitAccounted(lib, c.errors, t)
  {
    TroubleIsReported(lib, lib.roles[name], layers, c.errors, NotFound(Traits, t));
    TroubleIsReported(lib, lib.roles[name], layers, c.errors, SubTraits(t));
  }

  lemma HoldsExactly(lib: Library, name: Name, layers: seq<Overlay>, c: Composition, part: Part, n: Name)
    requires IsComposition(lib, name, layers, c) && name in lib.roles
    ensures Holds(Items(c, part), n) <==>
            && Declares(lib, lib.roles[name], layers, part, n) && n in IndexOfPart(lib, part)
            && !Dropped(Own(lib.roles[name], part), Edits(layers, part), n)
  {
    var role := lib.roles[name];
    assert PartComposed(lib, role, layers, part, Items(c, part));
    OfferedIsDeclared(lib, role, layers, part, n);
    ComposedMembers(Items(c, part), Offered(lib, role, layers, part), IndexOfPart(lib, part), Own(role, part),
        Edits(layers, part), n);
  }

  /** Some layer asks for the removal of `n`. */
  ghost predicate Asked(layers: seq<Overlay>, kind: Kind, n: Name) {
    exists k :: 0 <= k < |layers| && n in Removed(layers[k], kind)
  }

  lemma {:induction false} AskedIsRequested(layers: seq<Overlay>, kind: Kind, n: Name)
    ensures Requested(Edits(layers, kind), n) <==> Asked(layers, kind, n)
  {
    if layers != [] {
      var front, last := layers[..|layers| - 1], layers[|layers| - 1];
      AskedIsRequested(front, kind, n);
      var removals, additions := Removals(Removed(last, kind)), Additions(Added(last, kind));
      assert forall e :: e in additions ==> e.Add?;
      if n in Removed(last, kind) {
        var i :| 0 <= i < |Removed(last, kind)| && Removed(last, kind)[i] == n;
        assert removals[i] == Remove(n);
      }
      assert Remove(n) in removals <==> n in Removed(last, kind);
      assert layers == front + [last];
    }
  }

  /** A composed trait brings `n`. */
  ghost predicate TraitBrings(lib: Library, role: Declared, layers: seq<Overlay>, part: Part, n: Name) {
    exists t :: t in Final(role, layers, Traits) && t in lib.traits && lib.traits[t].traits == []
      && n in (if part.Rules? then lib.traits[t].rules else lib.traits[t].skills)
  }

  /**
   In the library's and the layers' own terms: a name is composed exactly if the library has it
   and the role's final list names it, or a composed trait brings it and no layer asks for its removal.
   */
  lemma ComposedInPlainTerms(lib: Library, name: Name, layers: seq<Overlay>, c: Composition, part: Part, n: Name)
    requires IsComposition(lib, name, layers, c) && name in lib.roles
    ensures Holds(if part.Rules? then c.rules else c.skills, n) <==>
            && n in (if part.Rules? then lib.rules else lib.skills)
            && (|| n in Final(lib.roles[name], layers, part)
                || (TraitBrings(lib, lib.roles[name], layers, part, n) && !Asked(layers, part, n)))
  {
    HoldsExactly(lib, name, layers, c, part, n);
    AskedIsRequested(layers, part, n);
  }

  lemma OfferedInPlainTerms(lib: Library, role: Declared, layers: seq<Overlay>, part: Part, n: Name)
    ensures n in Offered(lib, role, layers, part) <==>
            n in Final(role, layers, part) || TraitBrings(lib, role, layers, part, n)
  {
    OfferedIsDeclared(lib, role, layers, part, n);
    forall t
      ensures t in lib.traits ==>
                Own(lib.traits[t], part) == if part.Rules? then lib.traits[t].rules else lib.traits[t].skills
    {
    }
  }

  lemma RefusalIsTrouble(lib: Library, role: Declared, layers: seq<Overlay>, part: Part, n: Name)
    ensures Trouble(lib, role, layers, CannotRemove(part, n)) <==>
            Refused(Own(role, part), Edits(layers, part), Offered(lib, role, layers, part), IndexOfPart(lib, part), n)
  {
  }

  lemma RefusalIsReported(lib: Library, role: Declared, layers: seq<Overlay>, errors: seq<Error>, part: Part, n: Name)
    requires Reports(lib, role, layers, errors)
    ensures CannotRemove(part, n) in errors <==>
            Refused(Own(role, part), Edits(layers, part), Offered(lib, role, layers, part), IndexOfPart(lib, part), n)
  {
    var e := CannotRemove(part, n);
    TroubleIsReported(lib, role, layers, errors, e);
    RefusalIsTrouble(lib, role, layers, part, n);
  }

  lemma RefusalInPlainTerms(lib: Library, role: Declared, layers: seq<Overlay>, part: Part, n: Name)
    ensures
      Refused(Own(role, part), Edits(layers, part), Offered(lib, role, layers, part), IndexOfPart(lib, part), n) <==>
        && Asked(layers, part, n) && n !in Final(role, layers, part)
        && !Hit(Own(role, part), Edits(layers, part), n)
        && !(TraitBrings(lib, role, layers, part, n) && n in IndexOfPart(lib, part))
  {
    AskedIsRequested(layers, part, n);
    OfferedInPlainTerms(lib, role, layers, part, n);
  }

  /**
   A removal is refused exactly if some layer asks for it, the final list does not name it, no
   removal ever found it in the role's list, and no composed trait brings it out of the library.
   */
  lemma RefusedInPlainTerms(lib: Library, role: Declared, layers: seq<Overlay>, errors: seq<Error>, part: Part, n: Name)
    requires Reports(lib, role, layers, errors)
    ensures CannotRemove(part, n) in errors <==>
            && Asked(layers, part, n) && n !in Final(role, layers, part)
            && !Hit(Own(role, part), Edits(layers, part), n)
            && !(TraitBrings(lib, role, layers, part, n) && n in IndexOfPart(lib, part))
  {
    RefusalIsReported(lib, role, layers, errors, part, n);
    RefusalInPlainTerms(lib, role, layers, part, n);
  }

  function AddedNames(layer: Overlay, kind: Kind): seq<Name> {
    if kind.Traits? then layer.addTraits else if kind.Rules? then layer.addRules else layer.addSkills
  }

  function RemovedNames(layer: Overlay, kind: Kind): seq<Name> {
    if kind.Traits? then layer.removeTraits else if kind.Rules? then layer.removeRules else layer.removeSkills
  }

  lemma AskedSnoc(layers: seq<Overlay>, layer: Overlay, kind: Kind, n: Name)
    ensures Asked(layers + [layer], kind, n) <==> Asked(layers, kind, n) || n in Removed(layer, kind)
  {
    var all := layers + [layer];
    assert all[|layers|] == layer;
    assert forall k :: 0 <= k < |layers| ==> all[k] == layers[k];
  }

  lemma FinalSnoc(role: Declared, layers: seq<Overlay>, layer: Overlay, kind: Kind)
    ensures
      var final, added := Final(role, layers + [layer], kind), Added(layer, kind);
      |added| <= |final| && final[|final| - |added|..] == added
  {
    EditsSnoc(layers, layer, kind);
    EditedAdditions(Own(role, kind), Edits(layers, kind) + Removals(Removed(layer, kind)), Added(layer, kind));
  }

  /**
   A role's own list is the start, and the last layer has the last word: what it adds ends the
   list, also what it removes and adds again, and what it removes and does not add is asked away.
   */
  lemma LastLayerWins(role: Declared, layers: seq<Overlay>, layer: Overlay, kind: Kind, n: Name)
    ensures Final(role, [], kind) ==
            if kind.Traits? then role.traits else if kind.Rules? then role.rules else role.skills
    ensures
      var final, added := Final(role, layers + [layer], kind), AddedNames(layer, kind);
      |added| <= |final| && final[|final| - |added|..] == added
    ensures Asked(layers + [layer], kind, n) <==> Asked(layers, kind, n) || n in RemovedNames(layer, kind)
  {
    FinalSnoc(role, layers, layer, kind);
    AskedSnoc(layers, layer, kind, n);
  }

  lemma {:induction false} ResolvedOrder(names: seq<Name>, index: Index, i: nat, j: nat)
    requires Distinct(names) && i < j < |Resolved(names, index)|
    ensures
      var a, b := Resolved(names, index)[i].name, Resolved(names, index)[j].name;
      a in names && b in names && IndexOf(names, a) < IndexOf(names, b)
  {
    var front, n := names[..|names| - 1], names[|names| - 1];
    var items := Resolved(front, index);
    assert names == front + [n];
    if j < |items| {
      ResolvedOrder(front, index, i, j);
      IndexOfPrefix(front, [n], items[i].name);
      IndexOfPrefix(front, [n], items[j].name);
    } else {
      ResolvedNames(front, index, items[i]);
      IndexOfPrefix(front, [n], items[i].name);
      DistinctIndex(names, |front|);
    }
  }

  lemma {:induction false} FilterOrder(names: seq<Name>, keep: Name -> bool, i: nat, j: nat)
    requires Distinct(names) && i < j < |Filter(names, keep)|
    ensures
      var a, b := Filter(names, keep)[i], Filter(names, keep)[j];
      a in names && b in names && IndexOf(names, a) < IndexOf(names, b)
  {
    var front, n := names[..|names| - 1], names[|names| - 1];
    var kept := Filter(front, keep);
    assert names == front + [n];
    if j < |kept| {
      FilterOrder(front, keep, i, j);
      IndexOfPrefix(front, [n], kept[i]);
      IndexOfPrefix(front, [n], kept[j]);
    } else {
      assert kept[i] in kept;
      IndexOfPrefix(front, [n], kept[i]);
      DistinctIndex(names, |front|);
    }
  }

  /** Composed names stand in the order in which they are first offered: by a trait, else by the role. */
  lemma ComposedInOrder(
    lib: Library, role: Declared, layers: seq<Overlay>, part: Part, items: seq<Component>, i: nat, j: nat)
    requires PartComposed(lib, role, layers, part, items) && i < j < |items|
    ensures
      var offered := Offered(lib, role, layers, part);
      && items[i].name in offered && items[j].name in offered
      && IndexOf(offered, items[i].name) < IndexOf(offered, items[j].name)
    ensures Brought(lib, Visited(role, layers), part) <= Offered(lib, role, layers, part)
  {
    var offered, base, edits := Offered(lib, role, layers, part), Own(role, part), Edits(layers, part);
    var keep := n => !Dropped(base, edits, n);
    var names := Filter(Dedup(offered), keep);
    FilterDistinct(Dedup(offered), keep);
    ResolvedOrder(names, IndexOfPart(lib, part), i, j);
    var a, b := items[i].name, items[j].name;
    DistinctIndex(names, IndexOf(names, a));
    FilterOrder(Dedup(offered), keep, IndexOf(names, a), IndexOf(names, b));
    assert a in Elems(Dedup(offered)) && b in Elems(Dedup(offered));
    DedupOrder(offered, a, b);
  }

  lemma MissingIsReported(lib: Library, role: Declared, layers: seq<Overlay>, errors: seq<Error>, part: Part, n: Name)
    requires Reports(lib, role, layers, errors)
    ensures NotFound(part, n) in errors <==> Declares(lib, role, layers, part, n) && n !in IndexOfPart(lib, part)
  {
    OfferedIsDeclared(lib, role, layers, part, n);
    TroubleIsReported(lib, role, layers, errors, NotFound(part, n));
  }

  lemma PartIsAccounted(lib: Library, name: Name, layers: seq<Overlay>, c: Composition, part: Part, n: Name)
    requires IsComposition(lib, name, layers, c) && name in lib.roles
    ensures Accounted(lib, lib.roles[name], layers, c, part, n)
  {
    HoldsExactly(lib, name, layers, c, part, n);
    MissingIsReported(lib, lib.roles[name], layers, c.errors, part, n);
  }

  /**
   Nothing declared is lost silently: every effective trait is composed or named in
   a lossy error, and every declared rule and skill is present, or taken by a
   removal, or named in a lossy error.  Nothing else is present.
   */
  lemma NothingIsLostSilently(lib: Library, name: Name, layers: seq<Overlay>, c: Composition)
    requires IsComposition(lib, name, layers, c) && name in lib.roles
    ensures forall t :: t in Final(lib.roles[name], layers, Traits) ==> TraitAccounted(lib, c.errors, t)
    ensures forall part: Part, n :: Accounted(lib, lib.roles[name], layers, c, part, n)
  {
    forall t | t in Final(lib.roles[name], layers, Traits)
      ensures TraitAccounted(lib, c.errors, t)
    {
      TraitIsAccounted(lib, name, layers, c, t);
    }
    forall part: Part, n
      ensures Accounted(lib, lib.roles[name], layers, c, part, n)
    {
      PartIsAccounted(lib, name, layers, c, part, n);
    }
  }
}

/** The one funnel every consumer composes through, strict unless it says otherwise. */
module Materialize {
  import opened Composer
  import opened Overlays
  import opened Wrappers

  datatype Outcome = Composed(result: Composition, userRules: seq<Name>) | Incomplete(lost: seq<Error>)

  function LostContent(errors: seq<Error>): (lost: seq<Error>)
    ensures forall e :: e in lost <==> e in errors && e.Lossy()
  {
    if errors == [] then []
    else
      assert errors == errors[..|errors| - 1] + [errors[|errors| - 1]];
      LostContent(errors[..|errors| - 1]) + (if errors[|errors| - 1].Lossy() then [errors[|errors| - 1]] else [])
  }

  function Layers(layers: seq<Overlay>, runtime: Option<Overlay>): seq<Overlay> {
    if runtime.None? then layers else layers + [runtime.value]
  }

  /** What a facade of the given strictness may answer. */
  ghost predicate Answers(lib: Library, role: Name, layers: seq<Overlay>, tolerant: bool, out: Outcome) {
    match out
    case Composed(c, _) => IsComposition(lib, role, layers, c)
        && (role == "" || tolerant || LostContent(c.errors) == [])
    case Incomplete(lost) =>
      && role != "" && !tolerant && lost != []
      && exists c :: IsComposition(lib, role, layers, c) && lost == LostContent(c.errors)
  }

  /** Compose, refuse what a strict caller must not get, and attach the user's own rules. */
  method ComposeForRole(lib: Library, role: Name, layers: seq<Overlay>, runtime: Option<Overlay>, tolerant: bool,
                        userRules: seq<Name>)
      returns (out: Outcome)
    ensures Answers(lib, role, Layers(layers, runtime), tolerant, out)
    ensures out.Composed? ==> out.userRules == userRules
    ensures out.Composed? <==>
            tolerant || role == "" || (role in lib.roles && Complete(lib, lib.roles[role], Layers(layers, runtime)))
  {
    var all := layers;
    if runtime.Some? {
      all := layers + [runtime.value];
    }
    var result := Compose(lib, role, all);
    out := Outcome.Composed(result, userRules);
    if role != "" && !tolerant && LostContent(result.errors) != [] {
      out := Incomplete(LostContent(result.errors));
    }
    FacadeReturnsIff(lib, role, all, tolerant, out);
  }

  lemma MissingRoleIsLost(lib: Library, name: Name, layers: seq<Overlay>, c: Composition)
    requires IsComposition(lib, name, layers, c)
    ensures name !in lib.roles ==> LostContent(c.errors) != []
  {
    if name !in lib.roles {
      assert RoleNotFound(name) in c.errors;
      assert RoleNotFound(name) in LostContent(c.errors);
    }
  }

  lemma StrictTraits(lib: Library, name: Name, layers: seq<Overlay>, c: Composition, t: Name)
    requires IsComposition(lib, name, layers, c) && name in lib.roles && LostContent(c.errors) == []
    requires t in Final(lib.roles[name], layers, Traits)
    ensures Composable(lib, t)
  {
    TraitIsAccounted(lib, name, layers, c, t);
    assert NotFound(Traits, t) !in LostContent(c.errors) && SubTraits(t) !in LostContent(c.errors);
  }

  lemma StrictParts(lib: Library, name: Name, layers: seq<Overlay>, c: Composition, part: Part, n: Name)
    requires IsComposition(lib, name, layers, c) && name in lib.roles && LostContent(c.errors) == []
    requires Declares(lib, lib.roles[name], layers, part, n)
    ensures Holds(Items(c, part), n) || Dropped(Own(lib.roles[name], part), Edits(layers, part), n)
  {
    PartIsAccounted(lib, name, layers, c, part, n);
    assert NotFound(part, n) !in LostContent(c.errors);
  }

  /** A strict facade that returns has every declared name, unless a removal took it. */
  lemma StrictIsComplete(lib: Library, name: Name, layers: seq<Overlay>, out: Outcome)
    requires Answers(lib, name, layers, false, out) && out.Composed? && name != ""
    ensures name in lib.roles
    ensures forall t :: t in Final(lib.roles[name], layers, Traits) ==> Composable(lib, t)
    ensures forall part: Part, n :: Declares(lib, lib.roles[name], layers, part, n) ==>
              Holds(Items(out.result, part), n) || Dropped(Own(lib.roles[name], part), Edits(layers, part), n)
  {
    MissingRoleIsLost(lib, name, layers, out.result);
    forall t | t in Final(lib.roles[name], layers, Traits)
      ensures Composable(lib, t)
    {
      StrictTraits(lib, name, layers, out.result, t);
    }
    forall part: Part, n | Declares(lib, lib.roles[name], layers, part, n)
      ensures Holds(Items(out.result, part), n) || Dropped(Own(lib.roles[name], part), Edits(layers, part), n)
    {
      StrictParts(lib, name, layers, out.result, part, n);
    }
  }

  /** What a facade may be refused for: a missing trait, rule or skill, or a nested trait. */
  ghost predicate Complete(lib: Library, role: Declared, layers: seq<Overlay>) {
    && (forall t :: t in Final(role, layers, Traits) ==> Composable(lib, t))
    && (forall part: Part, n :: Declares(lib, role, layers, part, n) ==> n in IndexOfPart(lib, part))
  }

  lemma CompleteLosesNothing(lib: Library, name: Name, layers: seq<Overlay>, c: Composition)
    requires IsComposition(lib, name, layers, c) && name in lib.roles && Complete(lib, lib.roles[name], layers)
    ensures LostContent(c.errors) == []
  {
    var role := lib.roles[name];
    if LostContent(c.errors) != [] {
      var e := LostContent(c.errors)[0];
      assert e in LostContent(c.errors);
      TroubleIsReported(lib, role, layers, c.errors, e);
      if e.NotFound? && !e.kind.Traits? {
        OfferedIsDeclared(lib, role, layers, e.kind, e.name);
      }
    }
  }

  lemma NothingLostIsComplete(lib: Library, name: Name, layers: seq<Overlay>, c: Composition)
    requires IsComposition(lib, name, layers, c) && name in lib.roles && LostContent(c.errors) == []
    ensures Complete(lib, lib.roles[name], layers)
  {
    var role := lib.roles[name];
    forall t | t in Final(role, layers, Traits)
      ensures Composable(lib, t)
    {
      StrictTraits(lib, name, layers, c, t);
    }
    forall part: Part, n | Declares(lib, role, layers, part, n)
      ensures n in IndexOfPart(lib, part)
    {
      MissingIsReported(lib, role, layers, c.errors, part, n);
      assert NotFound(part, n) !in LostContent(c.errors);
    }
  }

  /**
   Exactly when a facade returns: it is tolerant, or the name is empty, or the role is known, every
   effective trait is composable and every declared rule and skill is in the library.  A removal
   that met nothing is no reason to refuse.
   */
  lemma FacadeReturnsIff(lib: Library, name: Name, layers: seq<Overlay>, tolerant: bool, out: Outcome)
    requires Answers(lib, name, layers, tolerant, out)
    ensures out.Composed? <==>
            tolerant || name == "" || (name in lib.roles && Complete(lib, lib.roles[name], layers))
  {
    if name != "" && !tolerant {
      var c :| IsComposition(lib, name, layers, c) &&
               if out.Composed? then c == out.result && LostContent(c.errors) == []
               else LostContent(c.errors) != [];
      MissingRoleIsLost(lib, name, layers, c);
      if name in lib.roles {
        if out.Composed? {
          NothingLostIsComplete(lib, name, layers, c);
        } else if Complete(lib, lib.roles[name], layers) {
          CompleteLosesNothing(lib, name, layers, c);
        }
      }
    }
  }

  /** The runtime layer comes after all others, so it has the last word. */
  lemma RuntimeLayerWins(role: Declared, layers: seq<Overlay>, runtime: Overlay, kind: Kind, n: Name)
    ensures
      var final, added := Final(role, Layers(layers, Some(runtime)), kind), AddedNames(runtime, kind);
      |added| <= |final| && final[|final| - |added|..] == added
    ensures Asked(Layers(layers, Some(runtime)), kind, n) <==>
            Asked(layers, kind, n) || n in RemovedNames(runtime, kind)
    ensures Layers(layers, None) == layers
  {
    LastLayerWins(role, layers, runtime, kind, n);
  }

  lemma SameErrors(lib: Library, name: Name, layers: seq<Overlay>, c: Composition, c': Composition, e: Error)
    requires IsComposition(lib, name, layers, c) && IsComposition(lib, name, layers, c')
    ensures e in c.errors <==> e in c'.errors
  {
    if name in lib.roles {
      TroubleIsReported(lib, lib.roles[name], layers, c.errors, e);
      TroubleIsReported(lib, lib.roles[name], layers, c'.errors, e);
    }
  }

  /** A strict facade refuses exactly the compositions that lost something. */
  lemma StrictRefusesLoss(lib: Library, name: Name, layers: seq<Overlay>, c: Composition, c': Composition)
    requires IsComposition(lib, name, layers, c) && IsComposition(lib, name, layers, c')
    ensures LostContent(c.errors) == [] <==> LostContent(c'.errors) == []
    ensures c.rules == c'.rules && c.skills == c'.skills
  {
    if LostContent(c.errors) != [] {
      var e := LostContent(c.errors)[0];
      assert e in LostContent(c.errors);
      SameErrors(lib, name, layers, c, c', e);
      assert e in LostContent(c'.errors);
    }
    if LostContent(c'.errors) != [] {
      var e := LostContent(c'.errors)[0];
      assert e in LostContent(c'.errors);
      SameErrors(lib, name, layers, c, c', e);
      assert e in LostContent(c.errors);
    }
  }
}
