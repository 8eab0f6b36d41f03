/**
 The closure of the requested composites: a worklist over trait edges, which may
 form cycles, that refuses at the first name no layer holds.
 */
module Closure {
  type Name = string

  datatype Composite = Composite(traits: seq<Name>, rules: seq<Name>, skills: seq<Name>)

  /** The composites by name, and the layer that holds each rule and skill. */
  datatype Library = Library(composites: map<Name, Composite>, rules: map<Name, string>, skills: map<Name, string>)

  datatype Result =
    | Picked(composites: map<Name, Composite>, rules: map<Name, string>, skills: map<Name, string>)
    | Refusal(name: Name)

  // ------------------------------------------------------------- specification

  ghost predicate IsPath(lib: Library, path: seq<Name>) {
    && path != []
    && forall i :: 0 <= i < |path| - 1 ==>
         path[i] in lib.composites && path[i + 1] in lib.composites[path[i]].traits
  }

  /** `n` is wanted or is reached from a wanted name along trait edges. */
  ghost predicate Reached(lib: Library, wanted: seq<Name>, n: Name) {
    exists path :: IsPath(lib, path) && path[0] in wanted && path[|path| - 1] == n
  }

  /** `n` is no composite, or is one that names an unknown rule or skill. */
  ghost predicate Unknown(lib: Library, n: Name) {
    || n !in lib.composites
    || (exists r :: r in lib.composites[n].rules && r !in lib.rules)
    || (exists k :: k in lib.composites[n].skills && k !in lib.skills)
  }

  /**
   `name` is a reached name that is no composite, or a rule or skill that a reached
   composite names and no layer holds.
  */
  ghost predicate Blamed(lib: Library, wanted: seq<Name>, name: Name) {
    || (Reached(lib, wanted, name) && name !in lib.composites)
    || (exists n :: Reached(lib, wanted, n) && n in lib.composites
          && ((name in lib.composites[n].rules && name !in lib.rules)
              || (name in lib.composites[n].skills && name !in lib.skills)))
  }

  ghost predicate ReachesUnknown(lib: Library, wanted: seq<Name>) {
    exists n :: Reached(lib, wanted, n) && Unknown(lib, n)
  }

  ghost predicate ClosedUnderTraits(lib: Library, names: set<Name>) {
    forall n, t :: n in names && n in lib.composites && t in lib.composites[n].traits ==> t in names
  }

  lemma {:induction false} PathStaysInside(lib: Library, names: set<Name>, path: seq<Name>)
    requires ClosedUnderTraits(lib, names) && IsPath(lib, path) && path[0] in names
    ensures path[|path| - 1] in names
  {
    if |path| > 1 {
      PathStaysInside(lib, names, path[..|path| - 1]);
    }
  }

  /** The reached names are in every closed set that holds the wanted ones. */
  lemma ReachedIsLeast(lib: Library, wanted: seq<Name>, names: set<Name>)
    requires ClosedUnderTraits(lib, names) && forall n :: n in wanted ==> n in names
    ensures forall n :: Reached(lib, wanted, n) ==> n in names
  {
    forall n | Reached(lib, wanted, n)
      ensures n in names
    {
      var path :| IsPath(lib, path) && path[0] in wanted && path[|path| - 1] == n;
      PathStaysInside(lib, names, path);
    }
  }

  lemma ReachedStep(lib: Library, wanted: seq<Name>, n: Name, t: Name)
    requires Reached(lib, wanted, n) && n in lib.composites && t in lib.composites[n].traits
    ensures Reached(lib, wanted, t)
  {
    var path :| IsPath(lib, path) && path[0] in wanted && path[|path| - 1] == n;
    var longer := path + [t];
    forall i | 0 <= i < |longer| - 1
      ensures longer[i] in lib.composites && longer[i + 1] in lib.composites[longer[i]].traits
    {
      assert longer[i] == path[i];
    }
    assert longer[0] in wanted && longer[|longer| - 1] == t;
  }

  function RulesOf(c: Composite): seq<Name> {
    c.rules
  }

  function SkillsOf(c: Composite): seq<Name> {
    c.skills
  }

  /** `found` holds exactly the names that `take` selects of the picked composites, each where `index` says. */
  ghost predicate NamedBy(picked: map<Name, Composite>, take: Composite -> seq<Name>, index: map<Name, string>,
      found: map<Name, string>) {
    && (forall r :: r in found <==> exists n :: n in picked && r in take(picked[n]))
    && (forall r :: r in found ==> r in index && found[r] == index[r])
  }

  ghost predicate Answers(lib: Library, wanted: seq<Name>, r: Result) {
    && (r.Refusal? <==> ReachesUnknown(lib, wanted))
    && (r.Refusal? ==> Blamed(lib, wanted, r.name))
    && (r.Picked? ==>
          && (forall n :: n in r.composites <==> Reached(lib, wanted, n))
          && (forall n :: n in r.composites ==> n in lib.composites && r.composites[n] == lib.composites[n])
          && NamedBy(r.composites, RulesOf, lib.rules, r.rules)
          && NamedBy(r.composites, SkillsOf, lib.skills, r.skills))
  }

  // ----------------------------------------------------------------- the worklist

  /** Record where each name is held; stop at the first that no layer holds. */
  method Place(names: seq<Name>, index: map<Name, string>, found: map<Name, string>)
      returns (found': map<Name, string>, unknown: bool, name: Name)
    ensures unknown ==> name in names && name !in index
    ensures !unknown ==> forall r :: r in names ==> r in index
    ensures !unknown ==> found'.Keys == found.Keys + set r | r in names
    ensures !unknown ==> forall r :: r in found' ==> found'[r] == if r in found then found[r] else index[r]
  {
    found', unknown, name := found, false, "";
    for i := 0 to |names|
      invariant forall r :: r in names[..i] ==> r in index
      invariant found'.Keys == found.Keys + set r | r in names[..i]
      invariant forall r :: r in found' ==> found'[r] == if r in found then found[r] else index[r]
    {
      assert names[..i + 1] == names[..i] + [names[i]];
      if names[i] !in index {
        return found', true, names[i];
      }
      if names[i] !in found' {
        found' := found'[names[i] := index[names[i]]];
      }
    }
    assert names[..|names|] == names;
  }

  ghost predicate Explored(lib: Library, wanted: seq<Name>, picked: map<Name, Composite>, queue: seq<Name>) {
    && (forall n :: n in picked ==> n in lib.composites && picked[n] == lib.composites[n])
    && (forall n :: n in picked || n in queue ==> Reached(lib, wanted, n))
    && (forall n :: n in wanted ==> n in picked || n in queue)
    && (forall n, t :: n in picked && t in picked[n].traits ==> t in picked || t in queue)
  }

  lemma TakeNext(lib: Library, wanted: seq<Name>, picked: map<Name, Composite>, queue: seq<Name>)
    requires Explored(lib, wanted, picked, queue) && queue != []
    ensures queue[0] in picked ==> Explored(lib, wanted, picked, queue[1..])
    ensures queue[0] !in picked && queue[0] in lib.composites ==>
              Explored(lib, wanted, picked[queue[0] := lib.composites[queue[0]]], queue[1..]
                  + lib.composites[queue[0]].traits)
    ensures Reached(lib, wanted, queue[0])
  {
    var name, rest := queue[0], queue[1..];
    assert queue == [name] + rest;
    assert forall n :: n in queue <==> n == name || n in rest;
    if name !in picked && name in lib.composites {
      forall t | t in lib.composites[name].traits
        ensures Reached(lib, wanted, t)
      {
        ReachedStep(lib, wanted, name, t);
      }
    }
  }

  lemma NamedByOneMore(picked: map<Name, Composite>, take: Composite -> seq<Name>, index: map<Name, string>,
                       found: map<Name, string>, found': map<Name, string>, name: Name, c: Composite)
    requires NamedBy(picked, take, index, found) && name !in picked
    requires found'.Keys == found.Keys + set r | r in take(c)
    requires forall r :: r in take(c) ==> r in index
    requires forall r :: r in found' ==> found'[r] == if r in found then found[r] else index[r]
    ensures NamedBy(picked[name := c], take, index, found')
  {
    var picked' := picked[name := c];
    forall r
      ensures r in found' <==> exists n :: n in picked' && r in take(picked'[n])
    {
      if r in take(c) {
        assert picked'[name] == c;
      }
      if r in found {
        var n :| n in picked && r in take(picked[n]);
        assert picked'[n] == picked[n];
      }
    }
  }

  lemma PickedIsKnown(lib: Library, picked: map<Name, Composite>, rules: map<Name, string>, skills: map<Name, string>,
      n: Name)
    requires n in picked && n in lib.composites && picked[n] == lib.composites[n]
    requires NamedBy(picked, RulesOf, lib.rules, rules) && NamedBy(picked, SkillsOf, lib.skills, skills)
    ensures !Unknown(lib, n)
  {
    forall r | r in lib.composites[n].rules
      ensures r in lib.rules
    {
      assert r in RulesOf(picked[n]) && r in rules;
    }
    forall k | k in lib.composites[n].skills
      ensures k in lib.skills
    {
      assert k in SkillsOf(picked[n]) && k in skills;
    }
  }

  /** An empty queue leaves exactly the reached names picked, so nothing unknown is reached. */
  lemma NothingLeft(lib: Library, wanted: seq<Name>, picked: map<Name, Composite>,
                    rules: map<Name, string>, skills: map<Name, string>)
    requires Explored(lib, wanted, picked, [])
    requires NamedBy(picked, RulesOf, lib.rules, rules) && NamedBy(picked, SkillsOf, lib.skills, skills)
    ensures Answers(lib, wanted, Picked(picked, rules, skills))
  {
    assert ClosedUnderTraits(lib, picked.Keys);
    ReachedIsLeast(lib, wanted, picked.Keys);
    forall n | Reached(lib, wanted, n)
      ensures !Unknown(lib, n)
    {
      PickedIsKnown(lib, picked, rules, skills, n);
    }
  }

  method Wanted(lib: Library, only: seq<Name>) returns (wanted: seq<Name>)
    ensures only != [] ==> wanted == only
    ensures only == [] ==> forall n :: n in wanted <==> n in lib.composites
  {
    wanted := only;
    if only == [] {
      var todo := lib.composites.Keys;
      while todo != {}
        invariant todo <= lib.composites.Keys
        invariant forall n :: n in wanted <==> n in lib.composites && n !in todo
        decreases |todo|
      {
        var n :| n in todo;
        wanted := wanted + [n];
        todo := todo - {n};
      }
    }
  }

  method Close(lib: Library, wanted: seq<Name>) returns (r: Result)
    ensures Answers(lib, wanted, r)
  {
    var picked: map<Name, Composite> := map[];
    var rules: map<Name, string>, skills: map<Name, string> := map[], map[];
    var queue := wanted;
    forall n | n in wanted
      ensures Reached(lib, wanted, n)
    {
      assert IsPath(lib, [n]) && [n][0] in wanted;
    }
    while queue != []
      invariant Explored(lib, wanted, picked, queue)
      invariant NamedBy(picked, RulesOf, lib.rules, rules)
      invariant NamedBy(picked, SkillsOf, lib.skills, skills)
      decreases |lib.composites.Keys - picked.Keys|, |queue|
    {
      var name := queue[0];
      TakeNext(lib, wanted, picked, queue);
      queue := queue[1..];
      if name in picked {
        continue;
      }
      if name !in lib.composites {
        return Refusal(name);
      }
      var comp := lib.composites[name];
      ghost var before := picked;
      picked := picked[name := comp];
      assert lib.composites.Keys - picked.Keys < lib.composites.Keys - before.Keys by {
        assert name in lib.composites.Keys - before.Keys;
      }
      queue := queue + comp.traits;
      var rules', lost, which := Place(comp.rules, lib.rules, rules);
      if lost {
        return Refusal(which);
      }
      NamedByOneMore(before, RulesOf, lib.rules, rules, rules', name, comp);
      rules := rules';
      var skills', lost', which' := Place(comp.skills, lib.skills, skills);
      if lost' {
        return Refusal(which');
      }
      NamedByOneMore(before, SkillsOf, lib.skills, skills, skills', name, comp);
      skills := skills';
      Shrinks(lib.composites.Keys - picked.Keys, lib.composites.Keys - before.Keys);
    }
    NothingLeft(lib, wanted, picked, rules, skills);
    r := Picked(picked, rules, skills);
  }

  lemma Shrinks(a: set<Name>, b: set<Name>)
    requires a < b
    ensures |a| < |b|
  {
    var x :| x in b && x !in a;
    assert a <= b - {x};
    assert b == a + (b - a);
    assert |b| == |a| + |b - a|;
  }

  /** The requested composites, or all of them when none is requested. */
  method RunClosure(lib: Library, only: seq<Name>) returns (r: Result, wanted: seq<Name>)
    ensures only != [] ==> wanted == only
    ensures only == [] ==> forall n :: n in wanted <==> n in lib.composites
    ensures Answers(lib, wanted, r)
  {
    wanted := Wanted(lib, only);
    r := Close(lib, wanted);
  }
}
