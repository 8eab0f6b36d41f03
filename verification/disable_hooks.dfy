/** Taking user hooks that point at the old location out of a settings tree. */
module DisableHooks {
  import opened Wrappers
  import opened Lists

  // ----------------------------------------------------------------------- trees

  datatype Json =
    | Null
    | Bool(b: bool)
    | Number(n: int)
    | Text(text: string)
    | List(items: seq<Json>)
    | Object(fields: seq<Field>)

  /** Keys of one object are distinct, and keep their order. */
  datatype Field = Field(key: string, value: Json)

  function Get(fields: seq<Field>, key: string): Option<Json> {
    if fields == [] then None
    else if fields[0].key == key then Some(fields[0].value)
    else Get(fields[1..], key)
  }

  /** Assigning to a key that is present keeps its place. */
  function Put(fields: seq<Field>, key: string, value: Json): seq<Field> {
    if fields == [] then []
    else if fields[0].key == key then [Field(key, value)] + fields[1..]
    else [fields[0]] + Put(fields[1..], key, value)
  }

  function Drop(fields: seq<Field>, key: string): seq<Field> {
    Filter(fields, (f: Field) => f.key != key)
  }

  lemma {:induction false} PutGets(fields: seq<Field>, key: string, value: Json, other: string)
    requires Get(fields, key).Some?
    ensures Get(Put(fields, key, value), other) == if other == key then Some(value) else Get(fields, other)
    ensures |Put(fields, key, value)| == |fields|
  {
    if fields[0].key != key {
      PutGets(fields[1..], key, value, other);
      assert ([fields[0]] + Put(fields[1..], key, value))[1..] == Put(fields[1..], key, value);
    } else {
      assert ([Field(key, value)] + fields[1..])[1..] == fields[1..];
    }
  }

  lemma {:induction false} DropGets(fields: seq<Field>, key: string, other: string)
    ensures Get(Drop(fields, key), other) == if other == key then None else Get(fields, other)
  {
    if fields != [] {
      DropGets(fields[1..], key, other);
      DropHead(fields, key);
      if fields[0].key != key {
        assert ([fields[0]] + Drop(fields[1..], key))[1..] == Drop(fields[1..], key);
      } else {
        assert [] + Drop(fields[1..], key) == Drop(fields[1..], key);
      }
    }
  }

  lemma {:induction false} DropHead(fields: seq<Field>, key: string)
    requires fields != []
    ensures Drop(fields, key) == (if fields[0].key == key then [] else [fields[0]]) + Drop(fields[1..], key)
  {
    var front, last := fields[..|fields| - 1], fields[|fields| - 1];
    if front != [] {
      DropHead(front, key);
      assert fields[1..][..|fields| - 2] == front[1..] && fields[1..][|fields| - 2] == last;
    }
  }

  /** What counts as true. */
  predicate Truthy(v: Json) {
    match v
    case Null => false
    case Bool(b) => b
    case Number(n) => n != 0
    case Text(t) => t != ""
    case List(items) => items != []
    case Object(fields) => fields != []
  }

  // -------------------------------------------------------------------- commands

  const PROJECT_DIR := "$CLAUDE_PROJECT_DIR/"
  const OLD_HOOKS := ".agent/hooks/"
  const LIBRARY_HOOKS := ".agent/ai-hats/library/hooks/"
  const USER_HOOKS := ".agent/ai-hats/user-hooks/"

  function Relative(command: string): string {
    if PROJECT_DIR <= command then command[|PROJECT_DIR|..] else command
  }

  function FirstPart(path: string): string {
    if path == "" || path[0] == '/' then "" else [path[0]] + FirstPart(path[1..])
  }

  /** The name of the hook a command runs from either old location. */
  function Basename(command: string): Option<string> {
    var s := Relative(command);
    if OLD_HOOKS < s then Some(FirstPart(s[|OLD_HOOKS|..]))
    else if LIBRARY_HOOKS < s then Some(FirstPart(s[|LIBRARY_HOOKS|..]))
    else None
  }

  lemma {:induction false} FirstPartEnds(path: string, name: string, rest: string)
    requires '/' !in name && path == name + rest && (rest == "" || rest[0] == '/')
    ensures FirstPart(path) == name
  {
    if name != "" {
      assert path[0] == name[0] && name[0] in name && path[1..] == name[1..] + rest;
      FirstPartEnds(path[1..], name[1..], rest);
      assert name == [name[0]] + name[1..];
    }
  }

  function AfterFirst(path: string): string {
    if path == "" || path[0] == '/' then path else AfterFirst(path[1..])
  }

  lemma {:induction false} FirstPartSplits(path: string)
    ensures FirstPart(path) + AfterFirst(path) == path
    ensures '/' !in FirstPart(path)
    ensures AfterFirst(path) == "" || AfterFirst(path)[0] == '/'
  {
    if path != "" && path[0] != '/' {
      FirstPartSplits(path[1..]);
      Assoc([path[0]], FirstPart(path[1..]), AfterFirst(path[1..]));
      assert path == [path[0]] + path[1..];
    }
  }

  /** A path to hook `name`: one of the old locations, the name, then nothing or a deeper path. */
  ghost predicate Locates(command: string, name: string) {
    exists start, prefix, rest :: Located(command, start, prefix, name, rest)
  }

  predicate Located(command: string, start: string, prefix: string, name: string, rest: string) {
    && start in {"", "$CLAUDE_PROJECT_DIR/"} && prefix in {".agent/hooks/", ".agent/ai-hats/library/hooks/"}
    && command == start + (prefix + (name + rest))
    && name + rest != "" && '/' !in name && (rest == "" || rest[0] == '/')
  }

  lemma Splits(prefix: string, s: string)
    requires prefix <= s
    ensures s == prefix + s[|prefix|..]
  {
  }

  lemma BasenameIsLocated(command: string, name: string)
    requires Basename(command) == Some(name)
    ensures Locates(command, name)
  {
    var s := Relative(command);
    var start := if PROJECT_DIR <= command then PROJECT_DIR else "";
    var prefix := if OLD_HOOKS < s then OLD_HOOKS else LIBRARY_HOOKS;
    var tail := s[|prefix|..];
    FirstPartSplits(tail);
    Splits(prefix, s);
    Splits(start, command);
    assert Located(command, start, prefix, name, AfterFirst(tail));
  }

  lemma LocatedIsBasename(command: string, start: string, prefix: string, name: string, rest: string)
    requires Located(command, start, prefix, name, rest)
    ensures Basename(command) == Some(name)
  {
    var tail := name + rest;
    var path := prefix + tail;
    PrefixesDiffer(path, prefix, tail);
    assert start == "" ==> command == path;
    assert start == PROJECT_DIR ==> command[|PROJECT_DIR|..] == path;
    assert path[|prefix|..] == tail;
    FirstPartEnds(tail, name, rest);
  }

  /** A command names a hook exactly when it is such a path. */
  lemma BasenameLocates(command: string, name: string)
    ensures Basename(command) == Some(name) <==> Locates(command, name)
  {
    if Basename(command) == Some(name) {
      BasenameIsLocated(command, name);
    }
    if Locates(command, name) {
      var start, prefix, rest :| Located(command, start, prefix, name, rest);
      LocatedIsBasename(command, start, prefix, name, rest);
    }
  }

  lemma PrefixesDiffer(path: string, prefix: string, tail: string)
    requires prefix in {OLD_HOOKS, LIBRARY_HOOKS} && path == prefix + tail && tail != ""
    ensures !(PROJECT_DIR <= path) && prefix < path
    ensures OLD_HOOKS <= path <==> prefix == OLD_HOOKS
  {
    assert path[0] == '.' && PROJECT_DIR[0] == '$';
    assert path[7] == prefix[7] && OLD_HOOKS[7] == 'h' && LIBRARY_HOOKS[7] == 'a';
  }

  // --------------------------------------------------------------------- entries

  function Command(entry: Json): Option<string> {
    if !entry.Object? then None
    else
      match Get(entry.fields, "command")
      case Some(Text(command)) => Some(command)
      case _ => None
  }

  /** A user's hook at an old location. */
  predicate Condemned(entry: Json, owned: set<string>) {
    var command := Command(entry);
    command.Some? && Basename(command.value).Some? && Basename(command.value).value !in owned
  }

  function Spared(entries: seq<Json>, owned: set<string>): seq<Json> {
    if entries == [] then []
    else
      var last := entries[|entries| - 1];
      var before := Spared(entries[..|entries| - 1], owned);
      if Condemned(last, owned) then before else before + [last]
  }

  function Doomed(entries: seq<Json>, owned: set<string>): seq<Json> {
    if entries == [] then []
    else
      var last := entries[|entries| - 1];
      var before := Doomed(entries[..|entries| - 1], owned);
      if Condemned(last, owned) then before + [last] else before
  }

  /** What the report says of one removed entry. */
  datatype Ref = Ref(command: string, target: string)

  function RefOf(entry: Json): Ref {
    var command := if Command(entry).Some? then Command(entry).value else "";
    var name := if Basename(command).Some? then Basename(command).value else "";
    Ref(command, (if PROJECT_DIR <= command then PROJECT_DIR else "") + (USER_HOOKS + name))
  }

  function Refs(entries: seq<Json>): seq<Ref> {
    if entries == [] then [] else Refs(entries[..|entries| - 1]) + [RefOf(entries[|entries| - 1])]
  }

  /** A matcher whose entries may be removed, and those entries. */
  function Entries(matcher: Json): Option<seq<Json>> {
    if !matcher.Object? then None
    else if Get(matcher.fields, "_ai_hats_managed").Some?
        && Truthy(Get(matcher.fields, "_ai_hats_managed").value) then None
    else
      match Get(matcher.fields, "hooks")
      case Some(List(entries)) => Some(entries)
      case _ => None
  }

  // ------------------------------------------------------------------ the filter

  method Judge(entry: Json, owned: set<string>) returns (removed: Option<Ref>)
    ensures removed == if Condemned(entry, owned) then Some(RefOf(entry)) else None
  {
    var command := Command(entry);
    if command.None? {
      return None;
    }
    var name := Basename(command.value);
    if name.None? || name.value in owned {
      return None;
    }
    var target := USER_HOOKS + name.value;
    if PROJECT_DIR <= command.value {
      return Some(Ref(command.value, PROJECT_DIR + target));
    }
    assert "" + target == target;
    return Some(Ref(command.value, target));
  }

  method FilterEntries(entries: seq<Json>, owned: set<string>) returns (rest: seq<Json>, removed: seq<Ref>)
    ensures rest == Spared(entries, owned)
    ensures removed == Refs(Doomed(entries, owned))
  {
    rest, removed := [], [];
    for i := 0 to |entries|
      invariant rest == Spared(entries[..i], owned)
      invariant removed == Refs(Doomed(entries[..i], owned))
    {
      assert entries[..i + 1] == entries[..i] + [entries[i]];
      EntryLast(entries[..i], entries[i], owned);
      ghost var doomed := Doomed(entries[..i], owned);
      assert (doomed + [entries[i]])[..|doomed|] == doomed;
      var ref := Judge(entries[i], owned);
      if ref.None? {
        rest := rest + [entries[i]];
      } else {
        removed := removed + [ref.value];
      }
    }
    assert entries[..|entries|] == entries;
  }

  /** A matcher afterwards, or none when no entry is left in it. */
  function MatcherAfter(matcher: Json, owned: set<string>): Option<Json> {
    var entries := Entries(matcher);
    if entries.None? then Some(matcher)
    else
      var rest := Spared(entries.value, owned);
      if rest == [] then None else Some(Object(Put(matcher.fields, "hooks", List(rest))))
  }

  /** The entries of a matcher that may be removed. */
  function Open(matcher: Json): seq<Json> {
    if Entries(matcher).Some? then Entries(matcher).value else []
  }

  method FilterMatcher(matcher: Json, owned: set<string>) returns (kept: Option<Json>, removed: seq<Ref>)
    ensures kept == MatcherAfter(matcher, owned)
    ensures removed == Refs(Doomed(Open(matcher), owned))
  {
    if Entries(matcher).None? {
      return Some(matcher), [];
    }
    var rest;
    rest, removed := FilterEntries(Entries(matcher).value, owned);
    kept := if rest != [] then Some(Object(Put(matcher.fields, "hooks", List(rest)))) else None;
  }

  // ---------------------------------------------------------------------- the tree

  function MatchersAfter(matchers: seq<Json>, owned: set<string>): seq<Json> {
    if matchers == [] then []
    else
      var last := MatcherAfter(matchers[|matchers| - 1], owned);
      MatchersAfter(matchers[..|matchers| - 1], owned) + (if last.Some? then [last.value] else [])
  }

  function OpenAll(matchers: seq<Json>): seq<Json> {
    if matchers == [] then [] else OpenAll(matchers[..|matchers| - 1]) + Open(matchers[|matchers| - 1])
  }

  function EventAfter(event: Json, owned: set<string>): Option<Json> {
    if !event.List? then Some(event)
    else
      var matchers := MatchersAfter(event.items, owned);
      if matchers == [] then None else Some(List(matchers))
  }

  function OpenEvent(event: Json): seq<Json> {
    if event.List? then OpenAll(event.items) else []
  }

  function EventsAfter(hooks: seq<Field>, owned: set<string>): seq<Field> {
    if hooks == [] then []
    else
      var last := hooks[|hooks| - 1];
      var after := EventAfter(last.value, owned);
      EventsAfter(hooks[..|hooks| - 1], owned) + (if after.Some? then [Field(last.key, after.value)] else [])
  }

  function OpenEvents(hooks: seq<Field>): seq<Json> {
    if hooks == [] then [] else OpenEvents(hooks[..|hooks| - 1]) + OpenEvent(hooks[|hooks| - 1].value)
  }

  /** The `hooks` object of the settings, when they have one. */
  function Hooks(data: Json): Option<seq<Field>> {
    if !data.Object? then None
    else
      match Get(data.fields, "hooks")
      case Some(Object(hooks)) => Some(hooks)
      case _ => None
  }

  /** Every hook entry that may be removed, in order. */
  function AllOpen(data: Json): seq<Json> {
    if Hooks(data).Some? then OpenEvents(Hooks(data).value) else []
  }

  /** The settings afterwards. */
  function Disabled(data: Json, owned: set<string>): Json {
    if Doomed(AllOpen(data), owned) == [] then data
    else
      var events := EventsAfter(Hooks(data).value, owned);
      Object(if events == [] then Drop(data.fields, "hooks") else Put(data.fields, "hooks", Object(events)))
  }

  lemma EntryLast(entries: seq<Json>, e: Json, owned: set<string>)
    ensures Spared(entries + [e], owned) == Spared(entries, owned) + Spared([e], owned)
    ensures Doomed(entries + [e], owned) == Doomed(entries, owned) + Doomed([e], owned)
    ensures if Condemned(e, owned) then Spared([e], owned) == [] && Doomed([e], owned) == [e]
            else Spared([e], owned) == [e] && Doomed([e], owned) == []
  {
    var all := entries + [e];
    assert all[..|entries|] == entries && all[|entries|] == e && [e][..0] == [];
  }

  lemma {:induction false} PassAppend(a: seq<Json>, b: seq<Json>, owned: set<string>)
    ensures Spared(a + b, owned) == Spared(a, owned) + Spared(b, owned)
    ensures Doomed(a + b, owned) == Doomed(a, owned) + Doomed(b, owned)
  {
    if b == [] {
      assert a + b == a;
    } else {
      var front, last := b[..|b| - 1], b[|b| - 1];
      assert b == front + [last];
      Assoc(a, front, [last]);
      PassAppend(a, front, owned);
      EntryLast(a + front, last, owned);
      EntryLast(front, last, owned);
      Assoc(Spared(a, owned), Spared(front, owned), Spared([last], owned));
      Assoc(Doomed(a, owned), Doomed(front, owned), Doomed([last], owned));
    }
  }

  lemma {:induction false} RefsAppend(a: seq<Json>, b: seq<Json>)
    ensures Refs(a + b) == Refs(a) + Refs(b)
  {
    if b == [] {
      assert a + b == a;
      assert Refs(a) + [] == Refs(a);
    } else {
      var front, last := b[..|b| - 1], b[|b| - 1];
      assert b == front + [last];
      Assoc(a, front, [last]);
      RefsAppend(a, front);
      assert (a + front + [last])[..|a + front|] == a + front;
      Assoc(Refs(a), Refs(front), [RefOf(last)]);
    }
  }

  lemma ReportAppend(a: seq<Json>, b: seq<Json>, owned: set<string>)
    ensures Refs(Doomed(a + b, owned)) == Refs(Doomed(a, owned)) + Refs(Doomed(b, owned))
  {
    PassAppend(a, b, owned);
    RefsAppend(Doomed(a, owned), Doomed(b, owned));
  }

  method FilterMatchers(matchers: seq<Json>, owned: set<string>) returns (kept: seq<Json>, removed: seq<Ref>)
    ensures kept == MatchersAfter(matchers, owned)
    ensures removed == Refs(Doomed(OpenAll(matchers), owned))
  {
    kept, removed := [], [];
    for i := 0 to |matchers|
      invariant kept == MatchersAfter(matchers[..i], owned)
      invariant removed == Refs(Doomed(OpenAll(matchers[..i]), owned))
    {
      assert matchers[..i + 1][..i] == matchers[..i];
      ReportAppend(OpenAll(matchers[..i]), Open(matchers[i]), owned);
      var one, gone := FilterMatcher(matchers[i], owned);
      kept := kept + if one.Some? then [one.value] else [];
      removed := removed + gone;
    }
    assert matchers[..|matchers|] == matchers;
  }

  method FilterEvents(hooks: seq<Field>, owned: set<string>) returns (kept: seq<Field>, removed: seq<Ref>)
    ensures kept == EventsAfter(hooks, owned)
    ensures removed == Refs(Doomed(OpenEvents(hooks), owned))
  {
    kept, removed := [], [];
    for i := 0 to |hooks|
      invariant kept == EventsAfter(hooks[..i], owned)
      invariant removed == Refs(Doomed(OpenEvents(hooks[..i]), owned))
    {
      assert hooks[..i + 1][..i] == hooks[..i];
      ReportAppend(OpenEvents(hooks[..i]), OpenEvent(hooks[i].value), owned);
      if hooks[i].value.List? {
        var matchers, gone := FilterMatchers(hooks[i].value.items, owned);
        kept := kept + if matchers != [] then [Field(hooks[i].key, List(matchers))] else [];
        removed := removed + gone;
      } else {
        kept := kept + [hooks[i]];
      }
    }
    assert hooks[..|hooks|] == hooks;
  }

  /** Nothing is written when nothing is removed. */
  method DisableUserHooks(data: Json, owned: set<string>) returns (written: Option<Json>, removed: seq<Ref>)
    ensures removed == Refs(Doomed(AllOpen(data), owned))
    ensures written == if removed == [] then None else Some(Disabled(data, owned))
    ensures written.Some? <==> SettingsHaveUserHook(data, owned)
  {
    SettingsInPlainTerms(data, owned);
    if Hooks(data).None? {
      return None, [];
    }
    var events;
    events, removed := FilterEvents(Hooks(data).value, owned);
    if removed == [] {
      return None, [];
    }
    written := Some(Object(if events == [] then Drop(data.fields, "hooks")
        else Put(data.fields, "hooks", Object(events))));
  }

  // --------------------------------------------------------------------- what it keeps

  lemma {:induction false} SparedOpen(matcher: Json, owned: set<string>)
    ensures
      var after := MatcherAfter(matcher, owned);
      Spared(Open(matcher), owned) == if after.Some? then Open(after.value) else []
  {
    if Entries(matcher).Some? {
      var rest := Spared(Entries(matcher).value, owned);
      PutGets(matcher.fields, "hooks", List(rest), "hooks");
      PutGets(matcher.fields, "hooks", List(rest), "_ai_hats_managed");
    }
  }

  lemma {:induction false} SparedOpenAll(matchers: seq<Json>, owned: set<string>)
    ensures OpenAll(MatchersAfter(matchers, owned)) == Spared(OpenAll(matchers), owned)
  {
    if matchers != [] {
      var front, last := matchers[..|matchers| - 1], matchers[|matchers| - 1];
      SparedOpenAll(front, owned);
      SparedOpen(last, owned);
      PassAppend(OpenAll(front), Open(last), owned);
      var after := MatcherAfter(last, owned);
      if after.Some? {
        var kept := MatchersAfter(front, owned);
        assert (kept + [after.value])[..|kept|] == kept;
      } else {
        assert MatchersAfter(front, owned) + [] == MatchersAfter(front, owned);
      }
    }
  }

  lemma {:induction false} SparedOpenEvents(hooks: seq<Field>, owned: set<string>)
    ensures OpenEvents(EventsAfter(hooks, owned)) == Spared(OpenEvents(hooks), owned)
  {
    if hooks != [] {
      var front, last := hooks[..|hooks| - 1], hooks[|hooks| - 1];
      SparedOpenEvents(front, owned);
      PassAppend(OpenEvents(front), OpenEvent(last.value), owned);
      if last.value.List? {
        SparedOpenAll(last.value.items, owned);
      }
      var after := EventAfter(last.value, owned);
      if after.Some? {
        var kept := EventsAfter(front, owned);
        assert (kept + [Field(last.key, after.value)])[..|kept|] == kept;
      } else {
        assert EventsAfter(front, owned) + [] == EventsAfter(front, owned);
      }
    }
  }

  /** Exactly the condemned entries go; the others stay as they are, in order. */
  lemma OnlyCondemnedGo(data: Json, owned: set<string>)
    ensures AllOpen(Disabled(data, owned)) == Spared(AllOpen(data), owned)
  {
    if Doomed(AllOpen(data), owned) == [] {
      SparedIsAll(AllOpen(data), owned);
    } else {
      var hooks := Hooks(data).value;
      var events := EventsAfter(hooks, owned);
      SparedOpenEvents(hooks, owned);
      PutGets(data.fields, "hooks", Object(events), "hooks");
      DropGets(data.fields, "hooks", "hooks");
    }
  }

  /** Removed and surviving entries together are the original ones. */
  lemma {:induction false} EntriesAreConserved(entries: seq<Json>, owned: set<string>)
    ensures multiset(entries) == multiset(Doomed(entries, owned)) + multiset(Spared(entries, owned))
    ensures |entries| == |Doomed(entries, owned)| + |Spared(entries, owned)|
  {
    if entries != [] {
      var front, last := entries[..|entries| - 1], entries[|entries| - 1];
      EntriesAreConserved(front, owned);
      Split(entries, front, last);
    }
  }

  lemma Split(entries: seq<Json>, front: seq<Json>, last: Json)
    requires entries != [] && front == entries[..|entries| - 1] && last == entries[|entries| - 1]
    ensures multiset(entries) == multiset(front) + multiset{last}
  {
    assert entries == front + [last];
  }

  lemma {:induction false} SparedIsAll(entries: seq<Json>, owned: set<string>)
    requires Doomed(entries, owned) == []
    ensures Spared(entries, owned) == entries
  {
    if entries != [] {
      SparedIsAll(entries[..|entries| - 1], owned);
    }
  }

  lemma {:induction false} SparedAgain(entries: seq<Json>, owned: set<string>)
    ensures Doomed(Spared(entries, owned), owned) == []
  {
    if entries != [] {
      var front, last := entries[..|entries| - 1], entries[|entries| - 1];
      SparedAgain(front, owned);
      if !Condemned(last, owned) {
        EntryLast(Spared(front, owned), last, owned);
      }
    }
  }

  lemma {:induction false} SparedMembers(entries: seq<Json>, owned: set<string>, e: Json)
    ensures e in Spared(entries, owned) <==> e in entries && !Condemned(e, owned)
  {
    if entries != [] {
      var front, last := entries[..|entries| - 1], entries[|entries| - 1];
      SparedMembers(front, owned, e);
      assert entries == front + [last];
    }
  }

  /** A matcher goes exactly when none of its entries may stay. */
  lemma MatcherGoesWhenEmptied(matcher: Json, owned: set<string>)
    ensures MatcherAfter(matcher, owned).None? <==>
              !Closed(matcher) && forall e :: e in Open(matcher) ==> Condemned(e, owned)
  {
    forall e
      ensures e in Spared(Open(matcher), owned) <==> e in Open(matcher) && !Condemned(e, owned)
    {
      SparedMembers(Open(matcher), owned, e);
    }
    var rest := Spared(Open(matcher), owned);
    if rest != [] {
      assert rest[0] in rest;
    }
  }

  /** A second pass removes nothing and writes nothing. */
  lemma SecondPassIsIdle(data: Json, owned: set<string>)
    ensures Doomed(AllOpen(Disabled(data, owned)), owned) == []
    ensures Disabled(Disabled(data, owned), owned) == Disabled(data, owned)
  {
    OnlyCondemnedGo(data, owned);
    SparedAgain(AllOpen(data), owned);
  }

  /** Removed plus surviving entries are the original ones. */
  lemma NothingElseIsLost(data: Json, owned: set<string>, e: Json)
    ensures multiset(AllOpen(data)) == multiset(Doomed(AllOpen(data), owned)) + multiset(AllOpen(Disabled(data, owned)))
    ensures e in AllOpen(Disabled(data, owned)) <==> e in AllOpen(data) && !Condemned(e, owned)
  {
    OnlyCondemnedGo(data, owned);
    EntriesAreConserved(AllOpen(data), owned);
    SparedMembers(AllOpen(data), owned, e);
  }

  /** Every other setting keeps its value. */
  lemma OtherSettingsStay(data: Json, owned: set<string>, key: string)
    requires data.Object? && key != "hooks"
    ensures Disabled(data, owned).Object? && Get(Disabled(data, owned).fields, key) == Get(data.fields, key)
  {
    if Doomed(AllOpen(data), owned) != [] {
      var events := EventsAfter(Hooks(data).value, owned);
      PutGets(data.fields, "hooks", Object(events), key);
      DropGets(data.fields, "hooks", key);
    }
  }

  /** A matcher that may not be edited: tagged as managed, or no list of entries in it. */
  predicate Closed(matcher: Json) {
    Entries(matcher).None?
  }

  function ClosedOnes(matchers: seq<Json>): seq<Json> {
    if matchers == [] then []
    else ClosedOnes(matchers[..|matchers| - 1]) + (if Closed(matchers[|matchers| - 1]) then [matchers[|matchers| - 1]]
        else [])
  }

  /** Closed matchers survive untouched and in order. */
  lemma {:induction false} ClosedOnesStay(matchers: seq<Json>, owned: set<string>)
    ensures ClosedOnes(MatchersAfter(matchers, owned)) == ClosedOnes(matchers)
  {
    if matchers != [] {
      var front, last := matchers[..|matchers| - 1], matchers[|matchers| - 1];
      ClosedOnesStay(front, owned);
      var after := MatcherAfter(last, owned);
      if after.Some? {
        if !Closed(last) {
          var rest := Spared(Entries(last).value, owned);
          PutGets(last.fields, "hooks", List(rest), "hooks");
          PutGets(last.fields, "hooks", List(rest), "_ai_hats_managed");
        }
        assert (MatchersAfter(front, owned) + [after.value])[..|MatchersAfter(front, owned)|] ==
            MatchersAfter(front, owned);
      } else {
        assert MatchersAfter(front, owned) + [] == MatchersAfter(front, owned);
      }
    }
  }

  // ------------------------------------------------------------------ place by place

  /** The indices of the matchers that survive. */
  function MatcherPlaces(matchers: seq<Json>, owned: set<string>): seq<nat> {
    if matchers == [] then []
    else
      var n := |matchers| - 1;
      var before := MatcherPlaces(matchers[..n], owned);
      if MatcherAfter(matchers[n], owned).Some? then before + [n] else before
  }

  function EventPlaces(hooks: seq<Field>, owned: set<string>): seq<nat> {
    if hooks == [] then []
    else
      var n := |hooks| - 1;
      var before := EventPlaces(hooks[..n], owned);
      if EventAfter(hooks[n].value, owned).Some? then before + [n] else before
  }

  ghost predicate Increasing(places: seq<nat>, bound: nat) {
    && (forall i :: 0 <= i < |places| ==> places[i] < bound)
    && (forall i, j :: 0 <= i < j < |places| ==> places[i] < places[j])
  }

  lemma {:induction false} MatcherPlacesAre(matchers: seq<Json>, owned: set<string>, k: nat)
    ensures k in MatcherPlaces(matchers, owned) <==> k < |matchers| && MatcherAfter(matchers[k], owned).Some?
  {
    if matchers != [] {
      var front, n := matchers[..|matchers| - 1], |matchers| - 1;
      MatcherPlacesAre(front, owned, k);
      assert k < n ==> front[k] == matchers[k];
      var stays := MatcherAfter(matchers[n], owned).Some?;
      var before := MatcherPlaces(front, owned);
      assert MatcherPlaces(matchers, owned) == if stays then before + [n] else before;
      assert k in before + [n] <==> k in before || k == n;
    }
  }

  lemma IncreasingSnoc(places: seq<nat>, n: nat)
    requires Increasing(places, n)
    ensures Increasing(places, n + 1) && Increasing(places + [n], n + 1)
  {
  }

  lemma {:induction false} MatcherPlacesIncrease(matchers: seq<Json>, owned: set<string>)
    ensures Increasing(MatcherPlaces(matchers, owned), |matchers|)
    ensures |MatchersAfter(matchers, owned)| == |MatcherPlaces(matchers, owned)|
  {
    if matchers != [] {
      var n := |matchers| - 1;
      MatcherPlacesIncrease(matchers[..n], owned);
      IncreasingSnoc(MatcherPlaces(matchers[..n], owned), n);
    }
  }

  lemma {:induction false} MatcherAtItsPlace(matchers: seq<Json>, owned: set<string>, i: nat)
    requires |MatchersAfter(matchers, owned)| == |MatcherPlaces(matchers, owned)|
    requires Increasing(MatcherPlaces(matchers, owned), |matchers|)
    requires i < |MatcherPlaces(matchers, owned)|
    ensures MatcherAfter(matchers[MatcherPlaces(matchers, owned)[i]], owned) == Some(MatchersAfter(matchers, owned)[i])
  {
    var n := |matchers| - 1;
    var front := matchers[..n];
    MatcherPlacesIncrease(front, owned);
    if i < |MatcherPlaces(front, owned)| {
      MatcherAtItsPlace(front, owned, i);
      assert MatcherPlaces(matchers, owned)[i] == MatcherPlaces(front, owned)[i];
      assert MatchersAfter(matchers, owned)[i] == MatchersAfter(front, owned)[i];
    }
  }

  /** No matcher moves: each that is left is what the one at its place became, and none else goes. */
  lemma MatchersKeepTheirPlace(matchers: seq<Json>, owned: set<string>, i: nat, k: nat)
    ensures
      var places, after := MatcherPlaces(matchers, owned), MatchersAfter(matchers, owned);
      && Increasing(places, |matchers|) && |after| == |places|
      && (i < |places| ==> MatcherAfter(matchers[places[i]], owned) == Some(after[i]))
      && (k in places <==> k < |matchers| && MatcherAfter(matchers[k], owned).Some?)
  {
    MatcherPlacesAre(matchers, owned, k);
    MatcherPlacesIncrease(matchers, owned);
    if i < |MatcherPlaces(matchers, owned)| {
      MatcherAtItsPlace(matchers, owned, i);
    }
  }

  lemma {:induction false} EventPlacesAre(hooks: seq<Field>, owned: set<string>, k: nat)
    ensures k in EventPlaces(hooks, owned) <==> k < |hooks| && EventAfter(hooks[k].value, owned).Some?
  {
    if hooks != [] {
      var front, n := hooks[..|hooks| - 1], |hooks| - 1;
      EventPlacesAre(front, owned, k);
      assert k < n ==> front[k] == hooks[k];
      var stays := EventAfter(hooks[n].value, owned).Some?;
      var before := EventPlaces(front, owned);
      assert EventPlaces(hooks, owned) == if stays then before + [n] else before;
      assert k in before + [n] <==> k in before || k == n;
    }
  }

  lemma {:induction false} EventPlacesIncrease(hooks: seq<Field>, owned: set<string>)
    ensures Increasing(EventPlaces(hooks, owned), |hooks|)
    ensures |EventsAfter(hooks, owned)| == |EventPlaces(hooks, owned)|
  {
    if hooks != [] {
      var n := |hooks| - 1;
      EventPlacesIncrease(hooks[..n], owned);
      IncreasingSnoc(EventPlaces(hooks[..n], owned), n);
    }
  }

  lemma {:induction false} EventAtItsPlace(hooks: seq<Field>, owned: set<string>, i: nat)
    requires |EventsAfter(hooks, owned)| == |EventPlaces(hooks, owned)|
    requires Increasing(EventPlaces(hooks, owned), |hooks|)
    requires i < |EventPlaces(hooks, owned)|
    ensures
      var was, after := hooks[EventPlaces(hooks, owned)[i]], EventsAfter(hooks, owned)[i];
      after.key == was.key && EventAfter(was.value, owned) == Some(after.value)
  {
    var n := |hooks| - 1;
    var front := hooks[..n];
    EventPlacesIncrease(front, owned);
    if i < |EventPlaces(front, owned)| {
      EventAtItsPlace(front, owned, i);
      assert EventPlaces(hooks, owned)[i] == EventPlaces(front, owned)[i];
      assert EventsAfter(hooks, owned)[i] == EventsAfter(front, owned)[i];
    }
  }

  /** No event moves or is renamed: each that is left is what the one at its place became, and none else goes. */
  lemma EventsKeepTheirPlace(hooks: seq<Field>, owned: set<string>, i: nat, k: nat)
    ensures
      var places, after := EventPlaces(hooks, owned), EventsAfter(hooks, owned);
      && Increasing(places, |hooks|) && |after| == |places|
      && (i < |places| ==>
            after[i].key == hooks[places[i]].key && EventAfter(hooks[places[i]].value, owned) == Some(after[i].value))
      && (k in places <==> k < |hooks| && EventAfter(hooks[k].value, owned).Some?)
  {
    EventPlacesAre(hooks, owned, k);
    EventPlacesIncrease(hooks, owned);
    if i < |EventPlaces(hooks, owned)| {
      EventAtItsPlace(hooks, owned, i);
    }
  }

  lemma {:induction false} PutKeepsTheRest(fields: seq<Field>, key: string, value: Json, k: nat)
    requires k < |fields|
    ensures |Put(fields, key, value)| == |fields|
    ensures Put(fields, key, value)[k].key == fields[k].key
    ensures fields[k].key != key ==> Put(fields, key, value)[k] == fields[k]
  {
    if fields[0].key != key && |fields| > 1 {
      PutKeepsTheRest(fields[1..], key, value, if k == 0 then 0 else k - 1);
    }
  }

  /** A matcher that is left keeps every field in its place, and all but its own entries as they were. */
  lemma SurvivorKeepsItsFields(matcher: Json, owned: set<string>, k: nat)
    requires !Closed(matcher) && MatcherAfter(matcher, owned).Some? && k < |matcher.fields|
    ensures
      var after := MatcherAfter(matcher, owned).value;
      && after.Object? && |after.fields| == |matcher.fields|
      && after.fields[k].key == matcher.fields[k].key
      && (matcher.fields[k].key != "hooks" ==> after.fields[k] == matcher.fields[k])
      && Get(after.fields, "hooks") == Some(List(Spared(Entries(matcher).value, owned)))
  {
    var rest := Spared(Entries(matcher).value, owned);
    PutKeepsTheRest(matcher.fields, "hooks", List(rest), k);
    PutGets(matcher.fields, "hooks", List(rest), "hooks");
  }

  ghost predicate AllGo(matchers: seq<Json>, owned: set<string>) {
    forall m :: m in matchers ==> MatcherAfter(m, owned).None?
  }

  lemma AllGoSnoc(front: seq<Json>, last: Json, owned: set<string>)
    ensures AllGo(front + [last], owned) <==> AllGo(front, owned) && MatcherAfter(last, owned).None?
  {
    assert last in front + [last];
    forall m
      ensures m in front + [last] <==> m in front || m == last
    {
    }
  }

  lemma {:induction false} NoMatcherLeft(matchers: seq<Json>, owned: set<string>)
    ensures MatchersAfter(matchers, owned) == [] <==> AllGo(matchers, owned)
  {
    if matchers != [] {
      var n := |matchers| - 1;
      NoMatcherLeft(matchers[..n], owned);
      AllGoSnoc(matchers[..n], matchers[n], owned);
      FrontAndLast(matchers);
    }
  }

  /** An event is left as it is unless it lists matchers; then it goes exactly when none of them is left. */
  lemma EventKeepsItsShape(event: Json, owned: set<string>)
    ensures !event.List? ==> EventAfter(event, owned) == Some(event)
    ensures event.List? ==>
              (EventAfter(event, owned).None? <==> forall m :: m in event.items ==> MatcherAfter(m, owned).None?)
  {
    if event.List? {
      NoMatcherLeft(event.items, owned);
    }
  }

  // ---------------------------------------------------------------- in plain terms

  /** An entry that runs a hook which is not ours from one of the old locations. */
  ghost predicate UserHook(entry: Json, owned: set<string>) {
    entry.Object? && exists command, name ::
      Get(entry.fields, "command") == Some(Text(command)) && Locates(command, name) && name !in owned
  }

  /** A matcher that is ours by its own tag. */
  predicate Tagged(matcher: Json) {
    && matcher.Object? && Get(matcher.fields, "_ai_hats_managed").Some?
    && Get(matcher.fields, "_ai_hats_managed").value !in
         {Null, Bool(false), Number(0), Text(""), List([]), Object([])}
  }

  /** A matcher that may be edited: an object that is not tagged and lists its entries. */
  predicate Editable(matcher: Json) {
    && matcher.Object? && !Tagged(matcher)
    && Get(matcher.fields, "hooks").Some? && Get(matcher.fields, "hooks").value.List?
  }

  lemma CondemnedIsUserHook(entry: Json, owned: set<string>)
    ensures Condemned(entry, owned) <==> UserHook(entry, owned)
  {
    if Command(entry).Some? {
      var command := Command(entry).value;
      forall name
        ensures Basename(command) == Some(name) <==> Locates(command, name)
      {
        BasenameLocates(command, name);
      }
      if Condemned(entry, owned) {
        assert Locates(command, Basename(command).value);
      }
    }
  }

  lemma OpenIsEditable(matcher: Json)
    ensures !Closed(matcher) <==> Editable(matcher)
    ensures Editable(matcher) ==> Get(matcher.fields, "hooks") == Some(List(Open(matcher)))
    ensures !Editable(matcher) ==> Open(matcher) == []
  {
  }

  /** The entries without the user's hooks, in order. */
  ghost function WithoutUserHooks(entries: seq<Json>, owned: set<string>): seq<Json> {
    if entries == [] then []
    else
      var before, last := WithoutUserHooks(entries[..|entries| - 1], owned), entries[|entries| - 1];
      if UserHook(last, owned) then before else before + [last]
  }

  lemma {:induction false} SparedInPlainTerms(entries: seq<Json>, owned: set<string>)
    ensures Spared(entries, owned) == WithoutUserHooks(entries, owned)
    ensures Doomed(entries, owned) == [] <==> forall k :: 0 <= k < |entries| ==> !UserHook(entries[k], owned)
  {
    if entries != [] {
      SparedInPlainTerms(entries[..|entries| - 1], owned);
      CondemnedIsUserHook(entries[|entries| - 1], owned);
    }
  }

  /**
   What becomes of a matcher: one that is tagged, no object or without a list of entries stays as
   it is; any other keeps exactly the entries that are no user's hooks, and goes when there are none.
   */
  lemma MatcherInPlainTerms(matcher: Json, owned: set<string>)
    ensures !Editable(matcher) ==> MatcherAfter(matcher, owned) == Some(matcher)
    ensures Editable(matcher) ==>
              var rest := WithoutUserHooks(Get(matcher.fields, "hooks").value.items, owned);
              var after := MatcherAfter(matcher, owned);
              && (after.None? <==> rest == [])
              && (after.Some? ==> after.value.Object? && Get(after.value.fields, "hooks") == Some(List(rest)))
  {
    OpenIsEditable(matcher);
    if Editable(matcher) {
      SparedInPlainTerms(Open(matcher), owned);
      PutGets(matcher.fields, "hooks", List(Spared(Open(matcher), owned)), "hooks");
    }
  }

  ghost predicate HoldsUserHook(entries: seq<Json>, owned: set<string>) {
    exists k :: 0 <= k < |entries| && UserHook(entries[k], owned)
  }

  /** An editable matcher with a user's hook in it. */
  ghost predicate HasUserHook(matcher: Json, owned: set<string>) {
    Editable(matcher) && HoldsUserHook(Get(matcher.fields, "hooks").value.items, owned)
  }

  ghost predicate SomeHasUserHook(matchers: seq<Json>, owned: set<string>) {
    exists j :: 0 <= j < |matchers| && HasUserHook(matchers[j], owned)
  }

  ghost predicate EventHasUserHook(event: Json, owned: set<string>) {
    event.List? && SomeHasUserHook(event.items, owned)
  }

  ghost predicate SomeEventHasUserHook(hooks: seq<Field>, owned: set<string>) {
    exists i :: 0 <= i < |hooks| && EventHasUserHook(hooks[i].value, owned)
  }

  lemma MatcherIsDoomed(matcher: Json, owned: set<string>)
    ensures Doomed(Open(matcher), owned) != [] <==> HasUserHook(matcher, owned)
  {
    OpenIsEditable(matcher);
    SparedInPlainTerms(Open(matcher), owned);
  }

  lemma DoomedOfBoth(a: seq<Json>, b: seq<Json>, owned: set<string>)
    ensures Doomed(a + b, owned) == [] <==> Doomed(a, owned) == [] && Doomed(b, owned) == []
  {
    PassAppend(a, b, owned);
  }

  lemma SomeHasSnoc(matchers: seq<Json>, owned: set<string>)
    requires matchers != []
    ensures
      var n := |matchers| - 1;
      SomeHasUserHook(matchers, owned) <==> SomeHasUserHook(matchers[..n], owned) || HasUserHook(matchers[n], owned)
  {
    var n := |matchers| - 1;
    if SomeHasUserHook(matchers[..n], owned) {
      var j :| 0 <= j < n && HasUserHook(matchers[..n][j], owned);
      assert HasUserHook(matchers[j], owned);
    }
    if SomeHasUserHook(matchers, owned) && !HasUserHook(matchers[n], owned) {
      var j :| 0 <= j < |matchers| && HasUserHook(matchers[j], owned);
      assert matchers[..n][j] == matchers[j];
    }
  }

  lemma {:induction false} MatchersAreDoomed(matchers: seq<Json>, owned: set<string>)
    ensures Doomed(OpenAll(matchers), owned) != [] <==> SomeHasUserHook(matchers, owned)
  {
    if matchers != [] {
      var front, last := matchers[..|matchers| - 1], matchers[|matchers| - 1];
      MatchersAreDoomed(front, owned);
      MatcherIsDoomed(last, owned);
      SomeHasSnoc(matchers, owned);
      DoomedOfBoth(OpenAll(front), Open(last), owned);
    }
  }

  lemma SomeEventHasSnoc(hooks: seq<Field>, owned: set<string>)
    requires hooks != []
    ensures
      var n := |hooks| - 1;
      SomeEventHasUserHook(hooks, owned) <==>
        SomeEventHasUserHook(hooks[..n], owned) || EventHasUserHook(hooks[n].value, owned)
  {
    var n := |hooks| - 1;
    if SomeEventHasUserHook(hooks[..n], owned) {
      var i :| 0 <= i < n && EventHasUserHook(hooks[..n][i].value, owned);
      assert EventHasUserHook(hooks[i].value, owned);
    }
    if SomeEventHasUserHook(hooks, owned) && !EventHasUserHook(hooks[n].value, owned) {
      var i :| 0 <= i < |hooks| && EventHasUserHook(hooks[i].value, owned);
      assert hooks[..n][i] == hooks[i];
    }
  }

  lemma EventIsDoomed(event: Json, owned: set<string>)
    ensures Doomed(OpenEvent(event), owned) != [] <==> EventHasUserHook(event, owned)
  {
    if event.List? {
      MatchersAreDoomed(event.items, owned);
    }
  }

  lemma {:induction false} EventsAreDoomed(hooks: seq<Field>, owned: set<string>)
    ensures Doomed(OpenEvents(hooks), owned) != [] <==> SomeEventHasUserHook(hooks, owned)
  {
    if hooks != [] {
      var front, last := hooks[..|hooks| - 1], hooks[|hooks| - 1];
      EventsAreDoomed(front, owned);
      EventIsDoomed(last.value, owned);
      SomeEventHasSnoc(hooks, owned);
      DoomedOfBoth(OpenEvents(front), OpenEvent(last.value), owned);
    }
  }

  /** Settings with hooks in them, some of which are the user's at an old location. */
  ghost predicate SettingsHaveUserHook(data: Json, owned: set<string>) {
    && data.Object? && Get(data.fields, "hooks").Some? && Get(data.fields, "hooks").value.Object?
    && SomeEventHasUserHook(Get(data.fields, "hooks").value.fields, owned)
  }

  /**
   The settings are changed exactly when some editable matcher of some event holds a user's hook.
   Then the hooks become what is left of the events, and the key goes when nothing is left.
   */
  lemma SettingsInPlainTerms(data: Json, owned: set<string>)
    ensures Doomed(AllOpen(data), owned) != [] <==> SettingsHaveUserHook(data, owned)
    ensures !SettingsHaveUserHook(data, owned) ==> Disabled(data, owned) == data
    ensures SettingsHaveUserHook(data, owned) ==>
              var events := EventsAfter(Get(data.fields, "hooks").value.fields, owned);
              && Disabled(data, owned).Object?
              && Get(Disabled(data, owned).fields, "hooks") == if events == [] then None else Some(Object(events))
  {
    if Hooks(data).Some? {
      var hooks := Hooks(data).value;
      EventsAreDoomed(hooks, owned);
      PutGets(data.fields, "hooks", Object(EventsAfter(hooks, owned)), "hooks");
      DropGets(data.fields, "hooks", "hooks");
    }
  }

  /** The report names the command and the same hook among the user's own, behind the same start. */
  lemma ReportNamesHook(entry: Json, command: string, start: string, prefix: string, name: string, rest: string)
    requires entry.Object? && Get(entry.fields, "command") == Some(Text(command))
    requires Located(command, start, prefix, name, rest)
    ensures RefOf(entry) == Ref(command, start + (".agent/ai-hats/user-hooks/" + name))
  {
    LocatedIsBasename(command, start, prefix, name, rest);
    PrefixesDiffer(prefix + (name + rest), prefix, name + rest);
    assert start == "" ==> command == prefix + (name + rest);
  }
}
