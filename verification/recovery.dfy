/**
 Reclaiming session directories and project keys whose processes are gone.

 The process table changes while a sweep runs.  A `Moment` is what the system would
 answer at one instant; a history is a row of moments, and every look of a sweep
 happens at one of them.
 */
module Recovery {
  import opened Wrappers
  import opened Lists

  // ------------------------------------------------------------------- processes

  /** A process: its start time, and whether it has exited but not been waited for. */
  datatype Process = Process(start: string, zombie: bool)

  type Table = map<int, Process>

  /** A process that keeps a directory in use: its pid and, when it was read, its start time. */
  datatype Owner = Owner(pid: int, start: Option<string>)

  /** One reading of the whole table; a malformed row leaves an empty start time. */
  datatype Snapshot = Snapshot(available: bool, starts: map<int, string>, zombies: set<int>)

  /**
   `unsure` are the pids for which `kill` fails in a way that proves nothing, `doubted`
   those whose zombie probe gives no answer.
   */
  datatype Moment = Moment(table: Table, unsure: set<int>, doubted: set<int>, captured: Snapshot)

  ghost predicate Faithful(m: Moment) {
    m.captured.available ==>
      && m.captured.starts.Keys <= m.table.Keys
      && (forall pid :: pid in m.captured.starts ==> m.captured.starts[pid] in {"", m.table[pid].start})
      && (forall pid :: pid in m.captured.zombies ==> pid in m.table && m.table[pid].zombie)
  }

  /** From one instant to the next: a process keeps its start time, and an exit is for good. */
  ghost predicate Follows(before: Table, after: Table) {
    forall pid :: pid in before && pid in after ==>
      after[pid].start == before[pid].start && (before[pid].zombie ==> after[pid].zombie)
  }

  ghost predicate Timeline(h: seq<Moment>) {
    && (forall i :: 0 <= i < |h| ==> Faithful(h[i]))
    && (forall i :: 0 < i < |h| ==> Follows(h[i - 1].table, h[i].table))
  }

  /** The process the owner names is running. */
  predicate Running(table: Table, owner: Owner) {
    && owner.pid in table
    && !table[owner.pid].zombie
    && (owner.start.Some? ==> owner.start.value == table[owner.pid].start)
  }

  // -------------------------------------------------------------------- verdicts

  predicate PidAlive(m: Moment, pid: int) {
    pid in m.unsure || (pid in m.table && (m.table[pid].zombie ==> pid in m.doubted))
  }

  predicate SnapshotIsLive(snap: Snapshot, m: Moment, owner: Owner) {
    if owner.pid <= 0 then true
    else if !snap.available then PidAlive(m, owner.pid)
    else if owner.pid in snap.zombies then false
    else if owner.pid !in snap.starts then false
    else if owner.start.None? || snap.starts[owner.pid] == "" then true
    else snap.starts[owner.pid] == owner.start.value
  }

  predicate Verdict(snap: Snapshot, m: Moment, owner: Owner) {
    if !PidAlive(m, owner.pid) then false
    else if owner.start.None? then true
    else if snap.available && owner.pid !in snap.starts then true
    else SnapshotIsLive(snap, m, owner)
  }

  /** The table that decides: the one already read, else the one that would be read now. */
  function Effective(cache: Option<Snapshot>, m: Moment): Snapshot {
    if cache.Some? then cache.value else m.captured
  }

  function AfterQuery(cache: Option<Snapshot>, m: Moment, owner: Owner): Option<Snapshot> {
    if cache.None? && PidAlive(m, owner.pid) && owner.start.Some? then Some(m.captured) else cache
  }

  predicate AnyLive(snap: Snapshot, m: Moment, owners: seq<Owner>) {
    exists i :: 0 <= i < |owners| && Verdict(snap, m, owners[i])
  }

  /** Owners are asked in order until one is live. */
  function AfterOwners(cache: Option<Snapshot>, m: Moment, owners: seq<Owner>): Option<Snapshot>
    decreases |owners|
  {
    if owners == [] then cache
    else
      var after := AfterQuery(cache, m, owners[0]);
      if Verdict(Effective(cache, m), m, owners[0]) then after else AfterOwners(after, m, owners[1..])
  }

  /** The process table, read at most once and only when a verdict needs it. */
  class LazyLiveness {
    var snapshot: Option<Snapshot>

    constructor ()
      ensures snapshot == None
    {
      snapshot := None;
    }

    method IsLive(m: Moment, owner: Owner) returns (live: bool)
      modifies this
      ensures live == Verdict(Effective(old(snapshot), m), m, owner)
      ensures snapshot == AfterQuery(old(snapshot), m, owner)
    {
      if !PidAlive(m, owner.pid) {
        return false;
      }
      if owner.start.None? {
        return true;
      }
      if snapshot.None? {
        snapshot := Some(m.captured);
      }
      if snapshot.value.available && owner.pid !in snapshot.value.starts {
        return true;
      }
      return SnapshotIsLive(snapshot.value, m, owner);
    }

    method Any(m: Moment, owners: seq<Owner>) returns (live: bool)
      modifies this
      ensures live == AnyLive(Effective(old(snapshot), m), m, owners)
      ensures snapshot == AfterOwners(old(snapshot), m, owners)
    {
      var i := 0;
      while i < |owners|
        invariant 0 <= i <= |owners|
        invariant Effective(snapshot, m) == Effective(old(snapshot), m)
        invariant forall k :: 0 <= k < i ==> !Verdict(Effective(snapshot, m), m, owners[k])
        invariant AfterOwners(old(snapshot), m, owners) == AfterOwners(snapshot, m, owners[i..])
      {
        live := IsLive(m, owners[i]);
        if live {
          return true;
        }
        i := i + 1;
      }
      return false;
    }
  }

  lemma {:induction false} AfterOwnersIsCaptured(cache: Option<Snapshot>, m: Moment, owners: seq<Owner>)
    ensures
      var after := AfterOwners(cache, m, owners);
      after == cache || (cache.None? && after == Some(m.captured))
    decreases |owners|
  {
    if owners != [] && !Verdict(Effective(cache, m), m, owners[0]) {
      AfterOwnersIsCaptured(AfterQuery(cache, m, owners[0]), m, owners[1..]);
    }
  }

  /**
   A running owner is called dead exactly when the table read earlier shows another
   process, or a zombie, at its pid.
  */
  ghost predicate Outdated(snap: Snapshot, owner: Owner) {
    && owner.start.Some? && owner.pid > 0
    && snap.available && owner.pid in snap.starts
    && (owner.pid in snap.zombies || snap.starts[owner.pid] !in {"", owner.start.value})
  }

  /** For any owner: live exactly when its pid answers and the table in use does not contradict it. */
  lemma VerdictIsExactly(snap: Snapshot, m: Moment, owner: Owner)
    ensures Verdict(snap, m, owner) <==> PidAlive(m, owner.pid) && !Outdated(snap, owner)
    ensures PidAlive(m, owner.pid) <==>
            || owner.pid in m.unsure
            || (owner.pid in m.table && (!m.table[owner.pid].zombie || owner.pid in m.doubted))
  {
  }

  /** A full reading taken now, with no doubt and no malformed row, tells the truth. */
  lemma FreshVerdictIsTrue(m: Moment, owner: Owner)
    requires Faithful(m) && owner.pid > 0 && owner.pid !in m.doubted && owner.pid !in m.unsure
    requires m.captured.available
    requires forall pid :: pid in m.table ==> pid in m.captured.starts && m.captured.starts[pid] != ""
    ensures Verdict(m.captured, m, owner) <==> Running(m.table, owner)
  {
  }

  /** Between the two moments the pid was free, so another process may have taken it. */
  ghost predicate Recycled(h: seq<Moment>, from: int, to: int, pid: int) {
    exists k :: 0 <= from < k < to <= |h| && pid !in h[k].table
  }

  lemma {:induction false} SameProcess(h: seq<Moment>, from: nat, to: nat, pid: int)
    requires Timeline(h) && from <= to < |h|
    requires pid in h[from].table && pid in h[to].table && !Recycled(h, from, to, pid)
    ensures h[to].table[pid].start == h[from].table[pid].start
    ensures h[from].table[pid].zombie ==> h[to].table[pid].zombie
  {
    if from < to {
      assert pid in h[to - 1].table;
      assert !Recycled(h, from, to - 1, pid);
      SameProcess(h, from, to - 1, pid);
      assert Follows(h[to - 1].table, h[to].table);
    }
  }

  // --------------------------------------------------------------------- sessions

  /** A session directory; `owners` is `None` when its anchor is present but unusable. */
  datatype Entry = Entry(name: string, owners: Option<seq<Owner>>, touched: int)

  /** A directory and the moment at which a sweep considers it. */
  datatype Look = Look(entry: Entry, moment: Moment)

  datatype Reason = Aged | Gone(wrapper: int, child: Option<int>)

  predicate Keeps(snap: Snapshot, look: Look, cutoff: int) {
    match look.entry.owners
    case None => true
    case Some(owners) =>
      if owners == [] then look.entry.touched >= cutoff else AnyLive(snap, look.moment, owners)
  }

  function AfterLook(cache: Option<Snapshot>, look: Look): Option<Snapshot> {
    match look.entry.owners
    case None => cache
    case Some(owners) => AfterOwners(cache, look.moment, owners)
  }

  function After(cache: Option<Snapshot>, looks: seq<Look>): Option<Snapshot> {
    if looks == [] then cache else AfterLook(After(cache, looks[..|looks| - 1]), looks[|looks| - 1])
  }

  /** The directories left, in order. */
  function Kept(cache: Option<Snapshot>, looks: seq<Look>, cutoff: int): seq<Entry> {
    if looks == [] then []
    else
      var front, last := looks[..|looks| - 1], looks[|looks| - 1];
      Kept(cache, front, cutoff)
      + (if Keeps(Effective(After(cache, front), last.moment), last, cutoff) then [last.entry] else [])
  }

  method ReapReason(look: Look, cutoff: int, liveness: LazyLiveness) returns (reason: Option<Reason>)
    modifies liveness
    ensures reason.None? <==> Keeps(Effective(old(liveness.snapshot), look.moment), look, cutoff)
    ensures look.entry.owners == Some([]) ==> reason == if look.entry.touched < cutoff then Some(Aged) else None
    ensures reason == Some(Aged) ==> look.entry.owners == Some([])
    ensures reason.Some? && reason.value.Gone? ==>
              && look.entry.owners.value != [] && reason.value.wrapper == look.entry.owners.value[0].pid
              && (reason.value.child.Some? <==> |look.entry.owners.value| > 1)
              && (reason.value.child.Some? ==> reason.value.child.value == look.entry.owners.value[1].pid)
    ensures liveness.snapshot == AfterLook(old(liveness.snapshot), look)
  {
    match look.entry.owners {
      case None =>
        return None;
      case Some(owners) =>
        if owners == [] {
          return if look.entry.touched < cutoff then Some(Aged) else None;
        }
        var live := liveness.Any(look.moment, owners);
        if live {
          return None;
        }
        return Some(Gone(owners[0].pid, if |owners| == 1 then None else Some(owners[1].pid)));
    }
  }

  method ExpireSessionDirs(looks: seq<Look>, cutoff: int, liveness: LazyLiveness)
    returns (kept: seq<Entry>, reclaimed: nat)
    modifies liveness
    ensures kept == Kept(old(liveness.snapshot), looks, cutoff)
    ensures |kept| + reclaimed == |looks|
    ensures liveness.snapshot == After(old(liveness.snapshot), looks)
  {
    kept, reclaimed := [], 0;
    for i := 0 to |looks|
      invariant kept == Kept(old(liveness.snapshot), looks[..i], cutoff)
      invariant |kept| + reclaimed == i
      invariant liveness.snapshot == After(old(liveness.snapshot), looks[..i])
    {
      assert looks[..i + 1][..i] == looks[..i];
      var reason := ReapReason(looks[i], cutoff, liveness);
      if reason.None? {
        kept := kept + [looks[i].entry];
      } else {
        reclaimed := reclaimed + 1;
      }
    }
    assert looks[..|looks|] == looks;
  }

  /** The looks made until a session is found that must stay. */
  function Examined(cache: Option<Snapshot>, looks: seq<Look>, cutoff: int): seq<Look> {
    if looks == [] then []
    else
      var front := looks[..|looks| - 1];
      if Kept(cache, front, cutoff) != [] then Examined(cache, front, cutoff) else looks
  }

  lemma {:induction false} KeptGrows(cache: Option<Snapshot>, looks: seq<Look>, cutoff: int, i: nat)
    requires i <= |looks|
    ensures Kept(cache, looks[..i], cutoff) <= Kept(cache, looks, cutoff)
    ensures Kept(cache, looks[..i], cutoff) != [] ==>
        Examined(cache, looks, cutoff) == Examined(cache, looks[..i], cutoff)
  {
    if i < |looks| {
      KeptGrows(cache, looks[..|looks| - 1], cutoff, i);
      assert looks[..|looks| - 1][..i] == looks[..i];
    } else {
      assert looks[..i] == looks;
    }
  }

  /**
   The two sweeps agree: a key has no session that must stay exactly when the session
   sweep, making the same looks, would leave none; otherwise it names the first left.
   */
  method LiveSessionIn(looks: seq<Look>, cutoff: int, liveness: LazyLiveness) returns (name: Option<string>)
    modifies liveness
    ensures
      var kept := Kept(old(liveness.snapshot), looks, cutoff);
      name == if kept == [] then None else Some(kept[0].name)
    ensures liveness.snapshot == After(old(liveness.snapshot), Examined(old(liveness.snapshot), looks, cutoff))
  {
    ghost var cache := liveness.snapshot;
    for i := 0 to |looks|
      invariant Kept(cache, looks[..i], cutoff) == []
      invariant Examined(cache, looks[..i], cutoff) == looks[..i]
      invariant liveness.snapshot == After(cache, looks[..i])
    {
      assert looks[..i + 1][..i] == looks[..i];
      KeptGrows(cache, looks, cutoff, i + 1);
      var entry := looks[i].entry;
      if entry.owners.None? {
        return Some(entry.name);
      }
      if entry.owners.value == [] {
        if entry.touched >= cutoff {
          return Some(entry.name);
        }
      } else {
        var live := liveness.Any(looks[i].moment, entry.owners.value);
        if live {
          return Some(entry.name);
        }
      }
    }
    assert looks[..|looks|] == looks;
    return None;
  }

  // ----------------------------------------------------------------- whole histories

  /** Look by look, at moments of the history that never go back. */
  ghost predicate Scheduled(h: seq<Moment>, at: seq<nat>, looks: seq<Look>) {
    && |at| == |looks|
    && (forall i :: 0 <= i < |at| ==> at[i] < |h| && looks[i].moment == h[at[i]])
    && (forall i, j :: 0 <= i <= j < |at| ==> at[i] <= at[j])
  }

  /** The table in use was read at some earlier look. */
  lemma {:induction false} CapturedAt(looks: seq<Look>) returns (j: nat)
    requires After(None, looks).Some?
    ensures j < |looks| && After(None, looks).value == looks[j].moment.captured
  {
    var front, last := looks[..|looks| - 1], looks[|looks| - 1];
    if last.entry.owners.Some? {
      AfterOwnersIsCaptured(After(None, front), last.moment, last.entry.owners.value);
    }
    if After(None, front).Some? {
      j := CapturedAt(front);
    } else {
      j := |front|;
    }
  }

  ghost predicate RecycledSinceRead(h: seq<Moment>, at: seq<nat>, i: nat, pid: int)
    requires i < |at|
  {
    exists j :: 0 <= j <= i && Recycled(h, at[j], at[i], pid)
  }

  ghost predicate Taken(looks: seq<Look>, cutoff: int, i: nat)
    requires i < |looks|
  {
    !Keeps(Effective(After(None, looks[..i]), looks[i].moment), looks[i], cutoff)
  }

  /**
   Over every history, a directory with an unusable anchor is never taken, and one
   with a running owner only if that owner's pid was freed, and taken again, after
   an earlier look of the same sweep read the table.
   */
  lemma RunningSessionIsTakenOnlyRecycled(
    h: seq<Moment>, at: seq<nat>, looks: seq<Look>, cutoff: int, i: nat, owner: Owner)
    requires Timeline(h) && Scheduled(h, at, looks) && i < |looks| && Taken(looks, cutoff, i)
    ensures looks[i].entry.owners.Some?
    ensures owner in looks[i].entry.owners.value && Running(h[at[i]].table, owner) ==>
              RecycledSinceRead(h, at, i, owner.pid)
  {
    var owners := looks[i].entry.owners.value;
    if owner in owners && Running(h[at[i]].table, owner) {
      var snap := Effective(After(None, looks[..i]), looks[i].moment);
      assert !Verdict(snap, looks[i].moment, owner);
      VerdictIsExactly(snap, looks[i].moment, owner);
      var j := i;
      if After(None, looks[..i]).Some? {
        j := CapturedAt(looks[..i]);
      }
      assert snap == h[at[j]].captured;
      assert Faithful(h[at[j]]);
      if !Recycled(h, at[j], at[i], owner.pid) {
        SameProcess(h, at[j], at[i], owner.pid);
      }
    }
  }

  /** The table that look `i` of a sweep goes by. */
  function TableInUse(looks: seq<Look>, i: nat): Snapshot
    requires i < |looks|
  {
    Effective(After(None, looks[..i]), looks[i].moment)
  }

  /**
   Exactly when a directory that names owners is taken: the table in use is outdated
   for each of them whose pid answers.
   */
  lemma OwnedSessionIsTakenExactly(looks: seq<Look>, cutoff: int, i: nat)
    requires i < |looks| && looks[i].entry.owners.Some? && looks[i].entry.owners.value != []
    ensures Taken(looks, cutoff, i) <==>
              forall o :: o in looks[i].entry.owners.value && PidAlive(looks[i].moment, o.pid) ==>
                Outdated(TableInUse(looks, i), o)
  {
    var owners, m, snap := looks[i].entry.owners.value, looks[i].moment, TableInUse(looks, i);
    forall o
      ensures Verdict(snap, m, o) <==> PidAlive(m, o.pid) && !Outdated(snap, o)
    {
      VerdictIsExactly(snap, m, o);
    }
    if AnyLive(snap, m, owners) {
      var k :| 0 <= k < |owners| && Verdict(snap, m, owners[k]);
      assert owners[k] in owners;
    }
  }

  /** A directory that names no owner is taken exactly when it is aged, whatever the table. */
  lemma OwnerlessIsTakenWhenAged(looks: seq<Look>, cutoff: int, i: nat)
    requires i < |looks|
    ensures looks[i].entry.owners == Some([]) ==> (Taken(looks, cutoff, i) <==> looks[i].entry.touched < cutoff)
    ensures looks[i].entry.owners.None? ==> !Taken(looks, cutoff, i)
  {
  }

  /** In particular, when all its owners run: exactly when the table in use is outdated for all of them. */
  lemma RunningSessionIsTakenExactly(looks: seq<Look>, cutoff: int, i: nat)
    requires i < |looks| && looks[i].entry.owners.Some? && looks[i].entry.owners.value != []
    requires forall o :: o in looks[i].entry.owners.value ==> Running(looks[i].moment.table, o)
    ensures Taken(looks, cutoff, i) <==>
              forall o :: o in looks[i].entry.owners.value ==> Outdated(TableInUse(looks, i), o)
  {
    OwnedSessionIsTakenExactly(looks, cutoff, i);
  }

  /** So while no pid is freed, nothing with a running owner is taken. */
  lemma RunningSessionIsTakenOnlyAfterReuse(
    h: seq<Moment>, at: seq<nat>, looks: seq<Look>, cutoff: int, i: nat, owner: Owner)
    requires Timeline(h) && Scheduled(h, at, looks) && i < |looks|
    requires looks[i].entry.owners.Some? && owner in looks[i].entry.owners.value && Running(h[at[i]].table, owner)
    ensures Taken(looks, cutoff, i) ==> Recycled(h, at[0], at[i], owner.pid)
  {
    if Taken(looks, cutoff, i) {
      RunningSessionIsTakenOnlyRecycled(h, at, looks, cutoff, i, owner);
      var j :| 0 <= j <= i && Recycled(h, at[j], at[i], owner.pid);
      var k :| at[j] < k < at[i] && owner.pid !in h[k].table;
      assert at[0] <= at[j];
    }
  }

  /** Without the condition a running session is lost: its pid belonged to another process when the table was read. */
  lemma RecycledPidLosesRunningSession(a: string, b: string)
    requires a != b && a != ""
    ensures
      var first, second := Owner(7, Some(a)), Owner(7, Some(b));
      var before := Moment(map[7 := Process(a, false)], {}, {}, Snapshot(true, map[7 := a], {}));
      var between := Moment(map[], {}, {}, Snapshot(true, map[], {}));
      var after := Moment(map[7 := Process(b, false)], {}, {}, Snapshot(true, map[7 := b], {}));
      var h := [before, between, after];
      var looks := [Look(Entry("one", Some([first]), 0), before), Look(Entry("two", Some([second]), 0), after)];
      && Timeline(h) && Scheduled(h, [0, 2], looks)
      && Running(h[2].table, second) && Taken(looks, 0, 1)
  {
    var first, second := Owner(7, Some(a)), Owner(7, Some(b));
    var before := Moment(map[7 := Process(a, false)], {}, {}, Snapshot(true, map[7 := a], {}));
    var after := Moment(map[7 := Process(b, false)], {}, {}, Snapshot(true, map[7 := b], {}));
    var looks := [Look(Entry("one", Some([first]), 0), before), Look(Entry("two", Some([second]), 0), after)];
    assert looks[..1] == [looks[0]] && looks[..1][..0] == [];
    assert After(None, looks[..1]) == Some(before.captured);
  }

  // ---------------------------------------------------------------------- keys

  /** A project key, with the looks its sessions get if it comes to that. */
  datatype Key = Key(name: string, directory: bool, touched: int, worktrees: bool, looks: seq<Look>)

  datatype Policy = Policy(own: string, cutoff: int, sessionCutoff: int)

  /** Neither ours, nor recent, nor holding worktrees. */
  predicate Candidate(key: Key, p: Policy) {
    key.name != p.own && key.directory && key.touched < p.cutoff && !key.worktrees
  }

  /** Every look of the sweep, in order. */
  function AllLooks(cache: Option<Snapshot>, keys: seq<Key>, p: Policy): seq<Look> {
    if keys == [] then []
    else
      var before, key := AllLooks(cache, keys[..|keys| - 1], p), keys[|keys| - 1];
      before + (if Candidate(key, p) then Examined(After(cache, before), key.looks, p.sessionCutoff) else [])
  }

  predicate KeyTaken(cache: Option<Snapshot>, keys: seq<Key>, p: Policy, i: nat)
    requires i < |keys|
  {
    && Candidate(keys[i], p)
    && Kept(After(cache, AllLooks(cache, keys[..i], p)), keys[i].looks, p.sessionCutoff) == []
  }

  lemma {:induction false} AfterAppend(cache: Option<Snapshot>, a: seq<Look>, b: seq<Look>)
    ensures After(cache, a + b) == After(After(cache, a), b)
  {
    if b == [] {
      assert a + b == a;
    } else {
      AfterAppend(cache, a, b[..|b| - 1]);
      assert (a + b)[..|a + b| - 1] == a + b[..|b| - 1];
    }
  }

  lemma LooksSnoc(cache: Option<Snapshot>, keys: seq<Key>, p: Policy, i: nat)
    requires i < |keys|
    ensures
      var before := AllLooks(cache, keys[..i], p);
      var during := if Candidate(keys[i], p) then Examined(After(cache, before), keys[i].looks, p.sessionCutoff)
          else [];
      After(cache, AllLooks(cache, keys[..i + 1], p)) == After(After(cache, before), during)
  {
    assert keys[..i + 1][..i] == keys[..i];
    var before := AllLooks(cache, keys[..i], p);
    AfterAppend(cache, before, if Candidate(keys[i], p) then Examined(After(cache, before), keys[i].looks,
        p.sessionCutoff) else []);
  }

  function KeysTaken(cache: Option<Snapshot>, keys: seq<Key>, p: Policy): seq<bool> {
    if keys == [] then []
    else KeysTaken(cache, keys[..|keys| - 1], p) + [KeyTaken(cache, keys, p, |keys| - 1)]
  }

  lemma {:induction false} KeysTakenAt(cache: Option<Snapshot>, keys: seq<Key>, p: Policy, i: nat)
    requires i < |keys|
    ensures |KeysTaken(cache, keys, p)| == |keys|
    ensures KeysTaken(cache, keys, p)[i] == KeyTaken(cache, keys, p, i)
  {
    var front := keys[..|keys| - 1];
    if i < |front| {
      KeysTakenAt(cache, front, p, i);
      assert front[..i] == keys[..i];
    } else if front != [] {
      KeysTakenAt(cache, front, p, 0);
    }
  }

  lemma KeysTakenSnoc(cache: Option<Snapshot>, keys: seq<Key>, p: Policy, i: nat)
    requires i < |keys|
    ensures KeysTaken(cache, keys[..i + 1], p) == KeysTaken(cache, keys[..i], p) + [KeyTaken(cache, keys, p, i)]
  {
    assert keys[..i + 1][..i] == keys[..i];
  }

  method SweepKey(key: Key, p: Policy, liveness: LazyLiveness) returns (goes: bool)
    modifies liveness
    ensures goes <==> Candidate(key, p) && Kept(old(liveness.snapshot), key.looks, p.sessionCutoff) == []
    ensures
      var looks := if Candidate(key, p) then Examined(old(liveness.snapshot), key.looks, p.sessionCutoff) else [];
      liveness.snapshot == After(old(liveness.snapshot), looks)
  {
    if !Candidate(key, p) {
      return false;
    }
    var live := LiveSessionIn(key.looks, p.sessionCutoff, liveness);
    return live.None?;
  }

  method SweepOrphanProjectKeys(keys: seq<Key>, p: Policy, liveness: LazyLiveness)
    returns (taken: seq<bool>, reclaimed: nat)
    modifies liveness
    ensures taken == KeysTaken(old(liveness.snapshot), keys, p)
    ensures reclaimed == Count(taken, true)
    ensures liveness.snapshot == After(old(liveness.snapshot), AllLooks(old(liveness.snapshot), keys, p))
  {
    ghost var cache := liveness.snapshot;
    taken, reclaimed := [], 0;
    for i := 0 to |keys|
      invariant taken == KeysTaken(cache, keys[..i], p)
      invariant reclaimed == Count(taken, true)
      invariant liveness.snapshot == After(cache, AllLooks(cache, keys[..i], p))
    {
      LooksSnoc(cache, keys, p, i);
      KeysTakenSnoc(cache, keys, p, i);
      var goes := SweepKey(keys[i], p, liveness);
      CountSnoc(taken, goes, true);
      taken := taken + [goes];
      reclaimed := reclaimed + if goes then 1 else 0;
    }
    assert keys[..|keys|] == keys;
  }

  /** Look `i` of a sweep keeps its directory. */
  ghost predicate KeepsAt(cache: Option<Snapshot>, looks: seq<Look>, cutoff: int, i: int) {
    0 <= i < |looks| && Keeps(Effective(After(cache, looks[..i]), looks[i].moment), looks[i], cutoff)
  }

  lemma KeepsAtSnoc(cache: Option<Snapshot>, looks: seq<Look>, cutoff: int, i: int)
    requires looks != [] && i < |looks| - 1
    ensures KeepsAt(cache, looks, cutoff, i) <==> KeepsAt(cache, looks[..|looks| - 1], cutoff, i)
  {
    if i >= 0 {
      assert looks[..|looks| - 1][..i] == looks[..i];
    }
  }

  ghost predicate NothingIsKept(cache: Option<Snapshot>, looks: seq<Look>, cutoff: int) {
    forall i :: !KeepsAt(cache, looks, cutoff, i)
  }

  lemma NothingIsKeptSnoc(cache: Option<Snapshot>, looks: seq<Look>, cutoff: int)
    requires looks != []
    ensures
      var n := |looks| - 1;
      NothingIsKept(cache, looks, cutoff) <==>
        NothingIsKept(cache, looks[..n], cutoff) && !KeepsAt(cache, looks, cutoff, n)
  {
    var n := |looks| - 1;
    forall i
      ensures
        KeepsAt(cache, looks, cutoff, i) <==>
          KeepsAt(cache, looks[..n], cutoff, i) || (i == n && KeepsAt(cache, looks, cutoff, n))
    {
      if i < n {
        KeepsAtSnoc(cache, looks, cutoff, i);
      }
    }
    if !NothingIsKept(cache, looks[..n], cutoff) {
      var i :| KeepsAt(cache, looks[..n], cutoff, i);
      assert KeepsAt(cache, looks, cutoff, i);
    }
  }

  lemma KeptSnoc(cache: Option<Snapshot>, looks: seq<Look>, cutoff: int)
    requires looks != []
    ensures
      var n := |looks| - 1;
      Kept(cache, looks, cutoff) == [] <==> Kept(cache, looks[..n], cutoff) == [] && !KeepsAt(cache, looks, cutoff, n)
  {
  }

  /** A sweep leaves nothing exactly when it keeps none of the directories it looks at. */
  lemma {:induction false} NothingKeptIff(cache: Option<Snapshot>, looks: seq<Look>, cutoff: int)
    ensures Kept(cache, looks, cutoff) == [] <==> NothingIsKept(cache, looks, cutoff)
  {
    if looks != [] {
      NothingKeptIff(cache, looks[..|looks| - 1], cutoff);
      NothingIsKeptSnoc(cache, looks, cutoff);
      KeptSnoc(cache, looks, cutoff);
    }
  }

  /** Exactly when a key is taken: it is foreign, a directory, aged, without worktrees, and no session in it is kept. */
  lemma KeyIsTakenExactly(cache: Option<Snapshot>, keys: seq<Key>, p: Policy, i: nat)
    requires i < |keys|
    ensures
      var key := keys[i];
      var start := After(cache, AllLooks(cache, keys[..i], p));
      KeyTaken(cache, keys, p, i) <==>
        && key.name != p.own && key.directory && key.touched < p.cutoff && !key.worktrees
        && NothingIsKept(start, key.looks, p.sessionCutoff)
  {
    NothingKeptIff(After(cache, AllLooks(cache, keys[..i], p)), keys[i].looks, p.sessionCutoff);
  }

  lemma AfterPrefix(before: seq<Look>, looks: seq<Look>, k: nat)
    requires k <= |looks|
    ensures After(After(None, before), looks[..k]) == After(None, (before + looks)[..|before| + k])
  {
    assert (before + looks)[..|before| + k] == before + looks[..k];
    AfterAppend(None, before, looks[..k]);
  }

  /** Seen from the whole history, a look that a sweep does not keep is one that is taken. */
  lemma NotKeptIsTaken(before: seq<Look>, looks: seq<Look>, cutoff: int, k: nat)
    requires k < |looks|
    ensures KeepsAt(After(None, before), looks, cutoff, k) <==> !Taken(before + looks, cutoff, |before| + k)
  {
    AfterPrefix(before, looks, k);
    assert (before + looks)[|before| + k] == looks[k];
  }

  lemma AllAreTaken(before: seq<Look>, looks: seq<Look>, cutoff: int, k: nat)
    requires k < |looks| && Kept(After(None, before), looks, cutoff) == []
    ensures Taken(before + looks, cutoff, |before| + k)
    ensures (before + looks)[|before| + k] == looks[k]
  {
    NothingKeptIff(After(None, before), looks, cutoff);
    NotKeptIsTaken(before, looks, cutoff, k);
  }

  /**
   Over every history: a key that is taken is foreign, aged and without worktrees, and each of its
   sessions was usable and, when it was looked at, had no running owner whose pid was not recycled
   and was aged if it named no owner.
   */
  lemma TakenKeyHeldNothingRunning(
    h: seq<Moment>, at: seq<nat>, earlier: seq<Look>, keys: seq<Key>, p: Policy, i: nat, k: nat, owner: Owner)
    requires Timeline(h) && i < |keys| && k < |keys[i].looks|
    requires KeyTaken(After(None, earlier), keys, p, i)
    requires
      var looks := earlier + AllLooks(After(None, earlier), keys[..i], p) + keys[i].looks;
      Scheduled(h, at, looks)
    ensures !keys[i].worktrees && keys[i].name != p.own && keys[i].touched < p.cutoff
    ensures keys[i].looks[k].entry.owners.Some?
    ensures keys[i].looks[k].entry.owners.value == [] ==> keys[i].looks[k].entry.touched < p.sessionCutoff
    ensures
      var n := |earlier| + |AllLooks(After(None, earlier), keys[..i], p)| + k;
      owner in keys[i].looks[k].entry.owners.value && Running(h[at[n]].table, owner) ==>
        RecycledSinceRead(h, at, n, owner.pid)
  {
    var before := earlier + AllLooks(After(None, earlier), keys[..i], p);
    var looks, n := before + keys[i].looks, |before| + k;
    AfterAppend(None, earlier, AllLooks(After(None, earlier), keys[..i], p));
    AllAreTaken(before, keys[i].looks, p.sessionCutoff, k);
    OwnerlessIsTakenWhenAged(looks, p.sessionCutoff, n);
    RunningSessionIsTakenOnlyRecycled(h, at, looks, p.sessionCutoff, n, owner);
  }
}
