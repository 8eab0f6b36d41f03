/**
 The task-ownership registry: one file holding a map from task ids to owner
 records, and the operations that claim, release and reclaim tasks.

 Liveness verdicts come from outside.  What an operation was told is recorded in
 `live`, the tasks whose owner it judged alive; `Fair` says that the verdicts
 never called a running owner dead.
 */
module Ownership {
  import opened Wrappers

  type TaskId = string
  type SessionId = string

  /** One incarnation of a process id; ids are reused, incarnations are not. */
  datatype Process = Process(pid: int, birth: nat)

  datatype Record = Record(session: SessionId, owner: Process, startTime: Option<string>, claimedAt: string)

  type Owners = map<TaskId, Record>

  /** What `take` reads from the system while it writes its record. */
  datatype Stamp = Stamp(startTime: Option<string>, claimedAt: string)

  datatype Op =
    | Take(task: TaskId, session: SessionId, root: Process)
    | Release(task: TaskId, session: SessionId)
    | ReleaseSessionPid(session: SessionId, pid: int)
    | Finish(task: TaskId)
    | Sweep
    | OwnerOf(task: TaskId)
    | HeldBy(session: SessionId)
  {
    /** The operations that return early when the registry file is absent. */
    predicate ChecksExistence() {
      Release? || ReleaseSessionPid? || Finish? || Sweep?
    }

    /** The operations that ask for liveness verdicts while they hold the lock. */
    predicate Judges() {
      Take? || Sweep?
    }
  }

  datatype Result =
    | Done
    | HeldByLiveAgent(holder: SessionId)
    | SessionBusy(others: set<TaskId>)
    | Count(removed: nat)
    | Owner(record: Option<Record>)
    | Tasks(tasks: set<TaskId>)

  // -------------------------------------------------------------- liveness

  /** What `ps -o lstart=` told about a pid. */
  datatype PsAnswer = Undetermined | NoSuchProcess | Started(at: string)

  /** What `kill(pid, 0)` told. */
  datatype KillAnswer = Delivered | ProcessLookupError | PermissionError | OtherError

  function RecordIsLive(pid: int, recorded: Option<string>, ps: PsAnswer, kill: KillAnswer): (live: bool) {
    if pid <= 0 then false
    else if ps.Undetermined? then !kill.ProcessLookupError?
    else if ps.NoSuchProcess? then false
    else recorded.None? || ps.at == recorded.value
  }

  /**
   The answers the system may give while `running` maps pids to start times; a `ps`
   that succeeds may still print nothing.
   */
  predicate Truthful(running: map<int, string>, pid: int, ps: PsAnswer, kill: KillAnswer) {
    && (ps.NoSuchProcess? ==> pid !in running)
    && (ps.Started? ==> pid in running && ps.at in {"", running[pid]})
    && (kill.ProcessLookupError? ==> pid !in running)
    && (kill.Delivered? ==> pid in running)
  }

  /** The process that the record names, by pid and, when it was read, by start time. */
  predicate RecordedRuns(running: map<int, string>, pid: int, recorded: Option<string>) {
    pid > 0 && pid in running && (recorded.Some? ==> running[pid] == recorded.value)
  }

  /** A `ps` that printed nothing, where the record holds something to compare. */
  predicate BlankAnswer(recorded: Option<string>, ps: PsAnswer) {
    ps == Started("") && recorded.Some? && recorded.value != ""
  }

  /**
   The verdict is one-sided but for one answer: a running owner is called dead exactly
   when `ps` succeeds and prints nothing although a start time was recorded.
   */
  lemma RunningOwnerIsCalledDead(running: map<int, string>, pid: int, recorded: Option<string>, ps: PsAnswer,
      kill: KillAnswer)
    requires Truthful(running, pid, ps, kill) && RecordedRuns(running, pid, recorded)
    ensures !RecordIsLive(pid, recorded, ps, kill) <==> BlankAnswer(recorded, ps)
  {
  }

  /**
   Without that answer: no running owner is called dead, a determined answer with a start
   time is exact, and an undetermined one calls dead exactly what `kill` does not find.
   */
  lemma LivenessIsOneSided(running: map<int, string>, pid: int, recorded: Option<string>, ps: PsAnswer,
      kill: KillAnswer)
    requires Truthful(running, pid, ps, kill)
    ensures RecordedRuns(running, pid, recorded) && !BlankAnswer(recorded, ps) ==> RecordIsLive(pid, recorded, ps, kill)
    ensures ps.NoSuchProcess? || (ps.Started? && ps.at != "")
            ==> (RecordIsLive(pid, recorded, ps, kill) <==> RecordedRuns(running, pid, recorded))
    ensures ps.Undetermined? && pid > 0 ==> (!RecordIsLive(pid, recorded, ps, kill) <==> kill.ProcessLookupError?)
    ensures pid <= 0 ==> !RecordIsLive(pid, recorded, ps, kill)
  {
    if RecordedRuns(running, pid, recorded) {
      RunningOwnerIsCalledDead(running, pid, recorded, ps, kill);
    }
  }

  /** `p` can never run again: its pid names no process, or it has died. */
  predicate Gone(dead: set<Process>, p: Process) {
    p.pid <= 0 || p in dead
  }

  /** The verdicts `live` call only gone owners dead. */
  predicate Fair(owners: Owners, live: set<TaskId>, dead: set<Process>) {
    && live <= owners.Keys
    && forall t :: t in owners && t !in live ==> Gone(dead, owners[t].owner)
  }

  // -------------------------------------------------- the operations as functions

  function Load(file: Option<Owners>): Owners {
    if file.Some? then file.value else map[]
  }

  function Keep(owners: Owners, tasks: set<TaskId>): Owners {
    map t | t in owners && t in tasks :: owners[t]
  }

  function TasksOf(owners: Owners, session: SessionId): set<TaskId> {
    set t | t in owners && owners[t].session == session
  }

  function TasksOfPid(owners: Owners, session: SessionId, pid: int): set<TaskId> {
    set t | t in owners && owners[t].session == session && owners[t].owner.pid == pid
  }

  predicate OwnedBy(owners: Owners, task: TaskId, session: SessionId) {
    task in owners && owners[task].session == session
  }

  /** What an operation leaves in the file, and what it answers, when nothing interferes. */
  function Outcome(op: Op, file: Option<Owners>, live: set<TaskId>, stamp: Stamp): (out: (Option<Owners>, Result)) {
    var owners := Load(file);
    match op
    case Take(task, session, root) =>
      var kept := Keep(owners, live);
      var others := TasksOf(kept, session) - {task};
      if task in kept && kept[task].session != session then (file, HeldByLiveAgent(kept[task].session))
      else if others != {} then (file, SessionBusy(others))
      else (Some(kept[task := Record(session, root, stamp.startTime, stamp.claimedAt)]), Done)
    case Release(task, session) =>
      if OwnedBy(owners, task, session) then (Some(owners - {task}), Done) else (file, Done)
    case ReleaseSessionPid(session, pid) =>
      var doomed := TasksOfPid(owners, session, pid);
      if doomed == {} then (file, Count(0)) else (Some(owners - doomed), Count(|doomed|))
    case Finish(task) =>
      if task in owners then (Some(owners - {task}), Done) else (file, Done)
    case Sweep =>
      var kept := Keep(owners, live);
      var removed := owners.Keys - kept.Keys;
      if removed == {} then (file, Count(0)) else (Some(kept), Count(|removed|))
    case OwnerOf(task) =>
      (file, Owner(if task in owners then Some(owners[task]) else None))
    case HeldBy(session) =>
      (file, Tasks(TasksOf(owners, session)))
  }

  // ------------------------------------------------------------- invariants

  /** A session holds at most one task. */
  ghost predicate SingleSlot(file: Option<Owners>) {
    forall t, u :: t in Load(file) && u in Load(file) && Load(file)[t].session == Load(file)[u].session ==> t == u
  }

  lemma AtMostOne<T>(s: set<T>)
    requires forall x, y :: x in s && y in s ==> x == y
    ensures |s| <= 1
  {
    if s != {} {
      var x :| x in s;
      assert s == {x};
    }
  }

  /** Every operation, under any verdicts at all, keeps the single slot. */
  lemma OutcomeKeepsSingleSlot(op: Op, file: Option<Owners>, live: set<TaskId>, stamp: Stamp)
    requires SingleSlot(file)
    ensures SingleSlot(Outcome(op, file, live, stamp).0)
  {
    if op.Take? {
      var kept := Keep(Load(file), live);
      var others := TasksOf(kept, op.session) - {op.task};
      forall t | others == {} && t in kept && kept[t].session == op.session
        ensures t == op.task
      {
        assert t in others || t == op.task;
      }
    }
  }

  /** So `held_by` names at most one task and `release_session_pid` removes at most one record. */
  lemma SingleSlotBounds(op: Op, file: Option<Owners>, live: set<TaskId>, stamp: Stamp)
    requires SingleSlot(file)
    ensures op.HeldBy? ==> |Outcome(op, file, live, stamp).1.tasks| <= 1
    ensures op.ReleaseSessionPid? ==> Outcome(op, file, live, stamp).1.removed <= 1
  {
    if op.HeldBy? {
      AtMostOne(TasksOf(Load(file), op.session));
    } else if op.ReleaseSessionPid? {
      AtMostOne(TasksOfPid(Load(file), op.session, op.pid));
    }
  }

  /**
   `take` decides exactly: refused for a task judged to be held by another
   session, else refused for a session judged to hold another task, else the
   caller holds the task and, of the others, exactly the live ones remain.
   */
  lemma TakeDecides(task: TaskId, session: SessionId, root: Process, file: Option<Owners>, live: set<TaskId>,
      stamp: Stamp)
    ensures
      var owners := Load(file);
      var (file', res) := Outcome(Take(task, session, root), file, live, stamp);
      && (res.HeldByLiveAgent? <==> task in owners && task in live && owners[task].session != session)
      && (res.HeldByLiveAgent? ==> res.holder == owners[task].session)
      && (res.SessionBusy? ==>
            forall t :: t in res.others <==> t in owners && t in live && owners[t].session == session && t != task)
      && (res.Done? <==> forall t :: t in owners && t in live ==> (owners[t].session == session <==> t == task))
      && (!res.Done? ==> file' == file)
      && (res.Done? ==> file'.Some? && OwnedBy(file'.value, task, session) && file'.value[task].owner == root)
      && (res.Done? ==> file'.value[task].startTime == stamp.startTime)
      && (res.Done? ==> file'.value[task].claimedAt == stamp.claimedAt)
      && (res.Done? ==> forall t :: t != task ==> (t in file'.value <==> t in owners && t in live))
      && (res.Done? ==> forall t :: t != task && t in file'.value ==> file'.value[t] == owners[t])
  {
    var owners := Load(file);
    var kept := Keep(owners, live);
    var others := TasksOf(kept, session) - {task};
    if task in kept && kept[task].session != session {
    } else if others != {} {
      var t :| t in others;
      assert t in owners && t in live && owners[t].session == session && t != task;
    } else {
      forall t | t in owners && t in live
        ensures owners[t].session == session <==> t == task
      {
        assert t in kept;
        assert t !in others;
      }
    }
  }

  /** The start time that a claim stores: what `ps` says of the claiming process, if anything. */
  function CaptureStartTime(pid: int, ps: PsAnswer): Option<string> {
    if pid > 0 && ps.Started? then Some(ps.at) else None
  }

  /**
   A claim is bound to one incarnation: once a process that `ps` sees has claimed a task, a
   later determined answer calls the claim live exactly if it shows the start time seen then.
   */
  lemma ClaimIsBoundToItsProcess(
    task: TaskId, session: SessionId, root: Process, file: Option<Owners>, live: set<TaskId>,
    at: string, claimedAt: string, later: PsAnswer, kill: KillAnswer)
    requires root.pid > 0 && !later.Undetermined?
    ensures
      var stamp := Stamp(CaptureStartTime(root.pid, Started(at)), claimedAt);
      var (file', res) := Outcome(Take(task, session, root), file, live, stamp);
      res.Done? ==>
        && task in Load(file')
        && var left := Load(file')[task];
           (RecordIsLive(left.owner.pid, left.startTime, later, kill) <==> later == Started(at))
  {
  }

  /** The queries answer what is recorded, and nothing else. */
  lemma QueriesAreExact(file: Option<Owners>, task: TaskId, session: SessionId, live: set<TaskId>, stamp: Stamp)
    ensures
      var owners := Load(file);
      var res := Outcome(OwnerOf(task), file, live, stamp).1;
      res.Owner? && forall r :: res.record == Some(r) <==> task in owners && owners[task] == r
    ensures
      var owners := Load(file);
      var res := Outcome(HeldBy(session), file, live, stamp).1;
      res.Tasks? && forall t :: t in res.tasks <==> t in owners && owners[t].session == session
  {
  }

  /** The records an operation is meant to remove. */
  ghost predicate Drops(op: Op, owners: Owners, live: set<TaskId>, t: TaskId)
    requires t in owners
  {
    match op
    case Release(task, session) => t == task && owners[t].session == session
    case ReleaseSessionPid(session, pid) => owners[t].session == session && owners[t].owner.pid == pid
    case Finish(task) => t == task
    case Sweep => t !in live
    case _ => false
  }

  /** An operation other than `take` removes exactly the records it is meant to, changes no other and creates none. */
  lemma RemovalsAreExact(op: Op, file: Option<Owners>, live: set<TaskId>, stamp: Stamp)
    requires !op.Take?
    ensures
      var owners := Load(file);
      var file' := Outcome(op, file, live, stamp).0;
      && (forall t :: t in Load(file') <==> t in owners && !Drops(op, owners, live, t))
      && (forall t :: t in Load(file') ==> Load(file')[t] == owners[t])
      && (file.None? <==> file'.None?)
  {
    var owners := Load(file);
    if op.ReleaseSessionPid? {
      assert forall t :: t in owners ==> (t in TasksOfPid(owners, op.session, op.pid) <==> Drops(op, owners, live, t));
    } else if op.Sweep? {
      var kept := Keep(owners, live);
      assert forall t :: t in owners ==> (t in owners.Keys - kept.Keys <==> Drops(op, owners, live, t));
    }
  }

  /** ... and counts what it removed. */
  lemma RemovalsAreCounted(op: Op, file: Option<Owners>, live: set<TaskId>, stamp: Stamp)
    requires op.ReleaseSessionPid? || op.Sweep?
    ensures
      var (file', res) := Outcome(op, file, live, stamp);
      res.Count? && res.removed == |Load(file)| - |Load(file')|
  {
    var owners := Load(file);
    if op.ReleaseSessionPid? {
      var doomed := TasksOfPid(owners, op.session, op.pid);
      assert (owners - doomed).Keys == owners.Keys - doomed;
      CardinalityOfDifference(owners.Keys, doomed);
    } else {
      CardinalityOfDifference(owners.Keys, Keep(owners, live).Keys);
    }
  }

  // ------------------------------------------------------ the registry object

  /** The registry file, changed only by operations that run to completion. */
  class Registry {
    var file: Option<Owners>

    constructor ()
      ensures file == None
    {
      file := None;
    }

    function LiveTasks(isLive: Record -> bool): set<TaskId>
      reads this
    {
      set t | t in Load(file) && isLive(Load(file)[t])
    }

    method Take(task: TaskId, session: SessionId, root: Process, isLive: Record -> bool, stamp: Stamp)
        returns (res: Result)
      modifies this
      ensures (file, res) == Outcome(Op.Take(task, session, root), old(file), old(LiveTasks(isLive)), stamp)
      ensures res.Done? ==> file.Some? && task in file.value
      ensures res.Done? ==> file.value[task] == Record(session, root, stamp.startTime, stamp.claimedAt)
    {
      var reg := Load(file);
      var owners := map t | t in reg && isLive(reg[t]) :: reg[t];
      assert owners == Keep(reg, LiveTasks(isLive));
      if task in owners && owners[task].session != session {
        return HeldByLiveAgent(owners[task].session);
      }
      var others := set t | t in owners && owners[t].session == session && t != task;
      assert others == TasksOf(owners, session) - {task};
      if others != {} {
        return SessionBusy(others);
      }
      owners := owners[task := Record(session, root, stamp.startTime, stamp.claimedAt)];
      file := Some(owners);
      res := Done;
    }

    method Release(task: TaskId, session: SessionId) returns (res: Result)
      modifies this
      ensures forall live, stamp :: (file, res) == Outcome(Op.Release(task, session), old(file), live, stamp)
    {
      res := Done;
      if file.None? {
        return;
      }
      var reg := Load(file);
      if task in reg && reg[task].session == session {
        file := Some(reg - {task});
      }
    }

    method ReleaseSessionPid(session: SessionId, pid: int) returns (res: Result)
      modifies this
      ensures forall live, stamp :: (file, res) == Outcome(Op.ReleaseSessionPid(session, pid), old(file), live, stamp)
    {
      if file.None? {
        assert TasksOfPid(Load(file), session, pid) == {};
        return Count(0);
      }
      var owners := Load(file);
      var doomed := TasksOfPid(owners, session, pid);
      var todo := doomed;
      while todo != {}
        invariant todo <= doomed
        invariant owners == Load(old(file)) - (doomed - todo)
        invariant file == old(file)
        decreases |todo|
      {
        var t :| t in todo;
        owners := owners - {t};
        todo := todo - {t};
      }
      if doomed != {} {
        assert doomed - todo == doomed;
        file := Some(owners);
      }
      res := Count(|doomed|);
    }

    method Finish(task: TaskId) returns (res: Result)
      modifies this
      ensures forall live, stamp :: (file, res) == Outcome(Op.Finish(task), old(file), live, stamp)
    {
      res := Done;
      if file.None? {
        return;
      }
      var reg := Load(file);
      if task in reg {
        file := Some(reg - {task});
      }
    }

    method Sweep(isLive: Record -> bool) returns (res: Result)
      modifies this
      ensures forall stamp :: (file, res) == Outcome(Op.Sweep, old(file), old(LiveTasks(isLive)), stamp)
    {
      if file.None? {
        assert Load(file).Keys - Keep(Load(file), LiveTasks(isLive)).Keys == {};
        return Count(0);
      }
      var reg := Load(file);
      var live := map t | t in reg && isLive(reg[t]) :: reg[t];
      assert live == Keep(reg, LiveTasks(isLive));
      assert live.Keys <= reg.Keys;
      CardinalityOfDifference(reg.Keys, live.Keys);
      var removed := |reg| - |live|;
      if removed != 0 {
        file := Some(live);
      }
      res := Count(removed);
    }

    /** The record, and the liveness verdict on it. */
    method OwnerOf(task: TaskId, isLive: Record -> bool) returns (res: Result, shownLive: bool)
      ensures forall live, stamp :: (file, res) == Outcome(Op.OwnerOf(task), file, live, stamp)
      ensures shownLive <==> task in Load(file) && isLive(Load(file)[task])
    {
      var reg := Load(file);
      res := Owner(if task in reg then Some(reg[task]) else None);
      shownLive := task in reg && isLive(reg[task]);
    }

    method HeldBy(session: SessionId) returns (res: Result)
      ensures forall live, stamp :: (file, res) == Outcome(Op.HeldBy(session), file, live, stamp)
    {
      var owners := Load(file);
      res := Tasks(set t | t in owners && owners[t].session == session);
    }
  }

  lemma CardinalityOfDifference<T>(a: set<T>, b: set<T>)
    requires b <= a
    ensures |a| == |b| + |a - b|
    ensures |a - b| == 0 <==> a - b == {}
  {
    assert a == b + (a - b);
  }
}
