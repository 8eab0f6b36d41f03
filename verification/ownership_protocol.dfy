/**
 Any number of clients running registry operations at once.

 Each operation is cut where the source can be interrupted: the existence check
 that is made before the lock is taken, the acquisition, the load, every single
 liveness verdict, the decision, the atomic replacement of the file and the
 release of the lock.  Processes die between any two steps, and a client may
 crash at any point, which frees its lock.

 The main result is that every run is equivalent to its log: the operations, one
 after another, each placed between its own invocation and its own return.
 */
module OwnershipProtocol {
  import opened Wrappers
  import opened Ownership

  type Client = nat

  // ------------------------------------------------------------ sequential runs

  datatype World = World(file: Option<Owners>, dead: set<Process>)

  datatype Event =
    | Death(process: Process)
    | Call(client: Client, op: Op, live: set<TaskId>, stamp: Stamp, result: Result)

  /** One event is legal when its call decides and answers as the operation does alone. */
  ghost predicate Legal(w: World, e: Event) {
    e.Call? ==>
      && (e.op.Judges() ==> Fair(Load(w.file), e.live, w.dead))
      && e.result == Outcome(e.op, w.file, e.live, e.stamp).1
  }

  ghost function Next(w: World, e: Event): World {
    match e
    case Death(p) => w.(dead := w.dead + {p})
    case Call(_, op, live, stamp, _) => w.(file := Outcome(op, w.file, live, stamp).0)
  }

  ghost function Final(w: World, log: seq<Event>): World {
    if log == [] then w else Next(Final(w, log[..|log| - 1]), log[|log| - 1])
  }

  ghost predicate Sequential(w: World, log: seq<Event>) {
    log == [] ||
    (Sequential(w, log[..|log| - 1]) && Legal(Final(w, log[..|log| - 1]), log[|log| - 1]))
  }

  // ----------------------------------------------------------- interleaved runs

  datatype Phase =
    | Idle
    | Entering(op: Op)
    | Waiting(op: Op)
    | Locked(op: Op)
    | Judging(op: Op, loaded: Owners, todo: set<TaskId>, live: set<TaskId>)
    | Writing(op: Op, loaded: Owners, live: set<TaskId>, stamp: Stamp, owners: Owners, result: Result)
    | Leaving(op: Op, result: Result)
    | Rendering(op: Op, result: Result)
    | Returned(op: Op, result: Result, shownLive: bool)
  {
    /** The phases in which a client is inside its critical section. */
    predicate Holds() {
      Locked? || Judging? || Writing? || Leaving?
    }

    /** The phases in which an operation has not yet taken effect. */
    predicate Before() {
      Entering? || Waiting? || Locked? || Judging? || Writing?
    }

    predicate After() {
      Leaving? || Rendering? || Returned?
    }
  }

  datatype System = System(world: World, lock: Option<Client>, phases: map<Client, Phase>)

  datatype Step =
    | Die(process: Process)
    | Invoke(client: Client, op: Op)
    | Check(client: Client)
    | Acquire(client: Client)
    | Read(client: Client)
    | Judge(client: Client, task: TaskId, verdict: bool)
    | Decide(client: Client, stamp: Stamp)
    | Save(client: Client)
    | Unlock(client: Client)
    | Render(client: Client, verdict: bool)
    | Crash(client: Client)

  ghost function PhaseOf(s: System, c: Client): Phase {
    if c in s.phases then s.phases[c] else Idle
  }

  /** What the early return of an operation answers. */
  function NothingThere(op: Op): Result {
    match op
    case ReleaseSessionPid(_, _) => Count(0)
    case Sweep => Count(0)
    case _ => Done
  }

  ghost predicate Enabled(s: System, step: Step) {
    match step
    case Die(_) => true
    case Invoke(c, _) => PhaseOf(s, c).Idle? || PhaseOf(s, c).Returned?
    case Check(c) => PhaseOf(s, c).Entering?
    case Acquire(c) => PhaseOf(s, c).Waiting? && s.lock.None?
    case Read(c) => PhaseOf(s, c).Locked?
    case Judge(c, t, verdict) =>
      var p := PhaseOf(s, c);
      p.Judging? && t in p.todo && t in p.loaded && (!verdict ==> Gone(s.world.dead, p.loaded[t].owner))
    case Decide(c, _) => PhaseOf(s, c).Judging? && PhaseOf(s, c).todo == {}
    case Save(c) => PhaseOf(s, c).Writing?
    case Unlock(c) => PhaseOf(s, c).Leaving?
    case Render(c, verdict) =>
      var p := PhaseOf(s, c);
      p.Rendering? && (!verdict && p.result.Owner? && p.result.record.Some?
                       ==> Gone(s.world.dead, p.result.record.value.owner))
    case Crash(c) => !PhaseOf(s, c).Idle?
  }

  ghost function Go(s: System, c: Client, p: Phase): System {
    s.(phases := s.phases[c := p])
  }

  /** A successful claim is always saved, a removal only when it removed something. */
  ghost predicate WillWrite(p: Phase, stamp: Stamp)
    requires p.Judging?
    ensures WillWrite(p, stamp) ==> Outcome(p.op, Some(p.loaded), p.live, stamp).0.Some?
  {
    var (owners, result) := Outcome(p.op, Some(p.loaded), p.live, stamp);
    owners != Some(p.loaded) || (p.op.Take? && result.Done?)
  }

  ghost function Do(s: System, step: Step): System
    requires Enabled(s, step)
  {
    match step
    case Die(p) => s.(world := s.world.(dead := s.world.dead + {p}))
    case Invoke(c, op) => Go(s, c, Entering(op))
    case Check(c) =>
      var op := PhaseOf(s, c).op;
      if op.ChecksExistence() && s.world.file.None? then Go(s, c, Returned(op, NothingThere(op), false))
      else Go(s, c, Waiting(op))
    case Acquire(c) => Go(s, c, Locked(PhaseOf(s, c).op)).(lock := Some(c))
    case Read(c) =>
      var op := PhaseOf(s, c).op;
      var loaded := Load(s.world.file);
      Go(s, c, Judging(op, loaded, if op.Judges() then loaded.Keys else {}, {}))
    case Judge(c, t, verdict) =>
      var p := PhaseOf(s, c);
      Go(s, c, p.(todo := p.todo - {t}, live := if verdict then p.live + {t} else p.live))
    case Decide(c, stamp) =>
      var p := PhaseOf(s, c);
      // decided on the loaded copy, not on the file
      var (owners, result) := Outcome(p.op, Some(p.loaded), p.live, stamp);
      if WillWrite(p, stamp) then Go(s, c, Writing(p.op, p.loaded, p.live, stamp, owners.value, result))
      else Go(s, c, Leaving(p.op, result))
    case Save(c) =>
      var p := PhaseOf(s, c);
      Go(s, c, Leaving(p.op, p.result)).(world := s.world.(file := Some(p.owners)))
    case Unlock(c) =>
      var p := PhaseOf(s, c);
      var next := if p.op.OwnerOf? then Rendering(p.op, p.result) else Returned(p.op, p.result, false);
      Go(s, c, next).(lock := None)
    case Render(c, verdict) =>
      var p := PhaseOf(s, c);
      Go(s, c, Returned(p.op, p.result, verdict))
    case Crash(c) =>
      Go(s, c, Idle).(lock := if s.lock == Some(c) then None else s.lock)
  }

  ghost predicate Runs(s: System, steps: seq<Step>) {
    steps == [] ||
    (Runs(s, steps[..|steps| - 1]) && Enabled(After(s, steps[..|steps| - 1]), steps[|steps| - 1]))
  }

  /** The system after `steps`; a step that is not enabled changes nothing. */
  ghost function After(s: System, steps: seq<Step>): System {
    if steps == [] then s
    else
      var before := After(s, steps[..|steps| - 1]);
      if Enabled(before, steps[|steps| - 1]) then Do(before, steps[|steps| - 1]) else before
  }

  /** No client is running and no lock is held. */
  ghost predicate AtRest(s: System) {
    s.lock.None? && forall c: Client :: c in s.phases ==> s.phases[c].Idle?
  }

  // ------------------------------------------------------ where operations take effect

  const NO_STAMP := Stamp(None, "")

  /** The event, if any, that a step contributes to the log. */
  ghost function Emit(s: System, step: Step): seq<Event>
    requires Enabled(s, step)
  {
    match step
    case Die(p) => [Death(p)]
    case Check(c) =>
      var op := PhaseOf(s, c).op;
      if op.ChecksExistence() && s.world.file.None? then [Call(c, op, {}, NO_STAMP, NothingThere(op))] else []
    case Decide(c, stamp) =>
      var p := PhaseOf(s, c);
      if WillWrite(p, stamp) then []
      else [Call(c, p.op, p.live, stamp, Outcome(p.op, Some(p.loaded), p.live, stamp).1)]
    case Save(c) =>
      var p := PhaseOf(s, c);
      [Call(c, p.op, p.live, p.stamp, p.result)]
    case _ => []
  }

  ghost function Log(s: System, steps: seq<Step>): seq<Event> {
    if steps == [] then []
    else
      var before := After(s, steps[..|steps| - 1]);
      Log(s, steps[..|steps| - 1]) +
      (if Enabled(before, steps[|steps| - 1]) then Emit(before, steps[|steps| - 1]) else [])
  }

  // ------------------------------------------------------------------ invariant

  ghost predicate JudgedSoFar(w: World, p: Phase)
    requires p.Judging?
  {
    && p.live + p.todo <= p.loaded.Keys
    && forall t :: t in p.loaded && t !in p.live && t !in p.todo ==> Gone(w.dead, p.loaded[t].owner)
  }

  ghost predicate PhaseInv(w: World, p: Phase) {
    && ((p.Waiting? || p.Locked? || p.Judging?) && p.op.ChecksExistence() ==> w.file.Some?)
    && (p.Judging? ==> p.loaded == Load(w.file))
    && (p.Judging? && p.op.Judges() ==> JudgedSoFar(w, p))
    && (p.Writing? && p.op.Judges() ==> Fair(Load(w.file), p.live, w.dead))
    && (p.Writing? ==> Outcome(p.op, w.file, p.live, p.stamp) == (Some(p.owners), p.result))
  }

  ghost predicate Inv(s: System) {
    && (forall c: Client :: c in s.phases ==> PhaseInv(s.world, s.phases[c]))
    && (forall c: Client :: PhaseOf(s, c).Holds() <==> s.lock == Some(c))
  }

  /** Deciding on a loaded copy is deciding on the file it was loaded from. */
  lemma DecidedOnCopy(op: Op, file: Option<Owners>, live: set<TaskId>, stamp: Stamp)
    ensures Outcome(op, Some(Load(file)), live, stamp).1 == Outcome(op, file, live, stamp).1
    ensures Outcome(op, Some(Load(file)), live, stamp).0 != Some(Load(file))
            ==> Outcome(op, file, live, stamp).0 == Outcome(op, Some(Load(file)), live, stamp).0
    ensures op.Take? && Outcome(op, file, live, stamp).1.Done?
            ==> Outcome(op, file, live, stamp).0 == Outcome(op, Some(Load(file)), live, stamp).0
    ensures
      && Outcome(op, Some(Load(file)), live, stamp).0 == Some(Load(file))
      && (op.Take? ==> !Outcome(op, file, live, stamp).1.Done?)
      ==> Outcome(op, file, live, stamp).0 == file
  {
  }

  lemma NothingThereIsOutcome(op: Op)
    requires op.ChecksExistence()
    ensures Outcome(op, None, {}, NO_STAMP) == (None, NothingThere(op))
  {
    if op.ReleaseSessionPid? {
      assert TasksOfPid(map[], op.session, op.pid) == {};
    } else if op.Sweep? {
      var none: Owners := map[];
      assert none.Keys - Keep(none, {}).Keys == {};
    }
  }

  /** A client outside its critical section is untouched by a save or a death. */
  lemma OthersKeepInv(s: System, step: Step, c: Client)
    requires Inv(s) && Enabled(s, step) && c in s.phases && (step.Save? || step.Die?)
    requires step.Save? ==> c != step.client
    ensures c in Do(s, step).phases && PhaseInv(Do(s, step).world, Do(s, step).phases[c])
  {
    assert PhaseInv(s.world, s.phases[c]);
    assert PhaseOf(s, c).Holds() <==> s.lock == Some(c);
    if step.Save? {
      assert PhaseOf(s, step.client).Holds() <==> s.lock == Some(step.client);
    }
  }

  lemma StepKeepsInv(s: System, step: Step)
    requires Inv(s) && Enabled(s, step)
    ensures Inv(Do(s, step))
  {
    if step.Save? || step.Die? {
      forall d: Client | d in s.phases && (step.Save? ==> d != step.client)
        ensures d in Do(s, step).phases && PhaseInv(Do(s, step).world, Do(s, step).phases[d])
      {
        OthersKeepInv(s, step, d);
      }
    } else if step.Decide? {
      var p := PhaseOf(s, step.client);
      DecidedOnCopy(p.op, s.world.file, p.live, step.stamp);
    }
  }

  /** A step of the interleaved system is its event, or nothing, of the sequential one. */
  lemma StepSimulates(s: System, step: Step)
    requires Inv(s) && Enabled(s, step)
    ensures |Emit(s, step)| <= 1
    ensures Emit(s, step) == [] ==> Do(s, step).world == s.world
    ensures Emit(s, step) != [] ==>
              Legal(s.world, Emit(s, step)[0]) && Do(s, step).world == Next(s.world, Emit(s, step)[0])
  {
    if step.Check? && PhaseOf(s, step.client).op.ChecksExistence() {
      NothingThereIsOutcome(PhaseOf(s, step.client).op);
    } else if step.Decide? {
      var p := PhaseOf(s, step.client);
      DecidedOnCopy(p.op, s.world.file, p.live, step.stamp);
    }
  }

  // -------------------------------------------------------------- linearizability

  /** Every interleaving leaves what its log leaves, and its log is a sequential run. */
  lemma {:induction false} RunSimulates(s: System, steps: seq<Step>)
    requires Inv(s) && Runs(s, steps)
    ensures Inv(After(s, steps))
    ensures Sequential(s.world, Log(s, steps))
    ensures Final(s.world, Log(s, steps)) == After(s, steps).world
  {
    if steps != [] {
      var before := steps[..|steps| - 1];
      var last := steps[|steps| - 1];
      RunSimulates(s, before);
      StepKeepsInv(After(s, before), last);
      StepSimulates(After(s, before), last);
      var emitted := Emit(After(s, before), last);
      if emitted == [] {
        assert Log(s, steps) == Log(s, before);
      } else {
        var log := Log(s, steps);
        assert emitted == [emitted[0]];
        assert log[..|log| - 1] == Log(s, before) && log[|log| - 1] == emitted[0];
      }
    }
  }

  ghost function CallsOf(c: Client, log: seq<Event>): seq<Event> {
    if log == [] then []
    else CallsOf(c, log[..|log| - 1]) +
         (if log[|log| - 1].Call? && log[|log| - 1].client == c then [log[|log| - 1]] else [])
  }

  lemma {:induction false} CallsOfAppend(c: Client, a: seq<Event>, b: seq<Event>)
    ensures CallsOf(c, a + b) == CallsOf(c, a) + CallsOf(c, b)
  {
    if b == [] {
      assert a + b == a;
    } else {
      assert (a + b)[..|a + b| - 1] == a + b[..|b| - 1];
      CallsOfAppend(c, a, b[..|b| - 1]);
    }
  }

  /** What the log must hold of client `c` between its latest invocation and now. */
  ghost predicate Matches(c: Client, calls: seq<Event>, p: Phase) {
    if p.Idle? then true
    else if p.Before() then calls == []
    else |calls| == 1 && calls[0].Call? && calls[0].op == p.op && calls[0].result == p.result
  }

  /** Step `i` invokes the operation that `c` is at, and `tail` is the log since then. */
  ghost predicate InvokedAt(s: System, steps: seq<Step>, c: Client, op: Op, i: int, tail: seq<Event>) {
    && 0 <= i < |steps| && steps[i] == Invoke(c, op)
    && Log(s, steps) == Log(s, steps[..i + 1]) + tail
  }

  lemma StepMatches(s: System, step: Step, c: Client, calls: seq<Event>)
    requires Inv(s) && Enabled(s, step) && Matches(c, calls, PhaseOf(s, c))
    requires !(step.Invoke? && step.client == c)
    ensures !PhaseOf(Do(s, step), c).Idle? ==> !PhaseOf(s, c).Idle? && PhaseOf(Do(s, step), c).op == PhaseOf(s, c).op
    ensures Matches(c, calls + CallsOf(c, Emit(s, step)), PhaseOf(Do(s, step), c))
  {
    var e := Emit(s, step);
    StepSimulates(s, step);
    if e != [] {
      assert e == [e[0]] && e[..0] == [];
      assert CallsOf(c, e[..0]) == [];
    }
    assert calls + [] == calls;
  }

  lemma InvokedAtExtends(s: System, steps: seq<Step>, c: Client, op: Op, i: int, tail: seq<Event>)
    requires steps != [] && Runs(s, steps)
    requires InvokedAt(s, steps[..|steps| - 1], c, op, i, tail)
    ensures InvokedAt(s, steps, c, op, i, tail + Emit(After(s, steps[..|steps| - 1]), steps[|steps| - 1]))
  {
    var before := steps[..|steps| - 1];
    assert before[..i + 1] == steps[..i + 1];
    var emitted := Emit(After(s, before), steps[|steps| - 1]);
    assert Log(s, steps[..i + 1]) + tail + emitted == Log(s, steps[..i + 1]) + (tail + emitted);
  }

  /** The operation `c` is at was invoked at some step, and its log since then is as it must be. */
  ghost predicate TookEffectOnce(s: System, steps: seq<Step>, c: Client, p: Phase) {
    p.Idle? ||
    exists i, tail :: InvokedAt(s, steps, c, p.op, i, tail) && Matches(c, CallsOf(c, tail), p)
  }

  lemma StepTakesEffectOnce(s: System, steps: seq<Step>, c: Client, sys: System)
    requires steps != [] && Runs(s, steps) && sys == After(s, steps[..|steps| - 1]) && Inv(sys)
    requires TookEffectOnce(s, steps[..|steps| - 1], c, PhaseOf(sys, c))
    requires !(steps[|steps| - 1].Invoke? && steps[|steps| - 1].client == c)
    ensures TookEffectOnce(s, steps, c, PhaseOf(Do(sys, steps[|steps| - 1]), c))
  {
    var p, last := PhaseOf(sys, c), steps[|steps| - 1];
    if p.Idle? {
      StepMatches(sys, last, c, []);
    } else {
      var i, tail :| InvokedAt(s, steps[..|steps| - 1], c, p.op, i, tail) && Matches(c, CallsOf(c, tail), p);
      StepMatches(sys, last, c, CallsOf(c, tail));
      CallsOfAppend(c, tail, Emit(sys, last));
      InvokedAtExtends(s, steps, c, p.op, i, tail);
    }
  }

  /**
   Linearizability: at any moment of any run, the operation a client has
   invoked and not crashed out of occurs in the log after its invocation exactly
   once, with the result the client sees, if it has taken effect, and not at all
   before that.
   */
  lemma {:induction false} EveryOperationTakesEffectOnce(s: System, steps: seq<Step>, c: Client)
    requires AtRest(s) && Runs(s, steps)
    ensures TookEffectOnce(s, steps, c, PhaseOf(After(s, steps), c))
  {
    if steps != [] {
      var before := steps[..|steps| - 1];
      var last := steps[|steps| - 1];
      if last.Invoke? && last.client == c {
        assert steps[..|steps|] == steps;
        assert Log(s, steps) == Log(s, steps) + [];
        assert InvokedAt(s, steps, c, last.op, |steps| - 1, []);
        assert Matches(c, CallsOf(c, []), Entering(last.op));
      } else {
        RunSimulates(s, before);
        EveryOperationTakesEffectOnce(s, before, c);
        StepTakesEffectOnce(s, steps, c, After(s, before));
      }
    }
  }

  // ------------------------------------------------------------ safety over runs

  lemma {:induction false} FinalKeepsSingleSlot(w: World, log: seq<Event>)
    requires SingleSlot(w.file)
    ensures SingleSlot(Final(w, log).file)
  {
    if log != [] {
      FinalKeepsSingleSlot(w, log[..|log| - 1]);
      var e := log[|log| - 1];
      if e.Call? {
        OutcomeKeepsSingleSlot(e.op, Final(w, log[..|log| - 1]).file, e.live, e.stamp);
      }
    }
  }

  /** In every state of every run a session holds at most one task. */
  lemma SingleSlotAlways(s: System, steps: seq<Step>)
    requires AtRest(s) && Runs(s, steps) && SingleSlot(s.world.file)
    ensures SingleSlot(After(s, steps).world.file)
  {
    RunSimulates(s, steps);
    FinalKeepsSingleSlot(s.world, Log(s, steps));
  }

  ghost predicate Owns(w: World, t: TaskId, session: SessionId) {
    OwnedBy(Load(w.file), t, session)
  }

  ghost predicate OwnerRuns(w: World, t: TaskId) {
    t in Load(w.file) ==> !Gone(w.dead, Load(w.file)[t].owner)
  }

  /**
   The calls that end `session`'s ownership of `t` in world `w`: the pid of a session's
   release must be the recorded one.
  */
  ghost predicate GivesUp(w: World, e: Event, t: TaskId, session: SessionId)
    requires Owns(w, t, session)
  {
    e.Call? &&
    match e.op
    case Release(task, holder) => task == t && holder == session
    case ReleaseSessionPid(holder, pid) => holder == session && pid == Load(w.file)[t].owner.pid
    case Finish(task) => task == t
    case _ => false
  }

  ghost predicate RefusesOthers(e: Event, t: TaskId, session: SessionId) {
    e.Call? && e.op.Take? && e.op.task == t && e.op.session != session ==> e.result == HeldByLiveAgent(session)
  }

  /** While the recorded owner runs, one event ends its ownership exactly if it gives it up. */
  lemma EventKeepsOwner(w: World, e: Event, t: TaskId, session: SessionId)
    requires Legal(w, e) && Owns(w, t, session) && OwnerRuns(w, t)
    ensures Owns(Next(w, e), t, session) <==> !GivesUp(w, e, t, session)
    ensures RefusesOthers(e, t, session)
  {
    if e.Call? && e.op.Take? {
      var kept := Keep(Load(w.file), e.live);
      assert t in kept;
    } else if e.Call? && e.op.ReleaseSessionPid? {
      assert t in TasksOfPid(Load(w.file), e.op.session, e.op.pid) <==> GivesUp(w, e, t, session);
    }
  }

  /** Event `k` of the log ends `session`'s ownership of `t`. */
  ghost predicate GivenUpAt(w: World, log: seq<Event>, k: nat, t: TaskId, session: SessionId)
    requires k < |log|
  {
    var before := Final(w, log[..k]);
    Owns(before, t, session) && GivesUp(before, log[k], t, session)
  }

  lemma KeptSoFar(w: World, log: seq<Event>, before: seq<Event>, t: TaskId, session: SessionId)
    requires before <= log && forall k :: 0 <= k < |log| ==> !GivenUpAt(w, log, k, t, session)
    ensures forall k :: 0 <= k < |before| ==> !GivenUpAt(w, before, k, t, session)
  {
    forall k | 0 <= k < |before|
      ensures !GivenUpAt(w, before, k, t, session)
    {
      assert before[..k] == log[..k];
      assert !GivenUpAt(w, log, k, t, session);
    }
  }

  /**
   Ownership is stable: over any run in which the recorded process of `t`'s owner
   is alive at every step, and in which no call gives `t` up, the session still owns
   `t`, and every other session that tried to take `t` was refused and told the
   holder.  A release of a session by a peer with another pid gives up nothing.
   */
  lemma {:induction false} OwnershipIsStable(s: System, steps: seq<Step>, t: TaskId, session: SessionId)
    requires Inv(s) && Runs(s, steps) && Owns(s.world, t, session)
    requires forall k :: 0 <= k <= |steps| ==> OwnerRuns(After(s, steps[..k]).world, t)
    requires forall k :: 0 <= k < |Log(s, steps)| ==> !GivenUpAt(s.world, Log(s, steps), k, t, session)
    ensures Owns(After(s, steps).world, t, session)
    ensures forall e :: e in Log(s, steps) ==> RefusesOthers(e, t, session)
  {
    if steps != [] {
      var before := steps[..|steps| - 1];
      var last := steps[|steps| - 1];
      forall k | 0 <= k <= |before|
        ensures OwnerRuns(After(s, before[..k]).world, t)
      {
        assert before[..k] == steps[..k];
      }
      var sys := After(s, before);
      RunSimulates(s, before);
      KeptSoFar(s.world, Log(s, steps), Log(s, before), t, session);
      OwnershipIsStable(s, before, t, session);
      StepSimulates(sys, last);
      assert before[..|before|] == before && steps[..|before|] == before;
      if Emit(sys, last) != [] {
        var e := Emit(sys, last)[0];
        var n := |Log(s, before)|;
        assert Log(s, steps)[..n] == Log(s, before) && Log(s, steps)[n] == e;
        assert !GivenUpAt(s.world, Log(s, steps), n, t, session);
        EventKeepsOwner(sys.world, e, t, session);
      }
    }
  }

  // ----------------------------------------------- what `owner_of` says of liveness

  ghost predicate HonestRender(w: World, p: Phase) {
    p.Returned? && p.op.OwnerOf? && !p.shownLive && p.result.Owner? && p.result.record.Some?
    ==> Gone(w.dead, p.result.record.value.owner)
  }

  /** The liveness flag is judged after the lock is released, and is true of the moment it is returned. */
  lemma {:induction false} ShownDeadIsDead(s: System, steps: seq<Step>, c: Client)
    requires AtRest(s) && Runs(s, steps)
    ensures HonestRender(After(s, steps).world, PhaseOf(After(s, steps), c))
  {
    if steps != [] {
      ShownDeadIsDead(s, steps[..|steps| - 1], c);
    }
  }

  // ------------------------------------------ when the answer of `owner_of` is one state

  /** Step `i` is the latest invocation by `c`. */
  ghost predicate LatestInvocation(steps: seq<Step>, c: Client, i: nat) {
    && i < |steps| && steps[i].Invoke? && steps[i].client == c
    && forall j :: i < j < |steps| ==> !(steps[j].Invoke? && steps[j].client == c)
  }

  /** The state after `k` steps records `r` for `t`. */
  ghost predicate RecordedAt(s: System, steps: seq<Step>, k: int, t: TaskId, r: Record) {
    0 <= k <= |steps| &&
    var owners := Load(After(s, steps[..k]).world.file);
    t in owners && owners[t] == r
  }

  ghost predicate GoneAt(s: System, steps: seq<Step>, k: int, p: Process) {
    0 <= k <= |steps| && Gone(After(s, steps[..k]).world.dead, p)
  }

  /** `c` asks who owns `t`, and has loaded `r` or answers it. */
  ghost predicate HasRead(p: Phase, t: TaskId, r: Record) {
    || (p.Judging? && p.op == OwnerOf(t) && t in p.loaded && p.loaded[t] == r)
    || (p.After() && p.op == OwnerOf(t) && p.result == Owner(Some(r)))
  }

  lemma ReadStep(s: System, step: Step, c: Client, t: TaskId, r: Record)
    requires Inv(s) && Enabled(s, step) && HasRead(PhaseOf(Do(s, step), c), t, r)
    requires !(step.Invoke? && step.client == c)
    ensures HasRead(PhaseOf(s, c), t, r) || (t in Load(s.world.file) && Load(s.world.file)[t] == r)
  {
    if !step.Die? && step.client == c && c in s.phases {
      assert PhaseInv(s.world, s.phases[c]);
    }
  }

  lemma RecordedEarlier(s: System, steps: seq<Step>, n: nat, k: int, t: TaskId, r: Record)
    requires n <= |steps| && RecordedAt(s, steps[..n], k, t, r)
    ensures RecordedAt(s, steps, k, t, r)
  {
    assert steps[..n][..k] == steps[..k];
  }

  /** What `owner_of` answers was recorded at some state since it was invoked. */
  lemma {:induction false} AnswerWasRecorded(s: System, steps: seq<Step>, c: Client, i: nat, t: TaskId, r: Record)
    requires AtRest(s) && Runs(s, steps) && LatestInvocation(steps, c, i)
    requires HasRead(PhaseOf(After(s, steps), c), t, r)
    ensures exists k :: i < k <= |steps| && RecordedAt(s, steps, k, t, r)
  {
    var n := |steps| - 1;
    var before, last := steps[..n], steps[n];
    RunSimulates(s, before);
    if i < n {
      ReadStep(After(s, before), last, c, t, r);
      if HasRead(PhaseOf(After(s, before), c), t, r) {
        AnswerWasRecorded(s, before, c, i, t, r);
        var k :| i < k <= n && RecordedAt(s, before, k, t, r);
        RecordedEarlier(s, steps, n, k, t, r);
      } else {
        assert RecordedAt(s, steps, n, t, r);
      }
    }
  }

  lemma {:induction false} GoneStays(s: System, steps: seq<Step>, j: nat, k: nat, p: Process)
    requires j <= k <= |steps| && GoneAt(s, steps, j, p)
    ensures GoneAt(s, steps, k, p)
  {
    if j < k {
      GoneStays(s, steps, j, k - 1, p);
      assert steps[..k][..k - 1] == steps[..k - 1];
    }
  }

  /** The last state that records `r`, if any later than `i` does. */
  lemma {:induction false} LastRecording(s: System, steps: seq<Step>, k: nat, t: TaskId, r: Record, n: nat)
      returns (last: nat)
    requires RecordedAt(s, steps, k, t, r) && k <= n <= |steps|
    ensures k <= last <= n && RecordedAt(s, steps, last, t, r)
    ensures forall j :: last < j <= n ==> !RecordedAt(s, steps, j, t, r)
  {
    if RecordedAt(s, steps, n, t, r) {
      last := n;
    } else {
      last := LastRecording(s, steps, k, t, r, n - 1);
    }
  }

  /** Some state after step `i` records `r` with its owner gone. */
  ghost predicate ShownBySomeState(s: System, steps: seq<Step>, i: nat, t: TaskId, r: Record) {
    exists k :: i < k <= |steps| && RecordedAt(s, steps, k, t, r) && GoneAt(s, steps, k, r.owner)
  }

  /** After step `i`, `r` was removed or replaced for good while its owner still ran. */
  ghost predicate LostWhileRunning(s: System, steps: seq<Step>, i: nat, t: TaskId, r: Record) {
    exists k ::
      && i < k < |steps| && RecordedAt(s, steps, k, t, r) && !GoneAt(s, steps, k, r.owner)
      && forall j :: k < j <= |steps| ==> !RecordedAt(s, steps, j, t, r)
  }

  lemma LastDecides(s: System, steps: seq<Step>, i: nat, last: nat, t: TaskId, r: Record)
    requires i < last <= |steps| && RecordedAt(s, steps, last, t, r)
    requires forall j :: last < j <= |steps| ==> !RecordedAt(s, steps, j, t, r)
    requires GoneAt(s, steps, |steps|, r.owner)
    ensures ShownBySomeState(s, steps, i, t, r) <==> GoneAt(s, steps, last, r.owner)
    ensures LostWhileRunning(s, steps, i, t, r) <==> !GoneAt(s, steps, last, r.owner)
  {
    if ShownBySomeState(s, steps, i, t, r) {
      var k :| i < k <= |steps| && RecordedAt(s, steps, k, t, r) && GoneAt(s, steps, k, r.owner);
      GoneStays(s, steps, k, last, r.owner);
    }
  }

  /** The latest state of the run that records `r` for `t`. */
  ghost predicate LastRecordedAt(s: System, steps: seq<Step>, k: int, t: TaskId, r: Record) {
    RecordedAt(s, steps, k, t, r) && forall j :: k < j <= |steps| ==> !RecordedAt(s, steps, j, t, r)
  }

  /**
   Exactly when the answer of `owner_of` is one state of the registry: in every run in
   which it shows `r` as dead, some state since its invocation records `r` with its
   owner gone if and only if the owner was gone at the last state that records `r`,
   and that fails if and only if `r` was removed or replaced while its owner ran.
   The last state that records `r` always lies after the invocation, and when it is
   the present one the answer is that state's.  An owner shown as live is no claim:
   verdicts may call a dead owner live.
   */
  lemma OwnerOfIsOneStateExactly(s: System, steps: seq<Step>, c: Client, i: nat, t: TaskId, r: Record)
    requires AtRest(s) && Runs(s, steps) && LatestInvocation(steps, c, i)
    requires PhaseOf(After(s, steps), c) == Returned(OwnerOf(t), Owner(Some(r)), false)
    ensures ShownBySomeState(s, steps, i, t, r) <==> !LostWhileRunning(s, steps, i, t, r)
    ensures exists last :: i < last && LastRecordedAt(s, steps, last, t, r)
    ensures forall last :: LastRecordedAt(s, steps, last, t, r) ==>
              (ShownBySomeState(s, steps, i, t, r) <==> GoneAt(s, steps, last, r.owner))
    ensures RecordedAt(s, steps, |steps|, t, r) ==> ShownBySomeState(s, steps, i, t, r)
  {
    AnswerWasRecorded(s, steps, c, i, t, r);
    var k :| i < k <= |steps| && RecordedAt(s, steps, k, t, r);
    var last := LastRecording(s, steps, k, t, r, |steps|);
    ShownDeadIsDead(s, steps, c);
    assert steps[..|steps|] == steps;
    LastDecides(s, steps, i, last, t, r);
    assert LastRecordedAt(s, steps, last, t, r);
    forall other | LastRecordedAt(s, steps, other, t, r)
      ensures other == last
    {
      assert !(other < last) && !(last < other);
    }
  }

  ghost predicate RecordedGone(w: World, t: TaskId) {
    t in Load(w.file) && Gone(w.dead, Load(w.file)[t].owner)
  }

  /** No state of the run records a gone owner for `t`, and the run ends in `sys`. */
  ghost predicate Blameless(s: System, steps: seq<Step>, t: TaskId, sys: System) {
    && Runs(s, steps) && After(s, steps) == sys
    && forall k :: 0 <= k <= |steps| ==> !RecordedGone(After(s, steps[..k]).world, t)
  }

  lemma Extend(s: System, steps: seq<Step>, t: TaskId, sys: System, step: Step, sys': System)
      returns (steps': seq<Step>)
    requires Blameless(s, steps, t, sys)
    requires Enabled(sys, step) && Do(sys, step) == sys' && !RecordedGone(sys'.world, t)
    ensures Blameless(s, steps', t, sys')
  {
    steps' := steps + [step];
    assert steps'[..|steps|] == steps;
    forall k | 0 <= k <= |steps'|
      ensures !RecordedGone(After(s, steps'[..k]).world, t)
    {
      if k <= |steps| {
        assert steps'[..k] == steps[..k];
      } else {
        assert steps'[..k] == steps';
      }
    }
  }

  /** Client 0 asks who owns `t` ... */
  lemma Asking(t: TaskId, record: Record) returns (s: System, steps: seq<Step>)
    requires record.owner.pid > 0
    ensures AtRest(s)
    ensures Blameless(s, steps, t, System(World(Some(map[t := record]), {}), Some(0), map[0 := Locked(OwnerOf(t))]))
  {
    var op, w := OwnerOf(t), World(Some(map[t := record]), {});
    s, steps := System(w, None, map[]), [];
    steps := Extend(s, steps, t, s, Invoke(0, op), System(w, None, map[0 := Entering(op)]));
    steps := Extend(s, steps, t, After(s, steps), Check(0), System(w, None, map[0 := Waiting(op)]));
    steps := Extend(s, steps, t, After(s, steps), Acquire(0), System(w, Some(0), map[0 := Locked(op)]));
  }

  /** ... is handed the record and releases the lock. */
  lemma Asked(s: System, steps: seq<Step>, t: TaskId, record: Record) returns (steps': seq<Step>)
    requires record.owner.pid > 0
    requires Blameless(s, steps, t, System(World(Some(map[t := record]), {}), Some(0), map[0 := Locked(OwnerOf(t))]))
    ensures Blameless(s, steps', t, System(World(Some(map[t := record]), {}), None,
                                           map[0 := Rendering(OwnerOf(t), Owner(Some(record)))]))
  {
    var op, file := OwnerOf(t), map[t := record];
    var w := World(Some(file), {});
    steps' := Extend(s, steps, t, After(s, steps), Read(0), System(w, Some(0), map[0 := Judging(op, file, {}, {})]));
    steps' := Extend(s, steps', t, After(s, steps'), Decide(0, NO_STAMP),
        System(w, Some(0), map[0 := Leaving(op, Owner(Some(record)))]));
    steps' := Extend(s, steps', t, After(s, steps'), Unlock(0),
        System(w, None, map[0 := Rendering(op, Owner(Some(record)))]));
  }

  /** Client 1 has meanwhile taken the lock to finish the task ... */
  lemma Finishing(s: System, steps: seq<Step>, t: TaskId, record: Record, told: Phase) returns (steps': seq<Step>)
    requires record.owner.pid > 0
    requires Blameless(s, steps, t, System(World(Some(map[t := record]), {}), None, map[0 := told]))
    ensures Blameless(s, steps', t, System(World(Some(map[t := record]), {}), Some(1),
        map[0 := told, 1 := Locked(Op.Finish(t))]))
  {
    var op, w := Op.Finish(t), World(Some(map[t := record]), {});
    steps' := Extend(s, steps, t, After(s, steps), Invoke(1, op), System(w, None, map[0 := told, 1 := Entering(op)]));
    steps' := Extend(s, steps', t, After(s, steps'), Check(1), System(w, None, map[0 := told, 1 := Waiting(op)]));
    steps' := Extend(s, steps', t, After(s, steps'), Acquire(1), System(w, Some(1), map[0 := told, 1 := Locked(op)]));
  }

  /** ... and has removed the record. */
  lemma Finished(s: System, steps: seq<Step>, t: TaskId, record: Record, told: Phase) returns (steps': seq<Step>)
    requires record.owner.pid > 0
    requires Blameless(s, steps, t, System(World(Some(map[t := record]), {}), Some(1),
        map[0 := told, 1 := Locked(Op.Finish(t))]))
    ensures Blameless(s, steps', t, System(World(Some(map[]), {}), Some(1),
        map[0 := told, 1 := Leaving(Op.Finish(t), Done)]))
  {
    var op, file := Op.Finish(t), map[t := record];
    var w := World(Some(file), {});
    var loaded := Judging(op, file, {}, {});
    steps' := Extend(s, steps, t, After(s, steps), Read(1), System(w, Some(1), map[0 := told, 1 := loaded]));
    assert file - {t} == map[];
    assert Outcome(op, Some(file), {}, NO_STAMP) == (Some(map[]), Done);
    assert WillWrite(loaded, NO_STAMP);
    steps' := Extend(s, steps', t, After(s, steps'), Decide(1, NO_STAMP),
                     System(w, Some(1), map[0 := told, 1 := Writing(op, file, {}, NO_STAMP, map[], Done)]));
    steps' := Extend(s, steps', t, After(s, steps'), Save(1),
                     System(World(Some(map[]), {}), Some(1), map[0 := told, 1 := Leaving(op, Done)]));
  }

  /**
   So the answer of `owner_of` is not one state of the registry: a run exists in
   which a record is shown as dead although no state of the run records a dead
   owner for the task.
   */
  lemma OwnerOfIsNotOneState(t: TaskId, session: SessionId, p: Process)
    requires p.pid > 0
    ensures exists s, steps, sys ::
      AtRest(s) && Blameless(s, steps, t, sys)
      && PhaseOf(sys, 0) == Returned(OwnerOf(t), Owner(Some(Record(session, p, None, ""))), false)
  {
    var record := Record(session, p, None, "");
    var told := Rendering(OwnerOf(t), Owner(Some(record)));
    var s, steps := Asking(t, record);
    steps := Asked(s, steps, t, record);
    steps := Finishing(s, steps, t, record, told);
    steps := Finished(s, steps, t, record, told);
    var sys := After(s, steps);
    var died := sys.(world := World(Some(map[]), {p}));
    steps := Extend(s, steps, t, sys, Die(p), died);
    steps := Extend(s, steps, t, died, Render(0, false), Do(died, Render(0, false)));
  }
}
