/**
 The pump between a spawned hook and its log: one loop moves bytes from the payload
 to the child's stdin and from the child's streams to their sinks, whatever the
 kernel takes or gives each time.

 The kernel and the child are a schedule: which stream is ready, how much moves,
 whether the child hung up and whether the live echo failed.
 */
module HookPump {
  import opened Wrappers

  type Bytes = seq<int>

  const PUMP_CHUNK := 65536

  // ---------------------------------------------------------------------- sinks

  /** One write to a sink: a chunk of the child's stream, or a note that an echo failed. */
  datatype Write = Chunk(bytes: Bytes) | Note(bytes: Bytes)

  function Data(sink: seq<Write>): Bytes {
    if sink == [] then []
    else Data(sink[..|sink| - 1]) + (if sink[|sink| - 1].Chunk? then sink[|sink| - 1].bytes else [])
  }

  function Notes(sink: seq<Write>): seq<Bytes> {
    if sink == [] then []
    else Notes(sink[..|sink| - 1]) + (if sink[|sink| - 1].Note? then [sink[|sink| - 1].bytes] else [])
  }

  /** What the file holds. */
  function Contents(sink: seq<Write>): Bytes {
    if sink == [] then [] else Contents(sink[..|sink| - 1]) + sink[|sink| - 1].bytes
  }

  lemma SinkSnoc(sink: seq<Write>, w: Write)
    ensures Data(sink + [w]) == if w.Chunk? then Data(sink) + w.bytes else Data(sink)
    ensures Notes(sink + [w]) == if w.Note? then Notes(sink) + [w.bytes] else Notes(sink)
    ensures Contents(sink + [w]) == Contents(sink) + w.bytes
  {
    assert (sink + [w])[..|sink|] == sink;
    assert Data(sink) + [] == Data(sink) && Notes(sink) + [] == Notes(sink);
  }

  /** Without notes the file is the stream. */
  lemma {:induction false} ContentsAreData(sink: seq<Write>)
    requires Notes(sink) == []
    ensures Contents(sink) == Data(sink)
  {
    if sink != [] {
      ContentsAreData(sink[..|sink| - 1]);
    }
  }

  /** Every note stands right after the chunk whose echo failed. */
  ghost predicate NotesFollowChunks(sink: seq<Write>) {
    forall i :: 0 <= i < |sink| && sink[i].Note? ==> i > 0 && sink[i - 1].Chunk?
  }

  /** The sink after a chunk, and after the note of a failed echo. */
  function Copied(sink: seq<Write>, chunk: Bytes, fault: Option<Bytes>): seq<Write> {
    if fault.None? then sink + [Chunk(chunk)] else sink + [Chunk(chunk)] + [Note(fault.value)]
  }

  lemma CopiedKeepsStream(sink: seq<Write>, chunk: Bytes, fault: Option<Bytes>, rest: Bytes)
    ensures Data(Copied(sink, chunk, fault)) + rest == Data(sink) + (chunk + rest)
    ensures Notes(Copied(sink, chunk, fault)) == if fault.Some? then Notes(sink) + [fault.value] else Notes(sink)
    ensures NotesFollowChunks(sink) ==> NotesFollowChunks(Copied(sink, chunk, fault))
  {
    SinkSnoc(sink, Chunk(chunk));
    if fault.Some? {
      SinkSnoc(sink + [Chunk(chunk)], Note(fault.value));
    }
    assert (Data(sink) + chunk) + rest == Data(sink) + (chunk + rest);
  }

  // ------------------------------------------------------------------ wake-ups

  /** The child's two output streams. */
  datatype Pipe = Stdout | Stderr

  /** What the next wake-up brings. */
  datatype Ready =
    | Stdin(want: nat)
    | StdinBroken
    | Output(pipe: Pipe, want: nat, fault: Option<Bytes>)
    | TimeUp

  /** One of the child's output streams: what is still in the pipe, whether it is registered, and its sink. */
  datatype Stream = Stream(unread: Bytes, open: bool, sink: seq<Write>)

  /** What the loop holds; stdin is registered while something is pending. */
  datatype Pump = Pump(pending: Option<Bytes>, delivered: Bytes, hungUp: bool, out: Stream, err: Stream)

  function StreamOf(p: Pump, pipe: Pipe): Stream {
    if pipe.Stdout? then p.out else p.err
  }

  function Started(payload: Option<Bytes>, stdout: Bytes, stderr: Bytes): Pump {
    Pump(if payload.Some? && payload.value != [] then payload else None, [], false,
         Stream(stdout, true, []), Stream(stderr, true, []))
  }

  predicate Registered(p: Pump) {
    p.out.open || p.err.open || p.pending.Some?
  }

  /** How much moves: at least one byte when there is any, and at most what fits. */
  function Taken(want: nat, most: nat): (n: nat)
    ensures n <= most && (most > 0 ==> n > 0)
  {
    if most == 0 then 0 else 1 + want % most
  }

  function ChunkOf(s: Stream, want: nat): Bytes {
    s.unread[..Taken(want, if |s.unread| < PUMP_CHUNK then |s.unread| else PUMP_CHUNK)]
  }

  /** One chunk is copied; an empty read is the end of the stream. */
  function AfterRead(s: Stream, want: nat, fault: Option<Bytes>): Stream {
    var chunk := ChunkOf(s, want);
    if chunk == [] then s.(open := false) else Stream(s.unread[|chunk|..], s.open, Copied(s.sink, chunk, fault))
  }

  /** What fits is delivered, and a broken pipe forgives the rest. */
  function AfterWrite(p: Pump, want: nat, broken: bool): Pump
    requires p.pending.Some?
  {
    var all := p.pending.value;
    var n := if broken then |all| else Taken(want, |all|);
    p.(pending := if all[n..] == [] then None else Some(all[n..]),
       delivered := if broken then p.delivered else p.delivered + all[..n],
       hungUp := p.hungUp || broken)
  }

  /** A key that is not registered is never ready. */
  predicate Serves(p: Pump, e: Ready) {
    match e
    case Stdin(_) => p.pending.Some?
    case StdinBroken => p.pending.Some?
    case Output(pipe, _, _) => StreamOf(p, pipe).open
    case TimeUp => false
  }

  function Step(p: Pump, e: Ready): Pump {
    if !Serves(p, e) then p
    else
      match e
      case Stdin(want) => AfterWrite(p, want, false)
      case StdinBroken => AfterWrite(p, 0, true)
      case Output(pipe, want, fault) =>
        var after := AfterRead(StreamOf(p, pipe), want, fault);
        if pipe.Stdout? then p.(out := after) else p.(err := after)
      case TimeUp => p
  }

  function After(p: Pump, schedule: seq<Ready>): Pump {
    if schedule == [] then p else Step(After(p, schedule[..|schedule| - 1]), schedule[|schedule| - 1])
  }

  // ------------------------------------------------------------------- the loop

  /** One output stream and its sink. */
  class Channel {
    var unread: Bytes
    var open: bool
    var sink: seq<Write>

    function View(): Stream
      reads this
    {
      Stream(unread, open, sink)
    }

    constructor (stream: Bytes)
      ensures View() == Stream(stream, true, [])
    {
      unread, open, sink := stream, true, [];
    }

    method PumpOut(want: nat, fault: Option<Bytes>)
      modifies this
      ensures View() == AfterRead(old(View()), want, fault)
    {
      var n := Taken(want, if |unread| < PUMP_CHUNK then |unread| else PUMP_CHUNK);
      var chunk := unread[..n];
      if chunk == [] {
        open := false;
        return;
      }
      unread := unread[n..];
      sink := sink + [Chunk(chunk)];
      if fault.Some? {
        sink := sink + [Note(fault.value)];
      }
    }
  }

  datatype Outcome = Exited | TimedOut | StillRunning

  class Teed {
    const out: Channel
    const err: Channel
    var pending: Option<Bytes>
    var delivered: Bytes         // what the child's stdin has received
    var hungUp: bool

    ghost predicate Valid()
    {
      out != err
    }

    function View(): Pump
      reads this, out, err
    {
      Pump(pending, delivered, hungUp, out.View(), err.View())
    }

    constructor (payload: Option<Bytes>, stdout: Bytes, stderr: Bytes)
      ensures Valid() && fresh(out) && fresh(err)
      ensures View() == Started(payload, stdout, stderr)
    {
      out := new Channel(stdout);
      err := new Channel(stderr);
      pending := if payload.Some? && payload.value != [] then payload else None;
      delivered, hungUp := [], false;
    }

    method PumpStdin(want: nat, broken: bool)
      requires pending.Some?
      modifies this
      ensures View() == AfterWrite(old(View()), want, broken)
    {
      var all := pending.value;
      var written := |all|;
      if broken {
        hungUp := true;
      } else {
        written := Taken(want, |all|);
        delivered := delivered + all[..written];
      }
      var rest := all[written..];
      if rest == [] {
        pending := None;
      } else {
        pending := Some(rest);
      }
    }

    method Serve(event: Ready)
      requires Valid()
      modifies this, out, err
      ensures View() == Step(old(View()), event)
    {
      match event {
        case Stdin(want) =>
          if pending.Some? {
            PumpStdin(want, false);
          }
        case StdinBroken =>
          if pending.Some? {
            PumpStdin(0, true);
          }
        case Output(pipe, want, fault) =>
          var channel := if pipe.Stdout? then out else err;
          if channel.open {
            channel.PumpOut(want, fault);
          }
        case TimeUp =>
      }
    }

    /** The select loop, over any schedule; it consumes the first `n` wake-ups. */
    method Run(schedule: seq<Ready>, exits: bool) returns (r: Outcome, n: nat)
      requires Valid()
      modifies this, out, err
      ensures Ran(old(View()), schedule, exits, r, n) && View() == After(old(View()), schedule[..n])
    {
      ghost var start := View();
      n := 0;
      while Registered(View())
        invariant n <= |schedule| && View() == After(start, schedule[..n])
        invariant forall k :: 0 <= k < n ==> !schedule[k].TimeUp? && Registered(After(start, schedule[..k]))
        decreases |schedule| - n
      {
        if n == |schedule| {
          return StillRunning, n;
        }
        if schedule[n].TimeUp? {
          return TimedOut, n;
        }
        assert schedule[..n + 1][..n] == schedule[..n];
        Serve(schedule[n]);
        n := n + 1;
      }
      r := if exits then Exited else TimedOut;
    }
  }

  /** The loop goes on while anything is registered, and ends as `r` says after `n` wake-ups. */
  ghost predicate Ran(p: Pump, schedule: seq<Ready>, exits: bool, r: Outcome, n: nat) {
    && n <= |schedule|
    && (forall k :: 0 <= k < n ==> !schedule[k].TimeUp? && Registered(After(p, schedule[..k])))
    && var open := Registered(After(p, schedule[..n]));
       match r
       case Exited => !open && exits
       case TimedOut => if open then n < |schedule| && schedule[n].TimeUp? else !exits
       case StillRunning => open && n == |schedule|
  }

  /** Spawn, pump and wait. */
  method RunTeed(payload: Option<Bytes>, stdout: Bytes, stderr: Bytes, schedule: seq<Ready>, exits: bool)
      returns (r: Outcome, end: Pump, n: nat)
    ensures Ran(Started(payload, stdout, stderr), schedule, exits, r, n)
    ensures end == After(Started(payload, stdout, stderr), schedule[..n])
  {
    var teed := new Teed(payload, stdout, stderr);
    r, n := teed.Run(schedule, exits);
    end := teed.View();
  }

  // ------------------------------------------------------------- what it promises

  function PayloadBytes(payload: Option<Bytes>): Bytes {
    if payload.Some? then payload.value else []
  }

  /** The echo faults of the served reads of one stream that were not empty, in order. */
  function Faults(p: Pump, schedule: seq<Ready>, pipe: Pipe): seq<Bytes> {
    if schedule == [] then []
    else
      var front, e := schedule[..|schedule| - 1], schedule[|schedule| - 1];
      var before, earlier := StreamOf(After(p, front), pipe), Faults(p, front, pipe);
      if e.Output? && e.pipe == pipe && before.open && before.unread != [] && e.fault.Some?
      then earlier + [e.fault.value] else earlier
  }

  /** `s` has copied a prefix of `stream`, and all of it once it is closed. */
  ghost predicate Carries(s: Stream, stream: Bytes, faults: seq<Bytes>) {
    && Data(s.sink) + s.unread == stream
    && Notes(s.sink) == faults
    && NotesFollowChunks(s.sink)
    && (!s.open ==> s.unread == [])
  }

  lemma ReadCarries(s: Stream, stream: Bytes, faults: seq<Bytes>, want: nat, fault: Option<Bytes>)
    requires Carries(s, stream, faults) && s.open
    ensures Carries(AfterRead(s, want, fault), stream,
                    if s.unread != [] && fault.Some? then faults + [fault.value] else faults)
  {
    var chunk := ChunkOf(s, want);
    var rest := s.unread[|chunk|..];
    assert s.unread == chunk + rest;
    CopiedKeepsStream(s.sink, chunk, fault, rest);
  }

  /** At every moment of every schedule each sink holds a prefix of its stream, with one note per served echo fault. */
  lemma {:induction false} SinksCarryStreams(payload: Option<Bytes>, stdout: Bytes, stderr: Bytes,
      schedule: seq<Ready>, pipe: Pipe)
    ensures
      var start := Started(payload, stdout, stderr);
      var stream := if pipe.Stdout? then stdout else stderr;
      Carries(StreamOf(After(start, schedule), pipe), stream, Faults(start, schedule, pipe))
  {
    var start, stream := Started(payload, stdout, stderr), if pipe.Stdout? then stdout else stderr;
    if schedule == [] {
      assert [] + stream == stream;
    } else {
      var front, e := schedule[..|schedule| - 1], schedule[|schedule| - 1];
      SinksCarryStreams(payload, stdout, stderr, front, pipe);
      var p := After(start, front);
      if e.Output? && e.pipe == pipe && StreamOf(p, pipe).open {
        ReadCarries(StreamOf(p, pipe), stream, Faults(start, front, pipe), e.want, e.fault);
      }
    }
  }

  /** What has been written and what is pending make up the payload, until the child hangs up and loses the rest. */
  ghost predicate Feeds(p: Pump, payload: Bytes) {
    && p.delivered <= payload
    && (!p.hungUp ==> if p.pending.Some? then p.delivered + p.pending.value == payload else p.delivered == payload)
    && (p.pending.Some? ==> p.pending.value != [] && !p.hungUp)
    && (p.hungUp ==> p.delivered != payload)
    && (p.pending.Some? <==> !p.hungUp && p.delivered != payload)
  }

  lemma WriteFeeds(p: Pump, payload: Bytes, want: nat, broken: bool)
    requires Feeds(p, payload) && p.pending.Some?
    ensures Feeds(AfterWrite(p, want, broken), payload)
  {
    var all := p.pending.value;
    var n := if broken then |all| else Taken(want, |all|);
    assert all == all[..n] + all[n..];
    assert p.delivered + all == (p.delivered + all[..n]) + all[n..];
  }

  /** Wake-up `k` finds the pipe broken while something is pending. */
  ghost predicate BrokeAt(p: Pump, schedule: seq<Ready>, k: int) {
    0 <= k < |schedule| && schedule[k].StdinBroken? && After(p, schedule[..k]).pending.Some?
  }

  lemma BrokeEarlier(p: Pump, schedule: seq<Ready>)
    requires schedule != []
    ensures
      var front := schedule[..|schedule| - 1];
      (exists k :: BrokeAt(p, schedule, k)) <==>
      (exists k :: BrokeAt(p, front, k)) || BrokeAt(p, schedule, |schedule| - 1)
  {
    var front := schedule[..|schedule| - 1];
    forall k | 0 <= k < |front|
      ensures BrokeAt(p, front, k) <==> BrokeAt(p, schedule, k)
    {
      assert front[..k] == schedule[..k];
    }
  }

  /**
   At every moment of every schedule stdin has received a prefix of the payload; the
   child has hung up exactly when a broken pipe was met while something was pending.
   */
  lemma {:induction false} StdinIsFed(payload: Option<Bytes>, stdout: Bytes, stderr: Bytes, schedule: seq<Ready>)
    ensures
      var start := Started(payload, stdout, stderr);
      && Feeds(After(start, schedule), PayloadBytes(payload))
      && (After(start, schedule).hungUp <==> exists k :: BrokeAt(start, schedule, k))
  {
    var start := Started(payload, stdout, stderr);
    if schedule != [] {
      var front, e := schedule[..|schedule| - 1], schedule[|schedule| - 1];
      StdinIsFed(payload, stdout, stderr, front);
      BrokeEarlier(start, schedule);
      var p := After(start, front);
      if (e.Stdin? || e.StdinBroken?) && p.pending.Some? {
        WriteFeeds(p, PayloadBytes(payload), if e.Stdin? then e.want else 0, e.StdinBroken?);
      }
    }
  }

  /**
   After a normal return each sink holds the whole stream in order, with exactly the
   notes of the served echo faults, each behind its chunk.
   */
  lemma NormalReturnKeepsStreams(payload: Option<Bytes>, stdout: Bytes, stderr: Bytes,
                                 schedule: seq<Ready>, exits: bool, r: Outcome, n: nat, pipe: Pipe)
    requires Ran(Started(payload, stdout, stderr), schedule, exits, r, n) && r.Exited?
    ensures
      var start := Started(payload, stdout, stderr);
      var sink, faults := StreamOf(After(start, schedule[..n]), pipe).sink, Faults(start, schedule[..n], pipe);
      && Data(sink) == (if pipe.Stdout? then stdout else stderr)
      && Notes(sink) == faults && NotesFollowChunks(sink)
      && (faults == [] ==> Contents(sink) == if pipe.Stdout? then stdout else stderr)
  {
    var start := Started(payload, stdout, stderr);
    SinksCarryStreams(payload, stdout, stderr, schedule[..n], pipe);
    var sink := StreamOf(After(start, schedule[..n]), pipe).sink;
    assert Data(sink) + [] == Data(sink);
    if Notes(sink) == [] {
      ContentsAreData(sink);
    }
  }

  /** After a normal return the child has received the whole payload exactly unless it hung up. */
  lemma NormalReturnIsComplete(payload: Option<Bytes>, stdout: Bytes, stderr: Bytes,
                               schedule: seq<Ready>, exits: bool, r: Outcome, n: nat)
    requires Ran(Started(payload, stdout, stderr), schedule, exits, r, n) && r.Exited?
    ensures
      var start := Started(payload, stdout, stderr);
      After(start, schedule[..n]).delivered == PayloadBytes(payload) <==> !exists k :: BrokeAt(start, schedule[..n], k)
  {
    StdinIsFed(payload, stdout, stderr, schedule[..n]);
  }

  // ---------------------------------------------------------------------- progress

  /** Bytes still to be moved and streams still open. */
  function Measure(p: Pump): nat {
    (if p.pending.Some? then |p.pending.value| else 0)
    + |p.out.unread| + (if p.out.open then 1 else 0)
    + |p.err.unread| + (if p.err.open then 1 else 0)
  }

  function ServedCount(p: Pump, schedule: seq<Ready>): nat {
    if schedule == [] then 0
    else
      var front := schedule[..|schedule| - 1];
      ServedCount(p, front) + (if Moves(After(p, front), schedule[|schedule| - 1]) then 1 else 0)
  }

  /** Wake-up `e` moves bytes on or ends a stream: stdin is pending, or the stream it reads is open. */
  predicate Moves(p: Pump, e: Ready) {
    if e.Output? then (if e.pipe.Stdout? then p.out.open else p.err.open) else !e.TimeUp? && p.pending.Some?
  }

  /**
   A wake-up that moves something makes the measure smaller, and any other changes nothing. A
   read takes between one byte and 65536 from its own stream or closes it when it has ended, and
   a write delivers something.
   */
  lemma StepMakesProgress(p: Pump, e: Ready)
    requires p.pending.Some? ==> p.pending.value != []
    ensures if Moves(p, e) then Measure(Step(p, e)) < Measure(p) else Step(p, e) == p
    ensures Moves(p, e) && e.Output? ==>
              var was, now := StreamOf(p, e.pipe), StreamOf(Step(p, e), e.pipe);
              if was.unread == [] then !now.open else now.open && 1 <= |was.unread| - |now.unread| <= 65536
    ensures Moves(p, e) && e.Stdin? ==> |p.delivered| < |Step(p, e).delivered|
    ensures e.Output? && e.pipe.Stdout? ==> Step(p, e) == p.(out := Step(p, e).out)
    ensures e.Output? && e.pipe.Stderr? ==> Step(p, e) == p.(err := Step(p, e).err)
    ensures !e.Output? ==> Step(p, e).out == p.out && Step(p, e).err == p.err
  {
  }

  /** So at most as many wake-ups serve a key as there are bytes to move, plus one for each stream. */
  lemma {:induction false} ServedAreBounded(payload: Option<Bytes>, stdout: Bytes, stderr: Bytes, schedule: seq<Ready>)
    ensures
      var start := Started(payload, stdout, stderr);
      ServedCount(start, schedule) + Measure(After(start, schedule)) <= |PayloadBytes(payload)| + |stdout| + |stderr|
          + 2
  {
    if schedule != [] {
      var front := schedule[..|schedule| - 1];
      ServedAreBounded(payload, stdout, stderr, front);
      StdinIsFed(payload, stdout, stderr, front);
      StepMakesProgress(After(Started(payload, stdout, stderr), front), schedule[|schedule| - 1]);
    }
  }
}
