/**
 Typing the first prompt into a terminal program: wait until its first drawing has
 gone quiet, paste the prompt, and press Enter on the next tick.
 */
module InitialInput {
  import opened Encoding
  import opened Lists
  import opened Wrappers

  type Bytes = seq<byte>

  const ESC := 0x1B
  const PASTE_OPEN: Bytes := [ESC, 0x5B, 0x32, 0x30, 0x30, 0x7E]
  const PASTE_CLOSE: Bytes := [ESC, 0x5B, 0x32, 0x30, 0x31, 0x7E]
  const ENTER: Bytes := [0x0D]

  // -------------------------------------------------------------------- payload

  function WithoutEscape(text: string): string {
    if text == "" then ""
    else WithoutEscape(text[..|text| - 1]) + (if text[|text| - 1] as int == ESC then "" else [text[|text| - 1]])
  }

  function Payload(text: string): Bytes {
    PASTE_OPEN + EncodeText(WithoutEscape(text)) + PASTE_CLOSE
  }

  lemma {:induction false} BodyHasNoEscape(text: string)
    ensures forall i :: 0 <= i < |EncodeText(WithoutEscape(text))| ==> EncodeText(WithoutEscape(text))[i] != ESC
  {
    if text != "" {
      var front, c := text[..|text| - 1], text[|text| - 1];
      BodyHasNoEscape(front);
      if c as int == ESC {
        assert WithoutEscape(front) + "" == WithoutEscape(front);
      } else {
        var kept := WithoutEscape(front) + [c];
        assert kept[..|kept| - 1] == WithoutEscape(front);
        forall i | 0 <= i < |Utf8(c)|
          ensures Utf8(c)[i] != ESC
        {
          if Utf8(c)[i] < 0x80 {
            Utf8KeepsAscii(c, i);
          }
        }
      }
    }
  }

  predicate OccursAt(s: Bytes, part: Bytes, i: int) {
    0 <= i <= |s| - |part| && s[i..i + |part|] == part
  }

  /** Whatever the text, the paste is closed once, at its very end. */
  lemma PasteClosesOnce(text: string, i: int)
    ensures OccursAt(Payload(text), PASTE_CLOSE, i) <==> i == |Payload(text)| - |PASTE_CLOSE|
  {
    var all := Payload(text);
    assert all[|all| - 6..|all| - 6 + 6] == PASTE_CLOSE;
    if OccursAt(all, PASTE_CLOSE, i) {
      assert all[i] == all[i..i + 6][0];
      assert all[i + 4] == all[i..i + 6][4];
      BodyHasNoEscape(text);
      assert all[4] == PASTE_OPEN[4];
    }
  }

  lemma {:induction false} WithoutEscapeAppend(a: string, b: string)
    ensures WithoutEscape(a + b) == WithoutEscape(a) + WithoutEscape(b)
  {
    if b == "" {
      assert a + b == a && WithoutEscape(a) + "" == WithoutEscape(a);
    } else {
      var front, c := b[..|b| - 1], b[|b| - 1];
      WithoutEscapeAppend(a, front);
      assert (a + b)[..|a + b| - 1] == a + front;
      Assoc(WithoutEscape(a), WithoutEscape(front), if c as int == ESC then "" else [c]);
    }
  }

  lemma {:induction false} NoEscapeToDrop(a: string)
    requires forall i :: 0 <= i < |a| ==> a[i] as int != 0x1B
    ensures WithoutEscape(a) == a
  {
    if a != "" {
      NoEscapeToDrop(a[..|a| - 1]);
    }
  }

  /** Dropping the escape character keeps everything else, in order. */
  lemma EscapeIsDropped(a: string, b: string)
    requires forall i :: 0 <= i < |a| ==> a[i] as int != 0x1B
    ensures WithoutEscape(a) == a
    ensures WithoutEscape(a + [0x1B as char] + b) == a + WithoutEscape(b)
  {
    NoEscapeToDrop(a);
    WithoutEscapeAppend(a, [0x1B as char]);
    WithoutEscapeAppend(a + [0x1B as char], b);
    assert WithoutEscape([0x1B as char]) == "" && a + "" == a;
  }

  /** The paste is opened by ESC `[200~`, holds the text without escapes in UTF-8, and is closed by ESC `[201~`. */
  lemma PayloadReadsBack(text: string)
    ensures
      var all := Payload(text);
      && |all| >= 12
      && all[..6] == [27, 91, 50, 48, 48, 126] && all[|all| - 6..] == [27, 91, 50, 48, 49, 126]
      && Decoded(all[6..|all| - 6]) == Codes(WithoutEscape(text))
  {
    var body := EncodeText(WithoutEscape(text));
    TextReadsBack(WithoutEscape(text), []);
    assert body + [] == body && Payload(text)[6..|Payload(text)| - 6] == body;
    assert Codes(WithoutEscape(text)) + [] == Codes(WithoutEscape(text));
  }

  // --------------------------------------------------------------- state machine

  datatype State = WaitOutput | Armed | Pasted | Finished | Missed

  datatype Settings = Settings(payload: Bytes, quiet: real, cap: real, enterDelay: real, started: real)

  datatype Machine = Machine(state: State, lastOutput: Option<real>)

  datatype Event = Output(at: real) | Tick(at: real)

  predicate Pending(m: Machine) {
    m.state.WaitOutput? || m.state.Armed? || m.state.Pasted?
  }

  function AfterOutput(m: Machine, now: real): Machine {
    Machine(if m.state.WaitOutput? then Armed else m.state, Some(now))
  }

  function AfterTick(s: Settings, m: Machine, now: real): (Machine, Option<Bytes>) {
    if m.state.Pasted? then (m.(state := Finished), Some(ENTER))
    else if now - s.started >= s.cap then (m.(state := Missed), None)
    else if m.state.Armed? && m.lastOutput.Some? && now - m.lastOutput.value >= s.quiet then
      (m.(state := Pasted), Some(s.payload))
    else (m, None)
  }

  function Max0(x: real): real {
    if x < 0.0 then 0.0 else x
  }

  function Timeout(s: Settings, m: Machine, now: real): Option<real> {
    var capLeft := Max0(s.started + s.cap - now);
    if !Pending(m) then None
    else if m.state.Pasted? then Some(s.enterDelay)
    else if m.state.Armed? && m.lastOutput.Some? then
      var quietLeft := Max0(m.lastOutput.value + s.quiet - now);
      Some(if quietLeft < capLeft then quietLeft else capLeft)
    else Some(capLeft)
  }

  class InitialInputInjector {
    const settings: Settings
    var state: State
    var lastOutput: Option<real>

    function View(): Machine
      reads this
    {
      Machine(state, lastOutput)
    }

    constructor (text: string, quiet: real, cap: real, enterDelay: real, now: real)
      ensures settings == Settings(Payload(text), quiet, cap, enterDelay, now)
      ensures View() == Machine(WaitOutput, None)
    {
      settings := Settings(Payload(text), quiet, cap, enterDelay, now);
      state, lastOutput := WaitOutput, None;
    }

    method OnOutput(now: real)
      modifies this
      ensures View() == AfterOutput(old(View()), now)
    {
      lastOutput := Some(now);
      if state == WaitOutput {
        state := Armed;
      }
    }

    method OnTick(now: real) returns (bytes: Option<Bytes>)
      modifies this
      ensures (View(), bytes) == AfterTick(settings, old(View()), now)
    {
      if state == Pasted {
        state := Finished;
        return Some(ENTER);
      }
      if now - settings.started >= settings.cap {
        state := Missed;
        return None;
      }
      if state == Armed && lastOutput.Some? && now - lastOutput.value >= settings.quiet {
        state := Pasted;
        return Some(settings.payload);
      }
      return None;
    }

    method NextTimeout(now: real) returns (t: Option<real>)
      ensures t == Timeout(settings, View(), now)
    {
      if !(state == WaitOutput || state == Armed || state == Pasted) {
        return None;
      }
      var capLeft := Max0(settings.started + settings.cap - now);
      if state == Pasted {
        return Some(settings.enterDelay);
      }
      if state == Armed && lastOutput.Some? {
        var quietLeft := Max0(lastOutput.value + settings.quiet - now);
        return Some(if quietLeft < capLeft then quietLeft else capLeft);
      }
      return Some(capLeft);
    }
  }

  // ------------------------------------------------------------------------ runs

  const START := Machine(WaitOutput, None)

  function After(s: Settings, events: seq<Event>): Machine {
    if events == [] then START
    else
      var before, e := After(s, events[..|events| - 1]), events[|events| - 1];
      if e.Output? then AfterOutput(before, e.at) else AfterTick(s, before, e.at).0
  }

  /** What the run writes to the terminal. */
  function Emissions(s: Settings, events: seq<Event>): seq<Bytes> {
    if events == [] then []
    else
      var before, e := After(s, events[..|events| - 1]), events[|events| - 1];
      var bytes := if e.Output? then None else AfterTick(s, before, e.at).1;
      Emissions(s, events[..|events| - 1]) + (if bytes.Some? then [bytes.value] else [])
  }

  /** The time of the latest drawing. */
  function LatestOutput(events: seq<Event>): Option<real> {
    if events == [] then None
    else if events[|events| - 1].Output? then Some(events[|events| - 1].at)
    else LatestOutput(events[..|events| - 1])
  }

  /** The state tells what has been written, and remembers the latest drawing. */
  lemma {:induction false} StateTellsEmissions(s: Settings, events: seq<Event>)
    ensures
      var m := After(s, events);
      && m.lastOutput == LatestOutput(events)
      && (m.state.WaitOutput? ==> LatestOutput(events).None?)
      && (m.state.Armed? ==> LatestOutput(events).Some?)
      && Emissions(s, events) ==
           match m.state
           case Pasted => [s.payload]
           case Finished => [s.payload, ENTER]
           case Missed => if Emissions(s, events) == [] then [] else [s.payload, ENTER]
           case _ => []
  {
    if events != [] {
      var front, e := events[..|events| - 1], events[|events| - 1];
      StateTellsEmissions(s, front);
      var m := After(s, front);
      assert Emissions(s, front) + [] == Emissions(s, front);
      if e.Tick? && m.state.Pasted? {
        assert [s.payload] + [ENTER] == [s.payload, ENTER];
      }
    }
  }

  /** Never anything but the paste and then Enter. */
  lemma EmissionsArePrefix(s: Settings, events: seq<Event>)
    ensures Emissions(s, events) <= [s.payload, ENTER]
  {
    StateTellsEmissions(s, events);
  }

  /** The clock never goes back. */
  ghost predicate Ordered(s: Settings, events: seq<Event>) {
    && (forall i :: 0 <= i < |events| ==> s.started <= events[i].at)
    && (forall i, j :: 0 <= i < j < |events| ==> events[i].at <= events[j].at)
  }

  ghost predicate CapTick(s: Settings, e: Event) {
    e.Tick? && e.at - s.started >= s.cap
  }

  /** The cap was missed only if some tick came at or after it. */
  lemma {:induction false} MissedAtCap(s: Settings, events: seq<Event>)
    requires After(s, events).state.Missed?
    ensures exists k :: 0 <= k < |events| && CapTick(s, events[k])
  {
    var front, e := events[..|events| - 1], events[|events| - 1];
    if After(s, front).state.Missed? {
      MissedAtCap(s, front);
      var k :| 0 <= k < |front| && CapTick(s, front[k]);
      assert CapTick(s, events[k]);
    } else {
      assert CapTick(s, e);
    }
  }

  /**
   The paste goes out exactly at the tick that first finds something drawn, the
   latest drawing at least the quiet time ago, and the cap not reached.
   */
  lemma PasteWaitsForSilence(s: Settings, events: seq<Event>, now: real)
    requires Ordered(s, events + [Tick(now)]) && Emissions(s, events) == []
    ensures
      Emissions(s, events + [Tick(now)]) ==
        if LatestOutput(events).Some? && now - LatestOutput(events).value >= s.quiet && now - s.started < s.cap
        then [s.payload] else []
  {
    var all := events + [Tick(now)];
    assert all[..|events|] == events && all[|events|] == Tick(now);
    StateTellsEmissions(s, events);
    if After(s, events).state.Missed? {
      MissedAtCap(s, events);
      var k :| 0 <= k < |events| && CapTick(s, events[k]);
      assert all[k].at <= all[|events|].at;
    }
  }

  /** Tick `k` comes when something has been drawn, the quiet time has passed since, and the cap is not reached. */
  ghost predicate DueAt(s: Settings, events: seq<Event>, k: int) {
    0 <= k < |events| && events[k].Tick? &&
    var drawn := LatestOutput(events[..k]);
    drawn.Some? && events[k].at - drawn.value >= s.quiet && events[k].at - s.started < s.cap
  }

  lemma DueEarlier(s: Settings, events: seq<Event>)
    requires events != []
    ensures
      var front := events[..|events| - 1];
      (exists k :: DueAt(s, events, k)) <==> (exists k :: DueAt(s, front, k)) || DueAt(s, events, |events| - 1)
  {
    var front := events[..|events| - 1];
    forall k | 0 <= k < |front|
      ensures DueAt(s, front, k) <==> DueAt(s, events, k)
    {
      assert front[..k] == events[..k];
    }
  }

  /** Over every run with an ordered clock: something has been written exactly if some tick was due. */
  lemma {:induction false} WrittenIffSomeTickWasDue(s: Settings, events: seq<Event>)
    requires Ordered(s, events)
    ensures Emissions(s, events) != [] <==> exists k :: DueAt(s, events, k)
  {
    if events != [] {
      var front, e := events[..|events| - 1], events[|events| - 1];
      assert events == front + [e];
      WrittenIffSomeTickWasDue(s, front);
      DueEarlier(s, events);
      if e.Output? {
        DrawingWritesNothing(s, front, e.at);
      } else if Emissions(s, front) == [] {
        PasteWaitsForSilence(s, front, e.at);
      }
    }
  }

  /** The time asked for is exact: a tick after it changes something and a tick before it changes nothing. */
  lemma TimeoutIsExact(s: Settings, m: Machine, now: real, delay: real)
    requires delay >= 0.0
    ensures Timeout(s, m, now).None? <==> m.state.Finished? || m.state.Missed?
    ensures m.state.Pasted? ==> Timeout(s, m, now) == Some(s.enterDelay)
    ensures m.state.WaitOutput? || m.state.Armed? ==>
              (delay >= Timeout(s, m, now).value <==> AfterTick(s, m, now + delay) != (m, None))
  {
  }

  /** Enter goes out exactly at the first tick after the paste. */
  lemma EnterFollowsPaste(s: Settings, events: seq<Event>, now: real)
    requires Emissions(s, events) == [s.payload]
    ensures Emissions(s, events + [Tick(now)]) == [s.payload, [13]]
  {
    assert (events + [Tick(now)])[..|events|] == events;
    StateTellsEmissions(s, events);
    assert [s.payload] + [ENTER] == [s.payload, ENTER];
  }

  /** Some tick at or after the cap found the work already done. */
  ghost predicate LateTick(s: Settings, events: seq<Event>) {
    exists k :: 0 <= k < |events| && CapTick(s, events[k]) && After(s, events[..k]).state.Finished?
  }

  /** As the loop around it does: it is only ticked while it is pending. */
  ghost predicate TickedWhilePending(s: Settings, events: seq<Event>) {
    forall k :: 0 <= k < |events| && events[k].Tick? ==> Pending(After(s, events[..k]))
  }

  /** So ticked, a machine that reports the cap missed has written nothing. */
  lemma MissedMeansNotDelivered(s: Settings, events: seq<Event>)
    requires TickedWhilePending(s, events) && After(s, events).state.Missed?
    ensures Emissions(s, events) == []
  {
    MissedMayHaveWritten(s, events);
  }

  /** Ticked freely, it may miss the cap after it has written everything. */
  lemma LateTickMisses(s: Settings, drawn: real, quiet: real, entered: real, late: real)
    requires quiet - drawn >= s.quiet && quiet - s.started < s.cap && late - s.started >= s.cap
    ensures
      var events := [Output(drawn), Tick(quiet), Tick(entered), Tick(late)];
      After(s, events).state.Missed? && Emissions(s, events) == [s.payload, ENTER]
  {
    var events := [Output(drawn), Tick(quiet), Tick(entered), Tick(late)];
    assert events[..3][..2] == events[..2] && events[..2][..1] == events[..1] && events[..1][..0] == [];
    assert After(s, events[..1]) == Machine(Armed, Some(drawn)) && Emissions(s, events[..1]) == [];
    assert After(s, events[..2]) == Machine(Pasted, Some(drawn)) && Emissions(s, events[..2]) == [s.payload];
    assert After(s, events[..3]) == Machine(Finished, Some(drawn)) && Emissions(s, events[..3]) == [s.payload, ENTER];
  }

  lemma LateTickEarlier(s: Settings, events: seq<Event>)
    requires events != [] && !After(s, events[..|events| - 1]).state.Finished?
    ensures LateTick(s, events) <==> LateTick(s, events[..|events| - 1])
  {
    var front := events[..|events| - 1];
    assert forall k :: 0 <= k < |front| ==> front[..k] == events[..k] && front[k] == events[k];
  }

  /**
   A machine that reports the cap missed has nonetheless written everything exactly
   when it was ticked once more, at or after the cap, after it had finished.
   */
  lemma {:induction false} MissedMayHaveWritten(s: Settings, events: seq<Event>)
    requires After(s, events).state.Missed?
    ensures Emissions(s, events) != [] <==> LateTick(s, events)
  {
    var front, e := events[..|events| - 1], events[|events| - 1];
    var m := After(s, front);
    StateTellsEmissions(s, front);
    assert Emissions(s, events) == Emissions(s, front);
    if m.state.Finished? {
      assert CapTick(s, e) && After(s, events[..|front|]).state.Finished?;
    } else {
      LateTickEarlier(s, events);
      if m.state.Missed? {
        MissedMayHaveWritten(s, front);
      } else if LateTick(s, front) {
        FinishedIsLate(s, front);
      }
    }
  }

  lemma FinishedIsLate(s: Settings, events: seq<Event>)
    requires LateTick(s, events)
    ensures After(s, events).state.Finished? || After(s, events).state.Missed?
  {
    var k :| 0 <= k < |events| && CapTick(s, events[k]) && After(s, events[..k]).state.Finished?;
    FinishedStays(s, events, k, |events|);
    assert events[..|events|] == events;
  }

  lemma {:induction false} FinishedStays(s: Settings, events: seq<Event>, k: nat, n: nat)
    requires k <= n <= |events| && After(s, events[..k]).state.Finished?
    ensures After(s, events[..n]).state.Finished? || After(s, events[..n]).state.Missed?
  {
    if k < n {
      FinishedStays(s, events, k, n - 1);
      assert events[..n][..n - 1] == events[..n - 1];
    }
  }

  /** Drawing alone never writes. */
  lemma DrawingWritesNothing(s: Settings, events: seq<Event>, now: real)
    ensures Emissions(s, events + [Output(now)]) == Emissions(s, events)
  {
    assert (events + [Output(now)])[..|events|] == events;
    assert Emissions(s, events) + [] == Emissions(s, events);
  }

  /**
   With nothing more drawn, waiting as long as asked and ticking ends the wait in
   at most two ticks, whatever went before.
   */
  lemma TwoTicksEnd(s: Settings, events: seq<Event>, now: real, first: real, second: real)
    requires Pending(After(s, events)) && first >= now + Timeout(s, After(s, events), now).value
    requires
      var after := After(s, events + [Tick(first)]);
      Pending(after) ==> second >= first + Timeout(s, after, first).value
    ensures
      || !Pending(After(s, events + [Tick(first)]))
      || !Pending(After(s, events + [Tick(first)] + [Tick(second)]))
  {
    StateTellsEmissions(s, events);
    assert (events + [Tick(first)])[..|events|] == events;
    assert (events + [Tick(first)] + [Tick(second)])[..|events| + 1] == events + [Tick(first)];
  }
}
