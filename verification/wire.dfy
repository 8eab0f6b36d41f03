/**
 The framing of the terminal relay: a type byte, a four-byte big-endian length and
 the payload, parsed incrementally from whatever chunks arrive.
 */
module Wire {
  import opened Wrappers
  import opened Encoding
  import opened Lists

  const HEADER := 5
  const MAX_PAYLOAD := 0x10_0000

  datatype Frame = Frame(ftype: byte, payload: seq<byte>)

  // ------------------------------------------------------------------ encoding

  function Big4(n: nat): (b: seq<byte>)
    requires n < 0x1_0000_0000
    ensures |b| == 4
  {
    [n / 0x100_0000, n / 0x1_0000 % 0x100, n / 0x100 % 0x100, n % 0x100]
  }

  function FromBig4(b: seq<byte>): nat
    requires |b| == 4
  {
    var b0: int, b1: int, b2: int, b3: int := b[0], b[1], b[2], b[3];
    ((b0 * 0x100 + b1) * 0x100 + b2) * 0x100 + b3
  }

  lemma Big4RoundTrip(n: nat)
    requires n < 0x1_0000_0000
    ensures FromBig4(Big4(n)) == n
  {
    var a, b := n / 0x100, n / 0x1_0000;
    assert n == a * 0x100 + n % 0x100;
    assert a == b * 0x100 + a % 0x100 && n / 0x1_0000 == a / 0x100;
    assert b == b / 0x100 * 0x100 + b % 0x100 && n / 0x100_0000 == b / 0x100;
  }

  /** `None` where the original raises: a type that is no byte, a length that needs more than four. */
  function WireEncode(ftype: int, payload: seq<byte>): Option<seq<byte>> {
    if 0 <= ftype < 256 && |payload| < 0x1_0000_0000 then Some([ftype] + Big4(|payload|) + payload) else None
  }

  lemma Big4PlaceValues(n: nat)
    requires n < 0x1_0000_0000
    ensures
      var b0: int, b1: int, b2: int, b3: int := Big4(n)[0], Big4(n)[1], Big4(n)[2], Big4(n)[3];
      n == b0 * 16777216 + b1 * 65536 + b2 * 256 + b3
  {
    Big4RoundTrip(n);
  }

  /** The bytes of a frame: its type, the length of its payload in four bytes, highest first, and the payload. */
  lemma FrameLayout(ftype: int, payload: seq<byte>)
    ensures WireEncode(ftype, payload).Some? <==> 0 <= ftype <= 255 && |payload| < 4294967296
    ensures WireEncode(ftype, payload).Some? ==>
              var all := WireEncode(ftype, payload).value;
              && |all| == 5 + |payload| && all[0] == ftype && all[5..] == payload
              && var b1: int, b2: int, b3: int, b4: int := all[1], all[2], all[3], all[4];
                 |payload| == b1 * 16777216 + b2 * 65536 + b3 * 256 + b4
  {
    if |payload| < 0x1_0000_0000 {
      Big4PlaceValues(|payload|);
    }
  }

  /** What the encoder accepts. */
  predicate Encodable(f: Frame) {
    |f.payload| < 0x1_0000_0000
  }

  /** What the receiver's guard lets through. */
  predicate Sendable(f: Frame) {
    |f.payload| <= MAX_PAYLOAD
  }

  predicate AllEncodable(frames: seq<Frame>) {
    forall i :: 0 <= i < |frames| ==> Encodable(frames[i])
  }

  predicate AllSendable(frames: seq<Frame>)
    ensures AllSendable(frames) ==> AllEncodable(frames)
  {
    forall i :: 0 <= i < |frames| ==> Sendable(frames[i])
  }

  function Encoded(f: Frame): seq<byte>
    requires Encodable(f)
  {
    WireEncode(f.ftype, f.payload).value
  }

  function EncodeAll(frames: seq<Frame>): seq<byte>
    requires AllEncodable(frames)
  {
    if frames == [] then [] else Encoded(frames[0]) + EncodeAll(frames[1..])
  }

  // ------------------------------------------------------------------- parsing

  /** Every complete frame at the front of `buf`, what is left, and whether a length broke the guard. */
  datatype Parsed = Parsed(frames: seq<Frame>, rest: seq<byte>, bad: bool)

  function Length(buf: seq<byte>): nat
    requires |buf| >= HEADER
  {
    FromBig4(buf[1..5])
  }

  function Parse(buf: seq<byte>): Parsed
    decreases |buf|
  {
    if |buf| < HEADER then Parsed([], buf, false)
    else if Length(buf) > MAX_PAYLOAD then Parsed([], buf, true)
    else if |buf| < HEADER + Length(buf) then Parsed([], buf, false)
    else
      var end := HEADER + Length(buf);
      var next := Parse(buf[end..]);
      Parsed([Frame(buf[0], buf[HEADER..end])] + next.frames, next.rest, next.bad)
  }

  /** Parsing `all` gives the frames `out` and then what parsing `buf` gives. */
  ghost predicate FoundSoFar(all: seq<byte>, out: seq<Frame>, buf: seq<byte>) {
    Parse(all) == Parsed(out + Parse(buf).frames, Parse(buf).rest, Parse(buf).bad)
  }

  /** A complete frame at the front moves to the frames found. */
  lemma FoundOne(all: seq<byte>, out: seq<Frame>, buf: seq<byte>)
    requires FoundSoFar(all, out, buf)
    requires |buf| >= HEADER && Length(buf) <= MAX_PAYLOAD && |buf| >= HEADER + Length(buf)
    ensures
      var end := HEADER + Length(buf);
      FoundSoFar(all, out + [Frame(buf[0], buf[HEADER..end])], buf[end..])
  {
    var f, next := Frame(buf[0], buf[HEADER..HEADER + Length(buf)]), Parse(buf[HEADER + Length(buf)..]);
    assert Parse(buf) == Parsed([f] + next.frames, next.rest, next.bad);
    Assoc(out, [f], next.frames);
  }

  datatype FeedResult = Frames(frames: seq<Frame>) | Raised

  class WireFrameParser {
    var buf: seq<byte>

    constructor ()
      ensures buf == []
    {
      buf := [];
    }

    method Feed(data: seq<byte>) returns (r: FeedResult)
      modifies this
      ensures buf == Parse(old(buf) + data).rest
      ensures r == Fed(old(buf), data)
    {
      buf := buf + data;
      ghost var all := buf;
      var out: seq<Frame> := [];
      while |buf| >= HEADER
        invariant FoundSoFar(all, out, buf)
        decreases |buf|
      {
        var ftype := buf[0];
        var length := FromBig4(buf[1..5]);
        if length > MAX_PAYLOAD {
          return Raised;
        }
        if |buf| < HEADER + length {
          break;
        }
        var payload := buf[HEADER..HEADER + length];
        FoundOne(all, out, buf);
        buf := buf[HEADER + length..];
        out := out + [Frame(ftype, payload)];
      }
      assert out + [] == out;
      r := Frames(out);
    }
  }

  /** What one call returns. */
  function Fed(buf: seq<byte>, data: seq<byte>): FeedResult {
    var p := Parse(buf + data);
    if p.bad then Raised else Frames(p.frames)
  }

  /** The frames that a series of calls returns, the buffer it leaves, and whether any call raised. */
  function Delivered(buf: seq<byte>, chunks: seq<seq<byte>>): seq<Frame>
    decreases |chunks|
  {
    if chunks == [] then []
    else
      var r := Fed(buf, chunks[0]);
      (if r.Raised? then [] else r.frames) + Delivered(Parse(buf + chunks[0]).rest, chunks[1..])
  }

  function Left(buf: seq<byte>, chunks: seq<seq<byte>>): seq<byte>
    decreases |chunks|
  {
    if chunks == [] then buf else Left(Parse(buf + chunks[0]).rest, chunks[1..])
  }

  predicate SomeRaise(buf: seq<byte>, chunks: seq<seq<byte>>)
    decreases |chunks|
  {
    chunks != [] && (Fed(buf, chunks[0]).Raised? || SomeRaise(Parse(buf + chunks[0]).rest, chunks[1..]))
  }

  function Join(chunks: seq<seq<byte>>): seq<byte> {
    if chunks == [] then [] else chunks[0] + Join(chunks[1..])
  }

  // ---------------------------------------------------------------- properties

  /** A frame at the front is parsed whatever follows it. */
  lemma ParseFront(buf: seq<byte>, more: seq<byte>)
    requires |buf| >= HEADER
    ensures Length(buf + more) == Length(buf)
    ensures Length(buf) <= MAX_PAYLOAD && |buf| >= HEADER + Length(buf) ==>
              (buf + more)[HEADER..HEADER + Length(buf)] == buf[HEADER..HEADER + Length(buf)]
              && (buf + more)[HEADER + Length(buf)..] == buf[HEADER + Length(buf)..] + more
  {
    assert (buf + more)[1..5] == buf[1..5];
  }

  /** Both halves of a parse in two goes. */
  function ParseMore(p: Parsed, more: seq<byte>): Parsed {
    if p.bad then Parsed(p.frames, p.rest + more, true)
    else
      var q := Parse(p.rest + more);
      Parsed(p.frames + q.frames, q.rest, q.bad)
  }

  lemma ParseMoreCons(f: Frame, p: Parsed, more: seq<byte>)
    ensures
      var m := ParseMore(p, more);
      ParseMore(Parsed([f] + p.frames, p.rest, p.bad), more) == Parsed([f] + m.frames, m.rest, m.bad)
  {
    var q := Parse(p.rest + more);
    assert ([f] + p.frames) + q.frames == [f] + (p.frames + q.frames);
  }

  /** Parsing in two goes is parsing once. */
  lemma {:induction false} ParseAppend(buf: seq<byte>, more: seq<byte>)
    ensures Parse(buf + more) == ParseMore(Parse(buf), more)
    decreases |buf|
  {
    if |buf| >= HEADER && Length(buf) <= MAX_PAYLOAD && |buf| >= HEADER + Length(buf) {
      ParseFront(buf, more);
      var end := HEADER + Length(buf);
      ParseAppend(buf[end..], more);
      ParseMoreCons(Frame(buf[0], buf[HEADER..end]), Parse(buf[end..]), more);
    } else {
      assert Parse(buf) == Parsed([], buf, |buf| >= HEADER && Length(buf) > MAX_PAYLOAD);
      if |buf| >= HEADER {
        ParseFront(buf, more);
      }
      assert [] + Parse(buf + more).frames == Parse(buf + more).frames;
    }
  }

  /** What stays behind parses to nothing, and to the same verdict. */
  lemma {:induction false} RestIsStuck(buf: seq<byte>)
    ensures Parse(Parse(buf).rest) == Parsed([], Parse(buf).rest, Parse(buf).bad)
    ensures !Parse(buf).bad ==> |Parse(buf).rest| < HEADER + MAX_PAYLOAD
    decreases |buf|
  {
    if |buf| >= HEADER && Length(buf) <= MAX_PAYLOAD && |buf| >= HEADER + Length(buf) {
      RestIsStuck(buf[HEADER + Length(buf)..]);
    }
  }

  /** A buffer that has raised raises on every later call, and returns no frame again. */
  lemma {:induction false} RaisesForever(buf: seq<byte>, chunks: seq<seq<byte>>, k: nat)
    requires Parse(buf) == Parsed([], buf, true) && k < |chunks|
    ensures Fed(Left(buf, chunks[..k]), chunks[k]).Raised?
    ensures Delivered(buf, chunks) == []
    decreases |chunks|
  {
    ParseAppend(buf, chunks[0]);
    RestIsStuck(buf + chunks[0]);
    assert chunks[..k] == [] || chunks[..k][1..] == chunks[1..][..k - 1];
    if k > 0 {
      RaisesForever(Parse(buf + chunks[0]).rest, chunks[1..], k - 1);
    } else if |chunks| > 1 {
      RaisesForever(Parse(buf + chunks[0]).rest, chunks[1..], 0);
    }
  }

  /**
   However the bytes are cut, some call raises exactly when the one-shot parse
   does; when none does, the calls return together exactly the one-shot frames and
   leave exactly the one-shot remainder.
   */
  lemma {:induction false} CuttingIsInvisible(buf: seq<byte>, chunks: seq<seq<byte>>)
    requires Parse(buf) == Parsed([], buf, false)
    ensures SomeRaise(buf, chunks) <==> Parse(buf + Join(chunks)).bad
    ensures !SomeRaise(buf, chunks) ==>
              Delivered(buf, chunks) == Parse(buf + Join(chunks)).frames
              && Left(buf, chunks) == Parse(buf + Join(chunks)).rest
    decreases |chunks|
  {
    if chunks == [] {
      assert buf + Join(chunks) == buf;
    } else {
      assert buf + Join(chunks) == (buf + chunks[0]) + Join(chunks[1..]);
      ParseAppend(buf + chunks[0], Join(chunks[1..]));
      RestIsStuck(buf + chunks[0]);
      if !Parse(buf + chunks[0]).bad {
        CuttingIsInvisible(Parse(buf + chunks[0]).rest, chunks[1..]);
      }
    }
  }

  /** After a call that returns, less than one largest frame is buffered. */
  lemma BufferIsBounded(buf: seq<byte>, data: seq<byte>)
    requires Fed(buf, data).Frames?
    ensures |Parse(buf + data).rest| < 5 + 1048576
  {
    RestIsStuck(buf + data);
  }

  lemma ParseEncoded(f: Frame, more: seq<byte>)
    requires Encodable(f)
    ensures
      var next := Parse(more);
      Parse(Encoded(f) + more) ==
        if Sendable(f) then Parsed([f] + next.frames, next.rest, next.bad) else Parsed([], Encoded(f) + more, true)
  {
    var head := [f.ftype] + Big4(|f.payload|);
    var all := head + f.payload + more;
    assert all[1..5] == Big4(|f.payload|);
    Big4RoundTrip(|f.payload|);
    assert all[HEADER..HEADER + |f.payload|] == f.payload;
    assert all[HEADER + |f.payload|..] == more;
  }

  /** The frames before the first that the guard refuses. */
  function Accepted(frames: seq<Frame>): seq<Frame> {
    if frames == [] || !Sendable(frames[0]) then [] else [frames[0]] + Accepted(frames[1..])
  }

  lemma {:induction false} AllAccepted(frames: seq<Frame>)
    ensures Accepted(frames) == frames <==> AllSendable(frames)
    ensures Accepted(frames) <= frames
  {
    if frames != [] {
      AllAccepted(frames[1..]);
      assert frames == [frames[0]] + frames[1..];
      if Sendable(frames[0]) && Accepted(frames) == frames {
        assert Accepted(frames)[1..] == Accepted(frames[1..]);
        forall i | 0 <= i < |frames|
          ensures Sendable(frames[i])
        {
          assert i == 0 || frames[i] == frames[1..][i - 1];
        }
      }
    }
  }

  lemma {:induction false} ParseAllEncoded(frames: seq<Frame>)
    requires AllEncodable(frames)
    ensures Parse(EncodeAll(frames)).frames == Accepted(frames)
    ensures Parse(EncodeAll(frames)).bad <==> Accepted(frames) != frames
    ensures Accepted(frames) == frames ==> Parse(EncodeAll(frames)).rest == []
  {
    if frames != [] {
      ParseAllEncoded(frames[1..]);
      ParseEncoded(frames[0], EncodeAll(frames[1..]));
      if Sendable(frames[0]) {
        AcceptedStep(frames);
      }
    }
  }

  lemma AcceptedStep(frames: seq<Frame>)
    requires frames != [] && Sendable(frames[0])
    ensures Accepted(frames) == frames <==> Accepted(frames[1..]) == frames[1..]
  {
    assert frames == [frames[0]] + frames[1..];
    assert Accepted(frames)[1..] == Accepted(frames[1..]);
  }

  /**
   The guard is exact: however the encodings of any encodable frames are cut, some call
   raises exactly if some payload is larger than the guard allows.
   */
  lemma GuardIsExact(frames: seq<Frame>, chunks: seq<seq<byte>>)
    requires AllEncodable(frames)
    requires Join(chunks) == EncodeAll(frames)
    ensures SomeRaise([], chunks) <==> exists i :: 0 <= i < |frames| && |frames[i].payload| > 1048576
  {
    ParseAllEncoded(frames);
    AllAccepted(frames);
    assert forall i :: 0 <= i < |frames| ==> (Sendable(frames[i]) <==> |frames[i].payload| <= 1048576);
    assert [] + Join(chunks) == Join(chunks);
    CuttingIsInvisible([], chunks);
  }

  /** Round trip: any frames within the guard survive any cutting of their encodings. */
  lemma FramesSurviveCutting(frames: seq<Frame>, chunks: seq<seq<byte>>)
    requires AllSendable(frames)
    requires Join(chunks) == EncodeAll(frames)
    ensures !SomeRaise([], chunks)
    ensures Delivered([], chunks) == frames
    ensures Left([], chunks) == []
  {
    ParseAllEncoded(frames);
    AllAccepted(frames);
    assert [] + Join(chunks) == Join(chunks);
    CuttingIsInvisible([], chunks);
  }

  /** The index of the first call that raises. */
  function FirstRaise(buf: seq<byte>, chunks: seq<seq<byte>>): (k: nat)
    requires SomeRaise(buf, chunks)
    ensures k < |chunks|
    decreases |chunks|
  {
    if Fed(buf, chunks[0]).Raised? then 0 else 1 + FirstRaise(Parse(buf + chunks[0]).rest, chunks[1..])
  }

  /** When the very first call raises nothing is delivered. */
  lemma FirstCallRaises(buf: seq<byte>, chunks: seq<seq<byte>>)
    requires chunks != [] && Fed(buf, chunks[0]).Raised?
    ensures Delivered(buf, chunks) == [] && FirstRaise(buf, chunks) == 0
    ensures chunks[..0] == [] && Left(buf, chunks[..0]) == buf
  {
    RestIsStuck(buf + chunks[0]);
    if |chunks| > 1 {
      RaisesForever(Parse(buf + chunks[0]).rest, chunks[1..], 0);
    }
  }

  /**
   What is lost: when a call raises, exactly the frames completed by the calls
   before it have been returned; the ones completed in the raising call itself are
   dropped from the buffer unseen.
   */
  lemma {:induction false} RaiseLosesItsCall(buf: seq<byte>, chunks: seq<seq<byte>>)
    requires Parse(buf) == Parsed([], buf, false) && SomeRaise(buf, chunks)
    ensures Delivered(buf, chunks) == Parse(buf + Join(chunks[..FirstRaise(buf, chunks)])).frames
    decreases |chunks|
  {
    var next := Parse(buf + chunks[0]);
    RestIsStuck(buf + chunks[0]);
    if Fed(buf, chunks[0]).Raised? {
      FirstCallRaises(buf, chunks);
      assert buf + [] == buf;
    } else {
      RaiseLosesItsCall(next.rest, chunks[1..]);
      FramesBefore(buf, chunks, FirstRaise(buf, chunks));
    }
  }

  lemma FramesBefore(buf: seq<byte>, chunks: seq<seq<byte>>, k: nat)
    requires 0 < k <= |chunks| && Fed(buf, chunks[0]).Frames?
    ensures
      var next := Parse(buf + chunks[0]);
      Parse(buf + Join(chunks[..k])).frames == next.frames + Parse(next.rest + Join(chunks[1..][..k - 1])).frames
  {
    assert chunks[..k][0] == chunks[0] && chunks[..k][1..] == chunks[1..][..k - 1];
    Assoc(buf, chunks[0], Join(chunks[..k][1..]));
    ParseAppend(buf + chunks[0], Join(chunks[1..][..k - 1]));
  }

  lemma LeftAfterFirst(buf: seq<byte>, chunks: seq<seq<byte>>, k: nat)
    requires 0 < k <= |chunks|
    ensures Left(buf, chunks[..k]) == Left(Parse(buf + chunks[0]).rest, chunks[1..][..k - 1])
  {
    assert chunks[..k][0] == chunks[0] && chunks[..k][1..] == chunks[1..][..k - 1];
  }

  /** Every frame that the bytes hold before the error is delivered. */
  predicate LosesNothing(buf: seq<byte>, chunks: seq<seq<byte>>) {
    Delivered(buf, chunks) == Parse(buf + Join(chunks)).frames
  }

  /** The raising call completes no frame. */
  predicate RaisesEmpty(buf: seq<byte>, chunks: seq<seq<byte>>)
    requires SomeRaise(buf, chunks)
  {
    var k := FirstRaise(buf, chunks);
    Parse(Left(buf, chunks[..k]) + chunks[k]).frames == []
  }

  lemma LossAtFirstCall(buf: seq<byte>, chunks: seq<seq<byte>>)
    requires chunks != [] && Fed(buf, chunks[0]).Raised?
    ensures LosesNothing(buf, chunks) <==> RaisesEmpty(buf, chunks)
  {
    FirstCallRaises(buf, chunks);
    Assoc(buf, chunks[0], Join(chunks[1..]));
    ParseAppend(buf + chunks[0], Join(chunks[1..]));
  }

  lemma LossAfterFirstCall(buf: seq<byte>, chunks: seq<seq<byte>>)
    requires SomeRaise(buf, chunks) && Fed(buf, chunks[0]).Frames?
    ensures
      var rest := Parse(buf + chunks[0]).rest;
      && (LosesNothing(buf, chunks) <==> LosesNothing(rest, chunks[1..]))
      && (RaisesEmpty(buf, chunks) <==> RaisesEmpty(rest, chunks[1..]))
  {
    var next := Parse(buf + chunks[0]);
    Assoc(buf, chunks[0], Join(chunks[1..]));
    ParseAppend(buf + chunks[0], Join(chunks[1..]));
    SameTail(next.frames, Delivered(next.rest, chunks[1..]), Parse(next.rest + Join(chunks[1..])).frames);
    LeftAfterFirst(buf, chunks, FirstRaise(buf, chunks));
  }

  /** Nothing is lost exactly when the raising call completes no frame. */
  lemma {:induction false} LostInRaisingCall(buf: seq<byte>, chunks: seq<seq<byte>>)
    requires SomeRaise(buf, chunks)
    ensures LosesNothing(buf, chunks) <==> RaisesEmpty(buf, chunks)
    decreases |chunks|
  {
    if Fed(buf, chunks[0]).Raised? {
      LossAtFirstCall(buf, chunks);
    } else {
      LossAfterFirstCall(buf, chunks);
      LostInRaisingCall(Parse(buf + chunks[0]).rest, chunks[1..]);
    }
  }

  lemma {:induction false} FirstRaiseRaises(buf: seq<byte>, chunks: seq<seq<byte>>)
    requires SomeRaise(buf, chunks)
    ensures
      var k := FirstRaise(buf, chunks);
      Parse(Left(buf, chunks[..k]) + chunks[k]).bad
    decreases |chunks|
  {
    if Fed(buf, chunks[0]).Raised? {
      assert chunks[..0] == [];
    } else {
      var next := Parse(buf + chunks[0]).rest;
      FirstRaiseRaises(next, chunks[1..]);
      var k := FirstRaise(buf, chunks);
      LeftAfterFirst(buf, chunks, k);
    }
  }

  /** The guard breaks at the very front of the buffer. */
  predicate BreaksAtFront(buf: seq<byte>) {
    |buf| >= HEADER && Length(buf) > MAX_PAYLOAD
  }

  /**
   Exactly when an error loses nothing: the buffer that the raising call is given
   starts with the length that breaks the guard.
   */
  lemma RaiseLosesNothingIff(buf: seq<byte>, chunks: seq<seq<byte>>)
    requires SomeRaise(buf, chunks)
    ensures
      var k := FirstRaise(buf, chunks);
      LosesNothing(buf, chunks) <==> BreaksAtFront(Left(buf, chunks[..k]) + chunks[k])
  {
    LostInRaisingCall(buf, chunks);
    FirstRaiseRaises(buf, chunks);
  }

  lemma SameTail(a: seq<Frame>, b: seq<Frame>, c: seq<Frame>)
    ensures a + b == a + c <==> b == c
  {
    if a + b == a + c {
      assert (a + b)[|a|..] == b && (a + c)[|a|..] == c;
    }
  }

  lemma BadParses()
    ensures Parse([0, 255, 0, 0, 0]) == Parsed([], [0, 255, 0, 0, 0], true)
  {
    var bad: seq<byte> := [0, 255, 0, 0, 0];
    assert bad[1..5] == [255, 0, 0, 0];
  }

  lemma OneCall(buf: seq<byte>, data: seq<byte>)
    ensures SomeRaise(buf, [data]) <==> Parse(buf + data).bad
    ensures Delivered(buf, [data]) == if Parse(buf + data).bad then [] else Parse(buf + data).frames
    ensures Join([data]) == data
  {
    var frames := if Parse(buf + data).bad then [] else Parse(buf + data).frames;
    assert [data][1..] == [] && data + [] == data && frames + [] == frames;
  }

  lemma TwoCalls(a: seq<byte>, b: seq<byte>, f: Frame)
    requires Parse(a) == Parsed([f], [], false) && Parse(b).bad
    ensures SomeRaise([], [a, b]) && Delivered([], [a, b]) == [f] && Join([a, b]) == a + b
  {
    assert [] + a == a && [] + b == b && [a, b][1..] == [b];
    OneCall([], b);
    assert Delivered([], [a, b]) == [f] + Delivered([], [b]);
  }

  lemma OneCallLosesIt(a: seq<byte>, b: seq<byte>)
    requires Parse(a + b).bad
    ensures SomeRaise([], [a + b]) && Delivered([], [a + b]) == [] && Join([a + b]) == a + b
  {
    assert [] + (a + b) == a + b;
    OneCall([], a + b);
  }

  ghost predicate ToldApart(a: seq<seq<byte>>, b: seq<seq<byte>>) {
    Join(a) == Join(b) && SomeRaise([], a) && SomeRaise([], b) && Delivered([], a) != Delivered([], b)
  }

  /** So the frames returned before an error depend on the cutting, although the error does not. */
  lemma DeliveryDependsOnCutting()
    ensures exists a, b :: ToldApart(a, b)
  {
    var f := Frame(0, []);
    var good, bad: seq<byte> := Encoded(f), [0, 255, 0, 0, 0];
    BadParses();
    ParseEncoded(f, []);
    ParseEncoded(f, bad);
    assert good + [] == good;
    OneCallLosesIt(good, bad);
    TwoCalls(good, bad, f);
    assert ToldApart([good + bad], [good, bad]);
  }
}
