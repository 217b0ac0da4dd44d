/**
 Websocket.cpp: the incremental frame parser with its reassembly state, and the frame senders.
 `Feed` is one call of the parser; the class runs its loop over the fields.
 */
module Websockets {
  import opened Bytes
  import opened Frames

  const NORMAL := 1000
  const PROTOCOL_ERROR := 1002

  /** The calls the user's handler sees, in order; `Closing` also puts a close frame on the wire. */
  datatype Event =
    | TextMessage(data: Bytes)
    | BinaryMessage(data: Bytes)
    | Ping(data: Bytes)
    | Pong(data: Bytes)
    | Closing(code: nat, reason: Bytes)

  /** `frag_buffer` and `cur_opcode`. */
  datatype Session = Session(frag: Bytes, opcode: nat)

  /** How a call ends: the protocol stays, it is dropped, or a string_view access throws out_of_range. */
  datatype Status = Open | Closed | Threw

  datatype Reaction = Reaction(session: Session, events: seq<Event>, closed: bool)

  datatype Outcome = Outcome(session: Session, events: seq<Event>, consumed: nat, status: Status)

  function Unmasked(): Event {
    Closing(PROTOCOL_ERROR, Ascii("received unmasked message"))
  }

  function Unterminated(): Event {
    Closing(PROTOCOL_ERROR, Ascii("unterminated fragmented message"))
  }

  function Goodbye(): Event {
    Closing(NORMAL, Ascii("thx goodbye"))
  }

  /** What one complete frame does. */
  function React(s: Session, f: Frame): (r: Reaction) {
    if !f.fin then
      if f.opcode == TEXT || f.opcode == BINARY then
        if s.frag != [] then Reaction(s, [Unterminated()], true)
        else Reaction(Session(f.payload, f.opcode), [], false)
      else Reaction(s.(frag := s.frag + f.payload), [], false)
    else if f.opcode == CONTINUATION then
      var data := s.frag + f.payload;
      Reaction(s.(frag := []), [if s.opcode == TEXT then TextMessage(data) else BinaryMessage(data)], false)
    else if f.opcode == TEXT then Reaction(s, [TextMessage(f.payload)], false)
    else if f.opcode == BINARY then Reaction(s, [BinaryMessage(f.payload)], false)
    else if f.opcode == CLOSE then Reaction(s, [Goodbye()], true)
    else if f.opcode == PING then Reaction(s, [Ping(f.payload)], false)
    else if f.opcode == PONG then Reaction(s, [Pong(f.payload)], false)
    else Reaction(s, [], false)
  }

  /** One call of onDataReceived on the buffer `b`. */
  function Feed(s: Session, b: Bytes): (o: Outcome)
    ensures o.consumed <= |b|
    decreases |b|
  {
    if |b| < 6 then Outcome(s, [], 0, Open)
    else if b[1] < 128 then Outcome(s, [Unmasked()], 0, Closed)
    else if |b| < HeaderOf(b) then Outcome(s, [], 0, Threw)
    else if !HasFrame(b, true) then Outcome(s, [], 0, Open)
    else
      var n, r := FrameSize(b, true), React(s, FirstFrame(b, true));
      if r.closed then Outcome(r.session, r.events, n, Closed)
      else
        var o := Feed(r.session, b[n..]);
        Outcome(o.session, r.events + o.events, n + o.consumed, o.status)
  }

  // ---- The same, as reading all frames first and reacting to them afterwards ----

  datatype Playback = Playback(session: Session, events: seq<Event>, used: nat, closed: bool)

  /** Reacting to a list of frames until one closes the connection. */
  function Play(s: Session, fs: seq<Frame>): (p: Playback)
    ensures p.used <= |fs| && (!p.closed ==> p.used == |fs|)
    decreases |fs|
  {
    if fs == [] then Playback(s, [], 0, false)
    else
      var r := React(s, fs[0]);
      if r.closed then Playback(r.session, r.events, 1, true)
      else
        var p := Play(r.session, fs[1..]);
        Playback(p.session, r.events + p.events, 1 + p.used, p.closed)
  }

  /** What the parser makes of bytes that do not start with a complete masked frame. */
  datatype Ending = Waiting | Bare | CutHeader

  function EndingOf(rest: Bytes): Ending {
    if |rest| < 6 then Waiting
    else if rest[1] < 128 then Bare
    else if |rest| < HeaderOf(rest) then CutHeader
    else Waiting
  }

  /** What reading all frames first and playing them gives for a call. */
  ghost predicate ReadThenReact(s: Session, b: Bytes, fs: seq<Frame>, rest: Bytes, o: Outcome)
    requires o.consumed <= |b|
    requires forall f :: f in fs ==> Valid(f)
  {
    var p := Play(s, fs);
    && o.session == p.session
    && b[..o.consumed] == SerializeAll(fs[..p.used])
    && (p.closed ==> o.status == Closed && o.events == p.events)
    && (!p.closed ==>
          && b[o.consumed..] == rest
          && o.status == (match EndingOf(rest) case Waiting => Open case Bare => Closed case CutHeader => Threw)
          && o.events == p.events + if EndingOf(rest).Bare? then [Unmasked()] else [])
  }

  lemma ReadThenReactStep(s: Session, f: Frame, tail: Bytes, fs: seq<Frame>, rest: Bytes, o: Outcome)
    requires Valid(f) && forall g :: g in fs ==> Valid(g)
    requires o.consumed <= |tail| && !React(s, f).closed
    requires ReadThenReact(React(s, f).session, tail, fs, rest, o)
    ensures var r, n := React(s, f), |Serialize(f)|;
            ReadThenReact(s, Serialize(f) + tail, [f] + fs, rest,
                          Outcome(o.session, r.events + o.events, n + o.consumed, o.status))
  {
    hide React, Play, SerializeAll, Serialize, EndingOf, Valid;
    var r, a := React(s, f), Serialize(f);
    var p, b := Play(r.session, fs), a + tail;
    PlayStep(s, f, fs);
    TakeStep(f, fs, p.used);
    assert b[..|a| + o.consumed] == a + tail[..o.consumed];
    assert b[|a| + o.consumed..] == tail[o.consumed..];
  }

  lemma SerializeFirst(fs: seq<Frame>)
    requires fs != [] && Valid(fs[0])
    ensures SerializeAll(fs[..1]) == Serialize(fs[0])
  {
    hide Serialize, Valid;
    assert fs[..1] == [fs[0]];
    assert SerializeAll([fs[0]]) == Serialize(fs[0]) + SerializeAll([]);
  }

  lemma PlayStep(s: Session, f: Frame, fs: seq<Frame>)
    requires !React(s, f).closed
    ensures var r := React(s, f);
            var p := Play(r.session, fs);
            Play(s, [f] + fs) == Playback(p.session, r.events + p.events, 1 + p.used, p.closed)
  {
    assert ([f] + fs)[1..] == fs;
  }

  lemma TakeStep(f: Frame, fs: seq<Frame>, n: nat)
    requires n <= |fs| && Valid(f) && forall g :: g in fs ==> Valid(g)
    ensures SerializeAll(([f] + fs)[..1 + n]) == Serialize(f) + SerializeAll(fs[..n])
  {
    var used := ([f] + fs)[..1 + n];
    assert used[0] == f && used[1..] == fs[..n];
  }

  lemma HasFrameReaches(b: Bytes)
    requires HasFrame(b, true)
    ensures |b| >= 6 && b[1] >= 128 && |b| >= HeaderOf(b)
  {
  }

  lemma FeedFrame(s: Session, b: Bytes)
    requires HasFrame(b, true)
    ensures var n, r := FrameSize(b, true), React(s, FirstFrame(b, true));
            Feed(s, b) ==
            if r.closed then Outcome(r.session, r.events, n, Closed)
            else
              var o := Feed(r.session, b[n..]);
              Outcome(o.session, r.events + o.events, n + o.consumed, o.status)
  {
    hide FirstFrame, FrameSize, React;
    HasFrameReaches(b);
  }

  lemma FeedRest(s: Session, b: Bytes)
    requires !HasFrame(b, true)
    ensures ReadThenReact(s, b, [], b, Feed(s, b))
  {
    hide FirstFrame, FrameSize, React;
  }

  lemma FeedClosing(s: Session, b: Bytes, fs: seq<Frame>, rest: Bytes, o: Outcome)
    requires fs != [] && forall f :: f in fs ==> Valid(f)
    requires o.consumed <= |b| && b[..o.consumed] == Serialize(fs[0])
    requires var r := React(s, fs[0]); r.closed && o == Outcome(r.session, r.events, o.consumed, Closed)
    ensures ReadThenReact(s, b, fs, rest, o)
  {
    hide Serialize, React, Valid;
    SerializeFirst(fs);
  }

  /**
   The parser handles exactly the complete frames of the buffer, up to one that closes; the count it
   reports is their total size, and what it leaves holds no complete frame.
   */
  lemma {:induction false} FeedIsReadThenReact(s: Session, b: Bytes)
    ensures var (fs, rest) := ReadAll(b, true);
            && !HasFrame(rest, true)
            && (forall f :: f in fs ==> Valid(f))
            && ReadThenReact(s, b, fs, rest, Feed(s, b))
    decreases |b|
  {
    hide Serialize, FirstFrame, FrameSize, React, Valid, HasFrame, Feed, ReadThenReact, SerializeAll;
    var (fs, rest) := ReadAll(b, true);
    ReadAllConserves(b, true);
    if HasFrame(b, true) {
      var n, f := FrameSize(b, true), FirstFrame(b, true);
      SerializeRead(b, true);
      FeedFrame(s, b);
      var r := React(s, f);
      assert fs[0] == f;
      if r.closed {
        FeedClosing(s, b, fs, rest, Feed(s, b));
      } else {
        FeedIsReadThenReact(r.session, b[n..]);
        ReadThenReactStep(s, f, b[n..], ReadAll(b[n..], true).0, rest, Feed(r.session, b[n..]));
        assert b == b[..n] + b[n..];
      }
    } else {
      FeedRest(s, b);
    }
  }

  /** Why a frame closes the connection: a final close frame, or an unfinished data frame while bytes are gathered. */
  predicate ClosesWith(s: Session, f: Frame, code: nat) {
    (code == NORMAL && f.fin && f.opcode == CLOSE) ||
    (code == PROTOCOL_ERROR && !f.fin && f.opcode in {TEXT, BINARY} && s.frag != [])
  }

  predicate EndsInClosing(events: seq<Event>) {
    events != [] && events[|events| - 1].Closing?
  }

  ghost predicate NoClosing(events: seq<Event>) {
    forall e :: e in events ==> !e.Closing?
  }

  /** The last call, and no other, is onClose, with its one close frame, if the call closed; none is otherwise. */
  ghost predicate ToldOnce(events: seq<Event>, closed: bool) {
    && (closed <==> EndsInClosing(events))
    && NoClosing(if closed then events[..|events| - 1] else events)
    && |CloseFrames(events)| == if closed then 1 else 0
  }

  /** onClose is told exactly once, as the last call, and exactly by the calls that drop the protocol. */
  lemma {:induction false} ClosesOnce(s: Session, b: Bytes)
    ensures ToldOnce(Feed(s, b).events, Feed(s, b).status == Closed)
    decreases |b|
  {
    hide FirstFrame, FrameSize, HeaderOf, React, ToldOnce;
    if HasFrame(b, true) {
      HasFrameReaches(b);
      var n, r := FrameSize(b, true), React(s, FirstFrame(b, true));
      ReactCloses(s, FirstFrame(b, true));
      if !r.closed {
        ClosesOnce(r.session, b[n..]);
        ToldAfter(r.events, Feed(r.session, b[n..]).events, Feed(r.session, b[n..]).status == Closed);
      }
    } else {
      NoFrameTold(s, b);
    }
  }

  lemma NoFrameTold(s: Session, b: Bytes)
    requires !HasFrame(b, true)
    ensures ToldOnce(Feed(s, b).events, Feed(s, b).status == Closed)
  {
    hide HasFrame, CloseFrame;
    OneClosing(Unmasked());
  }

  lemma ToldAfter(a: seq<Event>, b: seq<Event>, closed: bool)
    requires ToldOnce(a, false) && ToldOnce(b, closed)
    ensures ToldOnce(a + b, closed)
  {
    hide CloseFrames;
    FramesAppend(a, b);
    if b == [] {
      assert a + b == a;
    } else {
      assert (a + b)[..|a + b| - 1] == a + b[..|b| - 1];
    }
  }

  /** A frame closes exactly for one of the two reasons, and says which. */
  lemma ReactCloses(s: Session, f: Frame)
    ensures var r := React(s, f);
            && (r.closed <==> exists code :: ClosesWith(s, f, code))
            && (r.closed ==> |r.events| == 1 && r.events[0].Closing? && ClosesWith(s, f, r.events[0].code))
            && ToldOnce(r.events, r.closed)
  {
    hide CloseFrame;
    var r := React(s, f);
    if r.closed {
      OneClosing(r.events[0]);
      assert ClosesWith(s, f, r.events[0].code);
    } else {
      assert |r.events| <= 1 && NoClosing(r.events);
      assert r.events != [] ==> r.events[1..] == [];
      assert CloseFrames(r.events) == [];
      assert !EndsInClosing(r.events);
    }
  }

  lemma OneClosing(e: Event)
    requires e in {Unmasked(), Unterminated(), Goodbye()}
    ensures |CloseFrames([e])| == 1
  {
    hide CloseFrame;
    assert [e][1..] == [];
    assert CloseFrames([e]) == [CloseFrame(e.code, e.reason)] + CloseFrames([]);
  }

  lemma FramesAppend(a: seq<Event>, b: seq<Event>)
    requires CloseFrames(a) == []
    ensures CloseFrames(a + b) == CloseFrames(b)
  {
    hide CloseFrames;
    CloseFramesAppend(a, b);
    assert [] + CloseFrames(b) == CloseFrames(b);
  }

  /** The peer reads the code and the reason out of a close frame. */
  lemma CloseFrameReads(code: nat, reason: Bytes)
    requires code < 0x1_0000 && |reason| <= 125
    ensures var (fs, rest) := ReadAll(CloseFrame(code, reason), false);
            && rest == [] && |fs| == 1 && fs[0].fin && fs[0].opcode == CLOSE
            && |fs[0].payload| >= 2 && FromBigEndian(fs[0].payload[..2]) == code && fs[0].payload[2..] == reason
  {
    hide Serialize, HasFrame, FirstFrame;
    var payload := BigEndian(code, 2) + reason;
    var f := Outgoing(CLOSE, true, payload);
    assert Valid(f);
    assert [f][1..] == [] && SerializeAll([f]) == Serialize(f) + SerializeAll([]);
    assert SerializeAll([f]) == Serialize(f) && Serialize(f) + [] == Serialize(f);
    NoFrameInNothing();
    ReadAllSerialized([f], false, []);
    assert [f] + [] == [f];
    Pow256Values();
    BigEndianInverse(code, 2);
    assert payload[..2] == BigEndian(code, 2) && payload[2..] == reason;
  }

  lemma NoFrameInNothing()
    ensures !HasFrame([], false) && !HasFrame([], true)
  {
  }

  /** The reported count is an `int`: it is right exactly below 2^31. */
  lemma ReportedCount(n: nat)
    ensures ToInt32(n) == n <==> n < 0x8000_0000
  {
  }

  /** An `int` that went through all additions, wrapping at each, holds the wrapped total. */
  predicate Counts(count: int, total: nat) {
    count == ToInt32(total)
  }

  lemma NothingCounted()
    ensures Counts(0, 0)
  {
  }

  method AddCount(count: int, n: nat, ghost total: nat) returns (r: int)
    requires Counts(count, total)
    ensures Counts(r, total + n)
  {
    r := ToInt32(count + n);
  }

  // ---- Frames sent ----

  function Outgoing(opcode: nat, fin: bool, payload: Bytes): (f: Frame) {
    Frame(fin, 0, opcode, Shortest(|payload|), None, payload)
  }

  /** The bytes of a sent frame; sizes are 64-bit numbers. */
  function Wire(opcode: nat, fin: bool, payload: Bytes): (r: Bytes)
    requires opcode < 16 && |payload| < 0x1_0000_0000_0000_0000
  {
    Serialize(Outgoing(opcode, fin, payload))
  }

  function CloseFrame(code: nat, reason: Bytes): (r: Bytes)
    requires |reason| <= 125
  {
    Wire(CLOSE, true, BigEndian(code, 2) + reason)
  }

  /** Section 5.5 of RFC 6455 allows control frames 125 bytes of payload: `close` keeps to it up to 123. */
  lemma CloseWithinControlLimit(code: nat, reason: Bytes)
    requires |reason| <= 125
    ensures Outgoing(CLOSE, true, BigEndian(code, 2) + reason).form == Len7 <==> |reason| <= 123
  {
  }

  /** The close frames that the events of a call put on the wire. */
  function CloseFrames(events: seq<Event>): (r: seq<Bytes>) {
    if events == [] then []
    else (if events[0].Closing? && |events[0].reason| <= 125 then [CloseFrame(events[0].code, events[0].reason)] else [])
         + CloseFrames(events[1..])
  }

  lemma {:induction false} CloseFramesAppend(a: seq<Event>, b: seq<Event>)
    ensures CloseFrames(a + b) == CloseFrames(a) + CloseFrames(b)
  {
    hide CloseFrame;
    if a == [] {
      assert a + b == b;
    } else {
      assert (a + b)[1..] == a[1..] + b;
      CloseFramesAppend(a[1..], b);
    }
  }

  /** The outcome of a call, given what it has done so far and the outcome for the bytes ahead. */
  ghost predicate Ahead(o: Outcome, events: seq<Event>, done: nat, rest: Outcome) {
    o == Outcome(rest.session, events + rest.events, done + rest.consumed, rest.status)
  }

  lemma Untouched(a: Outcome)
    ensures Ahead(a, [], 0, a) && CloseFrames([]) == []
  {
  }

  lemma AheadEnd(a: Outcome, events: seq<Event>, done: nat, b: Outcome)
    requires Ahead(a, events, done, b)
    ensures a == Outcome(b.session, events + b.events, done + b.consumed, b.status)
  {
  }

  lemma AheadTransitive(a: Outcome, events: seq<Event>, done: nat, b: Outcome, more: seq<Event>, n: nat, c: Outcome)
    requires Ahead(a, events, done, b) && Ahead(b, more, n, c)
    ensures Ahead(a, events + more, done + n, c)
  {
    Associative(events, more, c.events);
  }

  class Websocket {
    var fragBuffer: Bytes
    var curOpcode: nat
    // the calls made to the handler
    var handled: seq<Event>
    // the buffers passed to ConnectionHandler::write
    var written: seq<Bytes>

    constructor ()
      ensures Now() == Session([], CONTINUATION) && handled == [] && written == []
    {
      fragBuffer, curOpcode, handled, written := [], CONTINUATION, [], [];
    }

    function Now(): Session
      reads this
    {
      Session(fragBuffer, curOpcode)
    }

    method OnDataReceived(received: Bytes) returns (consumed: int, status: Status)
      modifies this
      ensures var o := Feed(old(Now()), received);
              && Now() == o.session
              && handled == old(handled) + o.events
              && written == old(written) + CloseFrames(o.events)
              && status == o.status
              && (status != Threw ==> Counts(consumed, o.consumed))
    {
      hide Feed, CloseFrames, Counts, Ahead;
      Untouched(Feed(Now(), received));
      var bv := received;
      consumed := 0;
      ghost var total: nat := 0;
      NothingCounted();
      ghost var events: seq<Event> := [];
      while true
        invariant total + |bv| == |received| && Counts(consumed, total)
        invariant handled == old(handled) + events && written == old(written) + CloseFrames(events)
        invariant Ahead(Feed(old(Now()), received), events, total, Feed(Now(), bv))
        decreases |bv|
      {
        ghost var ahead := Feed(Now(), bv);
        var n, end, more := OneFrame(bv);
        CloseFramesAppend(events, more);
        bv := bv[n..];
        consumed := AddCount(consumed, n, total);
        if end.Some? {
          AheadEnd(Feed(old(Now()), received), events, total, ahead);
          return consumed, end.value;
        }
        AheadTransitive(Feed(old(Now()), received), events, total, ahead, more, n, Feed(Now(), bv));
        events := events + more;
        total := total + n;
      }
    }

    /** One turn of the loop: how many bytes it used, whether it left the loop, what the handler saw. */
    method OneFrame(received: Bytes) returns (n: nat, end: Option<Status>, ghost events: seq<Event>)
      modifies this
      ensures n <= |received| && (end.None? ==> n > 0)
      ensures handled == old(handled) + events && written == old(written) + CloseFrames(events)
      ensures end.Some? ==> Feed(old(Now()), received) == Outcome(Now(), events, n, end.value)
      ensures end.None? ==> Ahead(Feed(old(Now()), received), events, n, Feed(Now(), received[n..]))
    {
      hide FirstFrame, Masked, React, CloseFrame;
      if |received| < 6 {
        return 0, Some(Open), [];
      }
      if received[1] < 128 {
        var _ := Close(PROTOCOL_ERROR, Ascii("received unmasked message"));
        return 0, Some(Closed), [Unmasked()];
      }
      var fin, opcode := received[0] >= 128, received[0] % 16;
      var header := TakeHeader(received);
      if header.None? {
        return 0, Some(Threw), [];
      }
      var (payloadLen, maskKey, curConsumed) := header.value;
      var bv := received[curConsumed..];
      if |bv| < payloadLen {
        return 0, Some(Open), [];
      }
      var payload := bv[..payloadLen];
      n := curConsumed + payloadLen;
      var unmasked := Unmask(payload, maskKey);
      FrameOfParts(received, payload, maskKey);
      ghost var f := FirstFrame(received, true);
      events := React(Now(), f).events;
      var stop := Handle(f, fin, opcode, unmasked);
      end := if stop then Some(Closed) else None;
    }

    /** The branches on `fin` and the opcode. */
    method Handle(ghost f: Frame, fin: bool, opcode: nat, unmasked: Bytes) returns (stop: bool)
      requires fin == f.fin && opcode == f.opcode && unmasked == f.payload
      modifies this
      ensures var r := React(old(Now()), f);
              && Now() == r.session && stop == r.closed
              && handled == old(handled) + r.events
              && written == old(written) + CloseFrames(r.events)
    {
      stop := false;
      if !fin {
        if opcode == TEXT || opcode == BINARY {
          if |fragBuffer| > 0 {
            var _ := Close(PROTOCOL_ERROR, Ascii("unterminated fragmented message"));
            return true;
          }
          curOpcode := opcode;
        }
        fragBuffer := fragBuffer + unmasked;
      } else if opcode == CONTINUATION {
        fragBuffer := fragBuffer + unmasked;
        if curOpcode == TEXT {
          handled := handled + [TextMessage(fragBuffer)];
        } else {
          handled := handled + [BinaryMessage(fragBuffer)];
        }
        fragBuffer := [];
      } else if opcode == TEXT {
        handled := handled + [TextMessage(unmasked)];
      } else if opcode == BINARY {
        handled := handled + [BinaryMessage(unmasked)];
      } else if opcode == CLOSE {
        var _ := Close(NORMAL, Ascii("thx goodbye"));
        return true;
      } else if opcode == PING {
        handled := handled + [Ping(unmasked)];
      } else if opcode == PONG {
        handled := handled + [Pong(unmasked)];
      }
    }

    /** Tells the handler and sends a close frame; a reason over 125 bytes throws before either. */
    method Close(code: nat, reason: Bytes) returns (ok: bool)
      modifies this`handled, this`written
      ensures ok <==> |reason| <= 125
      ensures handled == old(handled) + if ok then [Closing(code, reason)] else []
      ensures written == old(written) + if ok then CloseFrames([Closing(code, reason)]) else []
    {
      if |reason| > 125 {
        return false;
      }
      var payload: Bytes := [code / 256 % 256] + [code % 256];
      assert payload == BigEndian(code, 2);
      payload := payload + reason;
      handled := handled + [Closing(code, reason)];
      var frame := Send(payload, CLOSE, true);
      written := written + [frame];
      ok := true;
    }
  }

  /** `ping`: nothing is sent when the payload is over 125 bytes, else one short control frame. */
  method SendPing(message: Bytes) returns (r: Option<Bytes>)
    ensures r.None? <==> |message| > 125
    ensures r.Some? ==> r.value == Wire(PING, true, message) && |r.value| == 2 + |message|
  {
    if |message| > 125 {
      return None;
    }
    var frame := Send(message, PING, true);
    r := Some(frame);
  }

  method Send(message: Bytes, opcode: nat, fin: bool) returns (serialized: Bytes)
    requires opcode < 16 && |message| < 0x1_0000_0000_0000_0000
    ensures serialized == Wire(opcode, fin, message)
  {
    serialized := [opcode + if fin then 128 else 0];
    var pl := |message|;
    if pl <= 125 {
      serialized := serialized + [pl];
      assert BigEndian(pl, 0) == [];
    } else if pl <= 0xffff {
      serialized := serialized + [126];
      serialized := serialized + [pl / 256 % 256];
      serialized := serialized + [pl % 256];
      assert BigEndian(pl, 2) == [pl / 256 % 256, pl % 256];
    } else {
      serialized := serialized + [127];
      var field := WriteLength(pl);
      serialized := serialized + field;
    }
    serialized := serialized + message;
  }

  /** `n >> 8 * i`. */
  function ShiftRightBytes(n: nat, i: nat): (r: nat) {
    if i == 0 then n else ShiftRightBytes(n, i - 1) / 256
  }

  /** The eight shifted and truncated bytes of a 64-bit length. */
  method WriteLength(pl: nat) returns (field: Bytes)
    ensures field == BigEndian(pl, 8)
  {
    field := [];
    var i := 7;
    while i >= 0
      invariant -1 <= i <= 7
      invariant field == BigEndian(ShiftRightBytes(pl, i + 1), 7 - i)
    {
      field := field + [ShiftRightBytes(pl, i) % 256];
      i := i - 1;
    }
  }

  /** The eight bytes of a 64-bit length, shifted in one by one. */
  method ReadLength(field: Bytes) returns (n: nat)
    requires |field| == 8
    ensures n == FromBigEndian(field)
  {
    n := 0;
    for i := 0 to 8
      invariant n == FromBigEndian(field[..i])
    {
      var next := field[..i + 1];
      assert next[..i] == field[..i];
      n := 256 * n + field[i] as int;
    }
    assert field[..8] == field;
  }

  lemma FromTwo(b: Bytes)
    requires |b| == 2
    ensures FromBigEndian(b) == 256 * (b[0] as int) + b[1] as int
  {
    var first := b[..1];
    assert first[..0] == [];
    assert FromBigEndian(first) == b[0];
  }

  /** Length, mask key and size of the header of a masked frame; None is the out_of_range of a short view. */
  method TakeHeader(received: Bytes) returns (r: Option<(nat, Key, nat)>)
    requires |received| >= 6 && received[1] >= 128
    ensures r.None? <==> |received| < HeaderOf(received)
    ensures r.Some? ==> var h := HeaderOf(received);
                        r.value == (DeclaredLength(received), received[h - 4..h], h)
  {
    var bv := received;
    var payloadLen: nat := bv[1] % 128;
    bv := bv[2..];
    var curConsumed := 2;
    if payloadLen == 126 {
      FromTwo(received[2..4]);
      payloadLen := 256 * (bv[0] as int) + bv[1] as int;
      bv := bv[2..];
      curConsumed := curConsumed + 2;
    } else if payloadLen == 127 {
      if |bv| < 8 {
        return None;
      }
      payloadLen := ReadLength(bv[..8]);
      assert received[2..10] == bv[..8];
      bv := bv[8..];
      curConsumed := curConsumed + 8;
    }
    if |bv| < 4 {
      return None;
    }
    assert curConsumed == 2 + Extension(FormOf(received[1])) && bv == received[curConsumed..];
    var maskKey: Key := bv[..4];
    curConsumed := curConsumed + 4;
    assert payloadLen == DeclaredLength(received);
    assert maskKey == received[curConsumed - 4..curConsumed];
    r := Some((payloadLen, maskKey, curConsumed));
  }

  method Unmask(payload: Bytes, maskKey: Key) returns (r: Bytes)
    ensures r == Masked(payload, maskKey)
  {
    var unmasked := new byte[|payload|];
    for i := 0 to |payload|
      invariant forall j :: 0 <= j < i ==> unmasked[j] == Xor(payload[j], maskKey[j % 4])
    {
      unmasked[i] := Xor(payload[i], maskKey[i % 4]);
    }
    r := unmasked[..];
  }

  lemma FrameOfParts(b: Bytes, payload: Bytes, key: Key)
    requires |b| >= 6 && b[1] >= 128 && |b| >= HeaderOf(b) && HeaderOf(b) + DeclaredLength(b) <= |b|
    requires payload == b[HeaderOf(b)..][..DeclaredLength(b)] && key == b[HeaderOf(b) - 4..HeaderOf(b)]
    ensures HasFrame(b, true) && FrameSize(b, true) == HeaderOf(b) + DeclaredLength(b)
    ensures var f := FirstFrame(b, true);
            f.payload == Masked(payload, key) && (f.fin <==> b[0] >= 128) && f.opcode == b[0] % 16
  {
    assert payload == b[HeaderOf(b)..HeaderOf(b) + DeclaredLength(b)];
  }
}
