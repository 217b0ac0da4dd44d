/** The order of frames (section 5.4 of RFC 6455), and what the receiver makes of frames out of order. */
module WebsocketOrder {
  import opened Bytes
  import opened Frames
  import opened Websockets
  import opened WebsocketRuns

  /** The bytes gathered for a fragmented message that has not ended, None when there is none. */
  type Gathered = Option<Bytes>

  /**
   What the standard allows next: a control frame in one piece anywhere, a message or its first fragment only when no
   message is open, a continuation only when one is.
   */
  predicate InOrder(open: Gathered, f: Frame) {
    if f.opcode in {CLOSE, PING, PONG} then f.fin
    else if f.opcode in {TEXT, BINARY} then open.None?
    else f.opcode == CONTINUATION && open.Some?
  }

  function After(open: Gathered, f: Frame): (r: Gathered) {
    if f.opcode in {TEXT, BINARY} then if f.fin then None else Some(f.payload)
    else if f.opcode == CONTINUATION && open.Some? then if f.fin then None else Some(open.value + f.payload)
    else open
  }

  function AfterAll(open: Gathered, fs: seq<Frame>): (r: Gathered)
    decreases |fs|
  {
    if fs == [] then open else AfterAll(After(open, fs[0]), fs[1..])
  }

  /** An orderly list of data and control frames that does not end the connection. */
  predicate Orderly(open: Gathered, fs: seq<Frame>)
    decreases |fs|
  {
    fs == [] || (InOrder(open, fs[0]) && fs[0].opcode != CLOSE && Orderly(After(open, fs[0]), fs[1..]))
  }

  function GatheredBytes(open: Gathered): (r: Bytes) {
    if open.None? then [] else open.value
  }

  /** Frames in order are never refused, and the fragment buffer is what the open message has gathered. */
  lemma {:induction false} OrderlyIsPlayed(s: Session, open: Gathered, fs: seq<Frame>)
    requires s.frag == GatheredBytes(open) && Orderly(open, fs)
    ensures !Play(s, fs).closed
    ensures Play(s, fs).session.frag == GatheredBytes(AfterAll(open, fs))
    decreases |fs|
  {
    if fs != [] {
      OrderlyIsPlayed(React(s, fs[0]).session, After(open, fs[0]), fs[1..]);
    }
  }

  /** What the receiver does refuse. */
  predicate Refusable(open: Gathered, f: Frame) {
    !f.fin && f.opcode in {TEXT, BINARY} && GatheredBytes(open) != []
  }

  /**
   The first frame out of order, after any orderly list: it is refused, with 1002, if and only if it is an unfinished
   text or binary frame and the message that is open has gathered at least one byte. Every other one is accepted.
   */
  lemma OutOfOrderRefusedIff(s: Session, fs: seq<Frame>, f: Frame)
    requires s.frag == [] && Orderly(None, fs) && !InOrder(AfterAll(None, fs), f)
    ensures var before, all := Play(s, fs), Play(s, fs + [f]);
            && (all.closed <==> Refusable(AfterAll(None, fs), f))
            && (all.closed ==> all.events == before.events + [Unterminated()] && Unterminated().code == PROTOCOL_ERROR)
  {
    hide Play, Orderly, AfterAll;
    OrderlyIsPlayed(s, None, fs);
    PlayAppend(s, fs, [f]);
    PlayOne(Play(s, fs).session, f);
  }

  lemma PlayOne(s: Session, f: Frame)
    ensures var r, p := React(s, f), Play(s, [f]);
            p.session == r.session && p.events == r.events && p.closed == r.closed
  {
    hide React;
    assert [f][1..] == [];
    var r := React(s, f);
    assert Play(r.session, []).events == [] && r.events + [] == r.events;
  }

  // ---- Inputs ----

  /** A masked frame with the key zero. */
  function Sample(fin: bool, opcode: nat, payload: Bytes): (f: Frame)
    requires |payload| <= 125
  {
    Frame(fin, 0, opcode, Len7, Some([0, 0, 0, 0]), payload)
  }

  /** A second message is begun while the first, an empty fragment so far, is open: accepted. */
  lemma BegunInside(s: Session)
    requires s.frag == []
    ensures var fs, f := [Sample(false, TEXT, [])], Sample(false, BINARY, [7]);
            && Orderly(None, fs) && !InOrder(AfterAll(None, fs), f)
            && !Play(s, fs + [f]).closed && Play(s, fs + [f]).session == Session([7], BINARY)
  {
    var fs, f := [Sample(false, TEXT, [])], Sample(false, BINARY, [7]);
    InputOrder(fs[0]);
    PlayOne(s, fs[0]);
    PlayAppend(s, fs, [f]);
    PlayOne(Play(s, fs).session, f);
  }

  lemma InputOrder(f: Frame)
    ensures AfterAll(None, [f]) == After(None, f)
    ensures Orderly(None, [f]) <==> InOrder(None, f) && f.opcode != CLOSE
  {
    assert [f][1..] == [];
  }

  /** A whole message inside an unfinished one: delivered, ahead of the one it interrupts. */
  lemma DeliveredInside(s: Session)
    requires s.frag == []
    ensures var fs, f := [Sample(false, TEXT, [1])], Sample(true, TEXT, [2]);
            && Orderly(None, fs) && !InOrder(AfterAll(None, fs), f)
            && Play(s, fs + [f]).events == [TextMessage([2])] && Play(s, fs + [f]).session == Session([1], TEXT)
  {
    var fs, f := [Sample(false, TEXT, [1])], Sample(true, TEXT, [2]);
    InputOrder(fs[0]);
    PlayOne(s, fs[0]);
    PlayAppend(s, fs, [f]);
    PlayOne(Play(s, fs).session, f);
  }

  /** A final continuation with nothing begun, on a new connection: delivered as a binary message. */
  lemma ContinuedFromNothing()
    ensures var s, f := Session([], CONTINUATION), Sample(true, CONTINUATION, [3]);
            !InOrder(None, f) && Play(s, [f]).events == [BinaryMessage([3])] && !Play(s, [f]).closed
  {
    var gathered: Bytes := [];
    assert gathered + [3] == [3];
    PlayOne(Session([], CONTINUATION), Sample(true, CONTINUATION, [3]));
  }
}
