/** Whole runs of the WebSocket receiver: the stream arrives in arbitrary reads. */
module WebsocketRuns {
  import opened Bytes
  import opened Frames
  import opened Websockets

  /** The receiving side of a connection: `inBuf`, the protocol's fields, everything its handler saw. */
  datatype Link = Link(session: Session, inBuf: Bytes, events: seq<Event>, status: Status)

  /** One read of `chunk`; once the protocol is dropped or an exception escaped nothing is read any more. */
  function Deliver(l: Link, chunk: Bytes): (r: Link) {
    if l.status != Open then l
    else
      var view := l.inBuf + chunk;
      var o := Feed(l.session, view);
      Link(o.session, if o.status == Threw then view else view[o.consumed..], l.events + o.events, o.status)
  }

  function DeliverAll(l: Link, chunks: seq<Bytes>): (r: Link)
    decreases |chunks|
  {
    if chunks == [] then l else DeliverAll(Deliver(l, chunks[0]), chunks[1..])
  }

  function Start(s: Session): Link {
    Link(s, [], [], Open)
  }

  /** What one call on the whole stream leaves behind. */
  function Whole(s: Session, stream: Bytes): (r: Link) {
    Deliver(Start(s), stream)
  }

  // ---- Splitting one call in two ----

  /** Feeding `b` after `a` was fed and its rest was kept. */
  function Resumed(s: Session, a: Bytes, b: Bytes): (o: Outcome) {
    var first := Feed(s, a);
    if first.status != Open then first
    else
      var second := Feed(first.session, a[first.consumed..] + b);
      Outcome(second.session, first.events + second.events, first.consumed + second.consumed, second.status)
  }

  lemma FeedNoFrame(s: Session, a: Bytes, b: Bytes)
    requires !HasFrame(a, true)
    ensures Feed(s, a).status == Open ==> Feed(s, a) == Outcome(s, [], 0, Open)
    ensures Feed(s, a).status == Closed ==> Feed(s, a + b) == Feed(s, a)
  {
    hide FirstFrame, FrameSize, React;
  }

  /** One call on a + b does what a call on a, followed by one on its rest and b, does. */
  lemma {:induction false} FeedSplits(s: Session, a: Bytes, b: Bytes)
    requires Feed(s, a).status != Threw
    ensures Feed(s, a + b) == Resumed(s, a, b)
    decreases |a|
  {
    hide Feed, HasFrame, FirstFrame, FrameSize, React;
    if HasFrame(a, true) {
      FeedFrame(s, a);
      FrameStays(a, b, true);
      FeedFrame(s, a + b);
      var n, r := FrameSize(a, true), React(s, FirstFrame(a, true));
      if !r.closed {
        assert (a + b)[n..] == a[n..] + b;
        FeedSplits(r.session, a[n..], b);
        ResumedLater(s, a, b, n, r);
      }
    } else {
      FeedNoFrame(s, a, b);
      assert a[0..] == a;
      if Feed(s, a).status == Open {
        var second := Feed(s, a + b);
        assert [] + second.events == second.events;
      }
    }
  }

  lemma ResumedLater(s: Session, a: Bytes, b: Bytes, n: nat, r: Reaction)
    requires n <= |a|
    requires var o := Feed(r.session, a[n..]);
             Feed(s, a) == Outcome(o.session, r.events + o.events, n + o.consumed, o.status)
    ensures var o := Resumed(r.session, a[n..], b);
            Resumed(s, a, b) == Outcome(o.session, r.events + o.events, n + o.consumed, o.status)
  {
    hide Feed;
    var first := Feed(r.session, a[n..]);
    assert a[n..][first.consumed..] == a[n + first.consumed..];
    var second := Feed(first.session, a[n..][first.consumed..] + b);
    Associative(r.events, first.events, second.events);
  }

  // ---- Where a stream may be cut ----

  /** The bytes end inside the extended header of a frame that the parser gets to. */
  predicate EndsInExtendedHeader(s: Session, stream: Bytes) {
    var (fs, rest) := ReadAll(stream, true);
    !Play(s, fs).closed && EndingOf(rest) == CutHeader
  }

  lemma ThrowsExactlyThere(s: Session, stream: Bytes)
    ensures Feed(s, stream).status == Threw <==> EndsInExtendedHeader(s, stream)
  {
    FeedIsReadThenReact(s, stream);
  }

  /** `chunks[..k]` put together. */
  function Received(chunks: seq<Bytes>, k: nat): (r: Bytes)
    requires k <= |chunks|
  {
    Concat(chunks[..k])
  }

  /** No read ends inside the extended header of a frame. */
  ghost predicate CutsAreSafe(s: Session, chunks: seq<Bytes>) {
    forall k :: 0 <= k <= |chunks| ==> !EndsInExtendedHeader(s, Received(chunks, k))
  }

  /** The run so far, given that it saw no exception, is what one call on all bytes read gives. */
  ghost predicate LikeWhole(s: Session, stream: Bytes, l: Link) {
    var w := Whole(s, stream);
    l.session == w.session && l.events == w.events && l.status == w.status
    && (l.status == Open ==> l.inBuf == w.inBuf)
  }

  /** One more read keeps the run like one call on the longer stream. */
  lemma DeliverLikeWhole(s: Session, stream: Bytes, l: Link, chunk: Bytes)
    requires LikeWhole(s, stream, l) && l.status != Threw
    ensures LikeWhole(s, stream + chunk, Deliver(l, chunk))
  {
    hide Feed;
    assert [] + stream == stream && [] + (stream + chunk) == stream + chunk;
    FeedSplits(s, stream, chunk);
    var first := Feed(s, stream);
    assert Whole(s, stream).events == first.events;
    if l.status == Open {
      var view := stream[first.consumed..] + chunk;
      var second := Feed(first.session, view);
      assert l.inBuf + chunk == view;
      assert (stream + chunk)[first.consumed..] == view;
      assert (stream + chunk)[first.consumed + second.consumed..] == view[second.consumed..];
    }
  }

  lemma {:induction false} DeliverLast(l: Link, chunks: seq<Bytes>)
    requires chunks != []
    ensures DeliverAll(l, chunks) == Deliver(DeliverAll(l, chunks[..|chunks| - 1]), chunks[|chunks| - 1])
    decreases |chunks|
  {
    hide Deliver;
    if |chunks| > 1 {
      DeliverLast(Deliver(l, chunks[0]), chunks[1..]);
      var front := chunks[..|chunks| - 1];
      assert front[1..] == chunks[1..][..|chunks| - 2];
    } else {
      assert chunks[1..] == [];
    }
  }

  lemma ReceivedNext(chunks: seq<Bytes>, k: nat)
    requires k < |chunks|
    ensures Received(chunks, k + 1) == Received(chunks, k) + chunks[k]
  {
    assert chunks[..k + 1] == chunks[..k] + [chunks[k]];
    ConcatAppend(chunks[..k], [chunks[k]]);
    ConcatOne(chunks[k]);
  }

  /** By induction over the reads: safe cuts keep every prefix of the run like one call. */
  lemma {:induction false} SafeRun(s: Session, chunks: seq<Bytes>, k: nat)
    requires k <= |chunks|
    requires forall j :: 0 <= j <= k ==> !EndsInExtendedHeader(s, Received(chunks, j))
    ensures LikeWhole(s, Received(chunks, k), DeliverAll(Start(s), chunks[..k]))
    ensures DeliverAll(Start(s), chunks[..k]).status != Threw
  {
    hide Feed, EndsInExtendedHeader;
    if k == 0 {
      EmptyRun(s);
      assert chunks[..0] == [];
    } else {
      SafeRun(s, chunks, k - 1);
      ReceivedNext(chunks, k - 1);
      DeliverLast(Start(s), chunks[..k]);
      assert chunks[..k][..k - 1] == chunks[..k - 1];
      DeliverLikeWhole(s, Received(chunks, k - 1), DeliverAll(Start(s), chunks[..k - 1]), chunks[k - 1]);
      WholeThrows(s, Received(chunks, k));
    }
  }

  lemma EmptyRun(s: Session)
    ensures LikeWhole(s, [], Start(s))
  {
    assert Feed(s, []) == Outcome(s, [], 0, Open);
  }

  lemma WholeThrows(s: Session, stream: Bytes)
    ensures Whole(s, stream).status == Threw <==> EndsInExtendedHeader(s, stream)
  {
    hide Feed;
    assert [] + stream == stream;
    ThrowsExactlyThere(s, stream);
  }

  lemma {:induction false} ThrewStays(l: Link, chunks: seq<Bytes>)
    requires l.status != Open
    ensures DeliverAll(l, chunks) == l
  {
    if chunks != [] {
      ThrewStays(l, chunks[1..]);
    }
  }

  lemma {:induction false} DeliverAllSplits(l: Link, chunks: seq<Bytes>, k: nat)
    requires k <= |chunks|
    ensures DeliverAll(l, chunks) == DeliverAll(DeliverAll(l, chunks[..k]), chunks[k..])
    decreases k
  {
    hide Deliver;
    if k > 0 {
      DeliverAllSplits(Deliver(l, chunks[0]), chunks[1..], k - 1);
      assert chunks[..k][1..] == chunks[1..][..k - 1];
      assert chunks[k..] == chunks[1..][k - 1..];
    } else {
      assert chunks[..0] == [] && chunks[0..] == chunks;
    }
  }

  /** An unsafe cut ends the run with an exception. */
  lemma UnsafeRun(s: Session, chunks: seq<Bytes>, k: nat)
    requires k <= |chunks| && EndsInExtendedHeader(s, Received(chunks, k))
    requires forall j :: 0 <= j < k ==> !EndsInExtendedHeader(s, Received(chunks, j))
    ensures DeliverAll(Start(s), chunks).status == Threw
  {
    hide Feed, EndsInExtendedHeader, DeliverAll, LikeWhole, Deliver;
    NothingReceived(s);
    assert chunks[..0] == [];
    SafeRun(s, chunks, k - 1);
    ReceivedNext(chunks, k - 1);
    DeliverLast(Start(s), chunks[..k]);
    assert chunks[..k][..k - 1] == chunks[..k - 1];
    DeliverLikeWhole(s, Received(chunks, k - 1), DeliverAll(Start(s), chunks[..k - 1]), chunks[k - 1]);
    WholeThrows(s, Received(chunks, k));
    LikeWholeStatus(s, Received(chunks, k), DeliverAll(Start(s), chunks[..k]));
    DeliverAllSplits(Start(s), chunks, k);
    ThrewStays(DeliverAll(Start(s), chunks[..k]), chunks[k..]);
  }

  lemma LikeWholeStatus(s: Session, stream: Bytes, l: Link)
    requires LikeWhole(s, stream, l)
    ensures l.status == Whole(s, stream).status
  {
  }

  lemma NothingReceived(s: Session)
    ensures !EndsInExtendedHeader(s, [])
  {
  }

  lemma {:induction false} FirstUnsafe(s: Session, chunks: seq<Bytes>, n: nat) returns (k: nat)
    requires n <= |chunks| && EndsInExtendedHeader(s, Received(chunks, n))
    ensures k <= n && EndsInExtendedHeader(s, Received(chunks, k))
    ensures forall j :: 0 <= j < k ==> !EndsInExtendedHeader(s, Received(chunks, j))
  {
    k := 0;
    while !EndsInExtendedHeader(s, Received(chunks, k))
      invariant k <= n
      invariant forall j :: 0 <= j < k ==> !EndsInExtendedHeader(s, Received(chunks, j))
      decreases n - k
    {
      k := k + 1;
    }
  }

  /**
   Chunk independence, as the code stands: a run throws exactly when some read ends inside an extended
   header; every other run shows the handler the same calls, ends the same way and leaves the same state
   as one call on the whole stream, however the stream was cut.
   */
  lemma ChunkIndependence(s: Session, chunks: seq<Bytes>)
    ensures DeliverAll(Start(s), chunks).status != Threw <==> CutsAreSafe(s, chunks)
    ensures CutsAreSafe(s, chunks) ==> LikeWhole(s, Concat(chunks), DeliverAll(Start(s), chunks))
  {
    hide Feed, EndsInExtendedHeader, DeliverAll;
    assert chunks[..|chunks|] == chunks;
    if CutsAreSafe(s, chunks) {
      SafeRun(s, chunks, |chunks|);
    } else {
      var n :| 0 <= n <= |chunks| && EndsInExtendedHeader(s, Received(chunks, n));
      var k := FirstUnsafe(s, chunks, n);
      UnsafeRun(s, chunks, k);
    }
  }

  /** For a stream that one call takes without an exception: cutting it makes no difference exactly when the cuts are safe. */
  lemma SameAsWholeIff(s: Session, chunks: seq<Bytes>)
    requires !EndsInExtendedHeader(s, Concat(chunks))
    ensures LikeWhole(s, Concat(chunks), DeliverAll(Start(s), chunks)) <==> CutsAreSafe(s, chunks)
  {
    hide Feed, EndsInExtendedHeader, DeliverAll;
    ChunkIndependence(s, chunks);
    WholeThrows(s, Concat(chunks));
  }

  /** Every cut inside the extended header of a frame, from its sixth byte on, makes the parser throw. */
  lemma CutHeaderThrows(s: Session, f: Frame, k: nat)
    requires Valid(f) && f.mask.Some? && f.form != Len7
    requires 6 <= k < HeaderSize(f.form, true)
    ensures DeliverAll(Start(s), [Serialize(f)[..k], Serialize(f)[k..]]).status == Threw
    ensures Whole(s, Serialize(f)).status != Threw
  {
    hide Serialize, Feed, FirstFrame, FrameSize;
    var w := Serialize(f);
    var a, b := w[..k], w[k..];
    assert w + [] == w && [] + a == a && [] + w == w;
    ReadHeader(f, []);
    ReadSerialized(f, []);
    CutFeed(s, a);
    ThrewStays(Deliver(Start(s), a), [b]);
    assert [a, b][1..] == [b];
    assert ReadAll(w, true).1 == ReadAll(w[|w|..], true).1;
    ThrowsExactlyThere(s, w);
  }

  lemma CutFeed(s: Session, a: Bytes)
    requires |a| >= 6 && a[1] >= 128 && |a| < HeaderOf(a)
    ensures Feed(s, a).status == Threw
  {
  }

  // ---- Streams without extended headers can be cut anywhere ----

  lemma {:induction false} ShortFramesNeverThrow(s: Session, fs: seq<Frame>, p: Bytes)
    requires forall f :: f in fs ==> Valid(f) && f.mask.Some? && f.form == Len7
    requires p <= SerializeAll(fs)
    ensures EndingOf(ReadAll(p, true).1) != CutHeader
    decreases |fs|
  {
    hide FirstFrame, Serialize, Valid;
    if fs == [] {
    } else if |p| >= |Serialize(fs[0])| {
      var n := |Serialize(fs[0])|;
      assert p[..n] == Serialize(fs[0]);
      assert p == Serialize(fs[0]) + p[n..];
      ReadSerialized(fs[0], p[n..]);
      assert SerializeAll(fs) == Serialize(fs[0]) + SerializeAll(fs[1..]);
      assert p[n..] <= SerializeAll(fs[1..]);
      ShortFramesNeverThrow(s, fs[1..], p[n..]);
    } else {
      var w := SerializeAll(fs);
      ReadHeader(fs[0], SerializeAll(fs[1..]));
      if |p| >= 2 {
        assert p[1] == w[1];
      }
    }
  }

  lemma {:induction false} ReceivedIsPrefix(chunks: seq<Bytes>, k: nat)
    requires k <= |chunks|
    ensures Received(chunks, k) <= Concat(chunks)
  {
    assert chunks == chunks[..k] + chunks[k..];
    ConcatAppend(chunks[..k], chunks[k..]);
  }

  /** A client whose frames all carry at most 125 bytes is understood the same way under every split. */
  lemma ShortFramesChunkIndependent(s: Session, fs: seq<Frame>, chunks: seq<Bytes>)
    requires forall f :: f in fs ==> Valid(f) && f.mask.Some? && f.form == Len7
    requires Concat(chunks) == SerializeAll(fs)
    ensures LikeWhole(s, SerializeAll(fs), DeliverAll(Start(s), chunks))
    ensures DeliverAll(Start(s), chunks).status != Threw
  {
    hide Feed, DeliverAll, ReadAll, Play, Valid, LikeWhole;
    forall k | 0 <= k <= |chunks|
      ensures !EndsInExtendedHeader(s, Received(chunks, k))
    {
      ReceivedIsPrefix(chunks, k);
      ShortFramesNeverThrow(s, fs, Received(chunks, k));
    }
    ChunkIndependence(s, chunks);
  }

  // ---- Reassembly (section 5.4 of RFC 6455) ----

  /** A ping or pong. */
  datatype Control = Control(ping: bool, key: Key, payload: Bytes)

  /** One fragment of a message, with the control frames that arrive before it. */
  datatype Piece = Piece(before: seq<Control>, key: Key, form: Form, payload: Bytes)

  /** A message as its sender cuts it: one piece or more. */
  datatype Message = Message(text: bool, first: Piece, more: seq<Piece>)

  ghost predicate ValidControl(c: Control) {
    |c.payload| <= 125
  }

  ghost predicate ValidPiece(p: Piece) {
    Fits(p.form, |p.payload|) && forall c :: c in p.before ==> ValidControl(c)
  }

  ghost predicate ValidMessage(m: Message) {
    ValidPiece(m.first) && forall p :: p in m.more ==> ValidPiece(p)
  }

  function ControlFrame(c: Control): Frame {
    Frame(true, 0, if c.ping then PING else PONG, Len7, Some(c.key), c.payload)
  }

  function ControlFrames(cs: seq<Control>): (r: seq<Frame>) {
    if cs == [] then [] else [ControlFrame(cs[0])] + ControlFrames(cs[1..])
  }

  function ControlEvents(cs: seq<Control>): (r: seq<Event>) {
    if cs == [] then []
    else [if cs[0].ping then Ping(cs[0].payload) else Pong(cs[0].payload)] + ControlEvents(cs[1..])
  }

  /** The frames of a piece: its control frames, then the fragment, final or not. */
  function PieceFrames(p: Piece, fin: bool, opcode: nat): (r: seq<Frame>) {
    ControlFrames(p.before) + [Frame(fin, 0, opcode, p.form, Some(p.key), p.payload)]
  }

  function MoreFrames(ps: seq<Piece>): (r: seq<Frame>) {
    if ps == [] then [] else PieceFrames(ps[0], |ps| == 1, CONTINUATION) + MoreFrames(ps[1..])
  }

  function MessageFrames(m: Message): (r: seq<Frame>) {
    PieceFrames(m.first, m.more == [], if m.text then TEXT else BINARY) + MoreFrames(m.more)
  }

  function StreamFrames(ms: seq<Message>): (r: seq<Frame>) {
    if ms == [] then [] else MessageFrames(ms[0]) + StreamFrames(ms[1..])
  }

  /** The message is the payloads of its pieces put together. */
  function Payload(ps: seq<Piece>): (r: Bytes) {
    if ps == [] then [] else ps[0].payload + Payload(ps[1..])
  }

  function PieceEvents(ps: seq<Piece>): (r: seq<Event>) {
    if ps == [] then [] else ControlEvents(ps[0].before) + PieceEvents(ps[1..])
  }

  /** What the handler must see: the control payloads at their place, then the message with its type. */
  function Expected(ms: seq<Message>): (r: seq<Event>) {
    if ms == [] then []
    else
      var pieces := [ms[0].first] + ms[0].more;
      var data := Payload(pieces);
      PieceEvents(pieces) + [if ms[0].text then TextMessage(data) else BinaryMessage(data)] + Expected(ms[1..])
  }

  lemma {:induction false} PlayAppend(s: Session, a: seq<Frame>, b: seq<Frame>)
    requires !Play(s, a).closed
    ensures var p, q := Play(s, a), Play(Play(s, a).session, b);
            Play(s, a + b) == Playback(q.session, p.events + q.events, p.used + q.used, q.closed)
    decreases |a|
  {
    hide React;
    if a == [] {
      assert a + b == b;
    } else {
      var r := React(s, a[0]);
      assert (a + b)[1..] == a[1..] + b;
      PlayAppend(r.session, a[1..], b);
      var p, q := Play(r.session, a[1..]), Play(Play(r.session, a[1..]).session, b);
      Associative(r.events, p.events, q.events);
    }
  }

  // ---- Any frames at all: payload is neither lost, doubled nor changed ----

  /** The payload of a frame that carries any: an unfinished one of every kind, or a finished one of a known kind. */
  function Carried(f: Frame): (r: Bytes) {
    if !f.fin || f.opcode in {CONTINUATION, TEXT, BINARY, PING, PONG} then f.payload else []
  }

  /** A frame whose payload goes to the handler by itself, past the fragment buffer. */
  predicate Direct(f: Frame) {
    f.fin && f.opcode != CONTINUATION
  }

  /** The payloads that go through the fragment buffer, and those that do not, each in the order of the stream. */
  function CarriedBy(fs: seq<Frame>, direct: bool): (r: Bytes) {
    if fs == [] then [] else (if Direct(fs[0]) == direct then Carried(fs[0]) else []) + CarriedBy(fs[1..], direct)
  }

  function DataOf(events: seq<Event>): (r: Bytes) {
    if events == [] then [] else (if events[0].Closing? then [] else events[0].data) + DataOf(events[1..])
  }

  /** What the handler is given for the frames of one kind, in order. */
  function DeliveredBy(s: Session, fs: seq<Frame>, direct: bool): (r: Bytes)
    decreases |fs|
  {
    if fs == [] then []
    else
      var r := React(s, fs[0]);
      (if Direct(fs[0]) == direct then DataOf(r.events) else []) + if r.closed then [] else DeliveredBy(r.session, fs[1..], direct)
  }

  lemma DataOfOne(events: seq<Event>)
    requires |events| == 1
    ensures DataOf(events) == if events[0].Closing? then [] else events[0].data
  {
    assert events[1..] == [];
  }

  lemma ReactConserves(s: Session, f: Frame)
    requires !React(s, f).closed
    ensures var r := React(s, f);
            if Direct(f) then DataOf(r.events) == Carried(f) && r.session.frag == s.frag
            else DataOf(r.events) + r.session.frag == s.frag + Carried(f)
  {
    var r := React(s, f);
    if r.events != [] {
      DataOfOne(r.events);
    }
  }

  lemma {:induction false} DirectConserved(s: Session, fs: seq<Frame>)
    requires !Play(s, fs).closed
    ensures DeliveredBy(s, fs, true) == CarriedBy(fs, true)
    decreases |fs|
  {
    hide React, Carried, Direct;
    if fs != [] {
      ReactConserves(s, fs[0]);
      DirectConserved(React(s, fs[0]).session, fs[1..]);
    }
  }

  lemma {:induction false} GatheredConserved(s: Session, fs: seq<Frame>)
    requires !Play(s, fs).closed
    ensures DeliveredBy(s, fs, false) + Play(s, fs).session.frag == s.frag + CarriedBy(fs, false)
    decreases |fs|
  {
    hide React, Carried, Direct;
    if fs == [] {
      assert s.frag + [] == s.frag == [] + s.frag;
    } else {
      var f, r, more := fs[0], React(s, fs[0]), CarriedBy(fs[1..], false);
      ReactConserves(s, f);
      GatheredConserved(r.session, fs[1..]);
      var d, y, left := DataOf(r.events), DeliveredBy(r.session, fs[1..], false), Play(r.session, fs[1..]).session.frag;
      if Direct(f) {
        assert [] + more == more && [] + y == y;
      } else {
        Associative(d, y, left);
        Associative(d, r.session.frag, more);
        Associative(s.frag, Carried(f), more);
      }
    }
  }

  /** Nothing is delivered besides. */
  lemma {:induction false} DeliveredInAll(s: Session, fs: seq<Frame>)
    ensures multiset(DataOf(Play(s, fs).events)) == multiset(DeliveredBy(s, fs, true)) + multiset(DeliveredBy(s, fs, false))
    decreases |fs|
  {
    hide React, Direct, DataOf;
    if fs == [] {
      NoData();
    } else {
      var r := React(s, fs[0]);
      var d := DataOf(r.events);
      if r.closed {
        assert Play(s, fs).events == r.events;
        Shared(d, [], [], []);
      } else {
        DeliveredInAll(r.session, fs[1..]);
        var x, y := DeliveredBy(r.session, fs[1..], true), DeliveredBy(r.session, fs[1..], false);
        DataOfAppend(r.events, Play(r.session, fs[1..]).events);
        Shared(d, DataOf(Play(r.session, fs[1..]).events), x, y);
      }
    }
  }

  /**
   For every list of frames, well-ordered or not, that does not close. What goes past the fragment buffer reaches the
   handler byte for byte and in order; so does what goes through it, the rest of which is still there.
   */
  lemma PayloadConserved(s: Session, fs: seq<Frame>)
    requires !Play(s, fs).closed
    ensures DeliveredBy(s, fs, true) == CarriedBy(fs, true)
    ensures DeliveredBy(s, fs, false) + Play(s, fs).session.frag == s.frag + CarriedBy(fs, false)
    ensures multiset(DataOf(Play(s, fs).events)) == multiset(DeliveredBy(s, fs, true)) + multiset(DeliveredBy(s, fs, false))
  {
    hide Play, DeliveredBy, CarriedBy;
    DirectConserved(s, fs);
    GatheredConserved(s, fs);
    DeliveredInAll(s, fs);
  }

  lemma NoData()
    ensures DataOf([]) == []
  {
  }

  /** More in front of the whole is more in front of either part. */
  lemma Shared(d: Bytes, all: Bytes, x: Bytes, y: Bytes)
    requires multiset(all) == multiset(x) + multiset(y)
    ensures multiset(d + all) == multiset(d + x) + multiset([] + y) == multiset([] + x) + multiset(d + y)
    ensures d + [] == d && [] + x == x && [] + y == y
  {
    assert multiset(d + all) == multiset(d) + multiset(all);
    assert multiset(d + x) == multiset(d) + multiset(x);
    assert multiset(d + y) == multiset(d) + multiset(y);
    assert [] + x == x && [] + y == y;
  }

  lemma {:induction false} DataOfAppend(a: seq<Event>, b: seq<Event>)
    ensures DataOf(a + b) == DataOf(a) + DataOf(b)
  {
    if a == [] {
      assert a + b == b;
    } else {
      assert (a + b)[1..] == a[1..] + b;
      DataOfAppend(a[1..], b);
      var d := if a[0].Closing? then [] else a[0].data;
      Associative(d, DataOf(a[1..]), DataOf(b));
    }
  }

  lemma {:induction false} PlayControls(s: Session, cs: seq<Control>)
    ensures var p := Play(s, ControlFrames(cs));
            p.session == s && p.events == ControlEvents(cs) && !p.closed
  {
    if cs != [] {
      var fs := ControlFrames(cs);
      assert fs[1..] == ControlFrames(cs[1..]);
      PlayControls(s, cs[1..]);
    }
  }

  lemma PlayPiece(s: Session, p: Piece, fin: bool, opcode: nat)
    requires var r := React(s, Frame(fin, 0, opcode, p.form, Some(p.key), p.payload)); !r.closed
    ensures var r, q := React(s, Frame(fin, 0, opcode, p.form, Some(p.key), p.payload)), Play(s, PieceFrames(p, fin, opcode));
            q.session == r.session && q.events == ControlEvents(p.before) + r.events && !q.closed
  {
    var f := Frame(fin, 0, opcode, p.form, Some(p.key), p.payload);
    PlayControls(s, p.before);
    PlayAppend(s, ControlFrames(p.before), [f]);
    assert Play(s, [f]).events == React(s, f).events + [];
  }

  /** The continuation pieces of a message begun with `s.frag`. */
  lemma {:induction false} PlayMore(s: Session, ps: seq<Piece>)
    requires ps != []
    ensures var q, data := Play(s, MoreFrames(ps)), s.frag + Payload(ps);
            && q.session == s.(frag := []) && !q.closed
            && q.events == PieceEvents(ps) + [if s.opcode == TEXT then TextMessage(data) else BinaryMessage(data)]
    decreases |ps|
  {
    hide Play, PieceFrames, ControlEvents;
    var p := ps[0];
    PlayPiece(s, p, |ps| == 1, CONTINUATION);
    if |ps| == 1 {
      assert MoreFrames(ps) == PieceFrames(p, true, CONTINUATION) + [];
      assert PieceFrames(p, true, CONTINUATION) + [] == PieceFrames(p, true, CONTINUATION);
      assert Payload(ps) == p.payload + [] == p.payload;
      assert PieceEvents(ps) == ControlEvents(p.before) + [] == ControlEvents(p.before);
    } else {
      var t := s.(frag := s.frag + p.payload);
      PlayMore(t, ps[1..]);
      PlayAppend(s, PieceFrames(p, false, CONTINUATION), MoreFrames(ps[1..]));
      Associative(s.frag, p.payload, Payload(ps[1..]));
      var last := [if s.opcode == TEXT then TextMessage(s.frag + Payload(ps)) else BinaryMessage(s.frag + Payload(ps))];
      assert ControlEvents(p.before) + [] == ControlEvents(p.before);
      Associative(ControlEvents(p.before), PieceEvents(ps[1..]), last);
    }
  }

  /** One whole message, however it is cut. */
  lemma PlayMessage(s: Session, m: Message)
    requires s.frag == []
    ensures var q := Play(s, MessageFrames(m));
            q.session.frag == [] && !q.closed && q.events == Expected([m])
  {
    hide Play, PieceFrames, ControlEvents, MoreFrames;
    var opcode := if m.text then TEXT else BINARY;
    var pieces := [m.first] + m.more;
    assert pieces[0] == m.first && pieces[1..] == m.more;
    var data := Payload(pieces);
    var last := [if m.text then TextMessage(data) else BinaryMessage(data)];
    assert Expected([m]) == PieceEvents(pieces) + last + [];
    PlayPiece(s, m.first, m.more == [], opcode);
    if m.more == [] {
      NoMoreFrames();
      assert MessageFrames(m) == PieceFrames(m.first, true, opcode);
      assert Payload(m.more) == [];
      assert data == m.first.payload;
      assert PieceEvents(pieces) == ControlEvents(m.first.before) + [] == ControlEvents(m.first.before);
    } else {
      var t := Session(m.first.payload, opcode);
      PlayMore(t, m.more);
      PlayAppend(s, PieceFrames(m.first, false, opcode), MoreFrames(m.more));
      assert ControlEvents(m.first.before) + [] == ControlEvents(m.first.before);
      Associative(ControlEvents(m.first.before), PieceEvents(m.more), last);
    }
  }

  lemma NoMoreFrames()
    ensures MoreFrames([]) == []
  {
  }

  /** The frames of a client: messages, and control frames behind the last one. */
  function ClientFrames(ms: seq<Message>, last: seq<Control>): (r: seq<Frame>) {
    StreamFrames(ms) + ControlFrames(last)
  }

  /** Every list of messages is delivered as exactly those messages, in order, with all control frames in place. */
  lemma {:induction false} Reassembly(s: Session, ms: seq<Message>, last: seq<Control>)
    requires s.frag == []
    ensures var q := Play(s, ClientFrames(ms, last));
            q.session.frag == [] && !q.closed && q.events == Expected(ms) + ControlEvents(last)
    decreases |ms|
  {
    hide MessageFrames, Expected, React, ControlFrames, ControlEvents;
    if ms == [] {
      ExpectedNothing();
      PlayControls(s, last);
      assert StreamFrames([]) + ControlFrames(last) == ControlFrames(last);
      assert [] + ControlEvents(last) == ControlEvents(last);
    } else {
      PlayMessage(s, ms[0]);
      var q := Play(s, MessageFrames(ms[0]));
      Reassembly(q.session, ms[1..], last);
      Associative(MessageFrames(ms[0]), StreamFrames(ms[1..]), ControlFrames(last));
      PlayAppend(s, MessageFrames(ms[0]), ClientFrames(ms[1..], last));
      ExpectedNext(ms);
      Associative(Expected([ms[0]]), Expected(ms[1..]), ControlEvents(last));
    }
  }

  lemma ExpectedNothing()
    ensures Expected([]) == []
  {
  }

  lemma ExpectedNext(ms: seq<Message>)
    requires ms != []
    ensures Expected(ms) == Expected([ms[0]]) + Expected(ms[1..])
  {
    hide PieceEvents, Payload;
    assert [ms[0]][1..] == [];
  }

  lemma {:induction false} ControlFramesValid(cs: seq<Control>)
    requires forall c :: c in cs ==> ValidControl(c)
    ensures forall f :: f in ControlFrames(cs) ==> Valid(f) && f.mask.Some?
  {
    if cs != [] {
      assert ValidControl(cs[0]);
      assert Valid(ControlFrame(cs[0]));
      ControlFramesValid(cs[1..]);
    }
  }

  lemma PieceFramesValid(p: Piece, fin: bool, opcode: nat)
    requires ValidPiece(p) && opcode < 16
    ensures forall f :: f in PieceFrames(p, fin, opcode) ==> Valid(f) && f.mask.Some?
  {
    ControlFramesValid(p.before);
  }

  lemma {:induction false} MoreFramesValid(ps: seq<Piece>)
    requires forall p :: p in ps ==> ValidPiece(p)
    ensures forall f :: f in MoreFrames(ps) ==> Valid(f) && f.mask.Some?
  {
    hide PieceFrames, Valid, ValidPiece;
    if ps != [] {
      PieceFramesValid(ps[0], |ps| == 1, CONTINUATION);
      MoreFramesValid(ps[1..]);
    }
  }

  lemma {:induction false} StreamFramesValid(ms: seq<Message>)
    requires forall m :: m in ms ==> ValidMessage(m)
    ensures forall f :: f in StreamFrames(ms) ==> Valid(f) && f.mask.Some?
  {
    hide PieceFrames, Valid, MoreFrames;
    if ms != [] {
      var m := ms[0];
      assert ValidMessage(m);
      PieceFramesValid(m.first, m.more == [], if m.text then TEXT else BINARY);
      MoreFramesValid(m.more);
      StreamFramesValid(ms[1..]);
    }
  }

  ghost predicate ValidClient(ms: seq<Message>, last: seq<Control>) {
    (forall m :: m in ms ==> ValidMessage(m)) && forall c :: c in last ==> ValidControl(c)
  }

  lemma ClientFramesValid(ms: seq<Message>, last: seq<Control>)
    requires ValidClient(ms, last)
    ensures forall f :: f in ClientFrames(ms, last) ==> Valid(f) && f.mask.Some?
  {
    hide Valid, StreamFrames, ControlFrames, ValidMessage, ValidControl;
    StreamFramesValid(ms);
    ControlFramesValid(last);
  }

  /** The bytes a client sends for a list of messages, and control frames behind the last one. */
  ghost function StreamBytes(ms: seq<Message>, last: seq<Control>): (r: Bytes)
    requires ValidClient(ms, last)
  {
    ClientFramesValid(ms, last);
    SerializeAll(ClientFrames(ms, last))
  }

  /**
   End to end: a client sends any messages in any fragments under any keys, with control frames anywhere, the bytes
   arrive in any pieces that do not end inside an extended header; the handler sees exactly the messages and control
   payloads, in order, nothing is left in either buffer and the connection stays open.
   */
  lemma DeliveredExactly(s: Session, ms: seq<Message>, last: seq<Control>, chunks: seq<Bytes>)
    requires s.frag == [] && ValidClient(ms, last)
    requires Concat(chunks) == StreamBytes(ms, last)
    ensures CutsAreSafe(s, chunks) <==> DeliverAll(Start(s), chunks).status == Open
    ensures CutsAreSafe(s, chunks) ==>
              var l := DeliverAll(Start(s), chunks);
              l.events == Expected(ms) + ControlEvents(last) && l.session.frag == [] && l.inBuf == []
  {
    hide Feed, DeliverAll, ClientFrames, Expected, Play, SerializeAll, CutsAreSafe, EndingOf, ValidClient, ControlEvents;
    ClientFramesValid(ms, last);
    Reassembly(s, ms, last);
    WholeStream(s, ClientFrames(ms, last));
    ChunkIndependence(s, chunks);
  }

  /** One call on a stream of complete frames that do not close plays them all and keeps nothing. */
  lemma WholeStream(s: Session, fs: seq<Frame>)
    requires forall f :: f in fs ==> Valid(f) && f.mask.Some?
    requires !Play(s, fs).closed
    ensures var w, p := Whole(s, SerializeAll(fs)), Play(s, fs);
            w == Link(p.session, [], p.events, Open)
  {
    hide Feed, Play, SerializeAll, Valid;
    var stream := SerializeAll(fs);
    assert stream + [] == stream && [] + stream == stream;
    assert ReadAll([], true) == ([], []);
    ReadAllSerialized(fs, true, []);
    assert fs + [] == fs;
    FeedIsReadThenReact(s, stream);
    var p := Play(s, fs);
    assert p.events + [] == p.events && [] + p.events == p.events;
    var o := Feed(s, stream);
    assert stream[o.consumed..] == [];
  }
}
