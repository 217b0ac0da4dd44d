/** The input buffer of a connection, under HTTP and, after an upgrade, under WebSocket. */
module Connection {
  import opened Bytes
  import opened Frames
  import opened Websockets
  import H = Http
  import R = HttpRuns
  import W = WebsocketRuns
  import Q = Requests

  datatype Protocol = HttpOn(pending: Option<Q.Header>) | WebsocketOn(session: Session) | Gone

  /** An exception that leaves the handler, or a call that never returns, ends the connection's run. */
  datatype Health = Running | Escaped | Hanging

  /** `taken` are the bytes reported consumed, `received` those that recv delivered, in order. */
  datatype Conn = Conn(inBuf: Bytes, protocol: Protocol, httpEvents: seq<H.Event>, wsEvents: seq<Event>,
                       health: Health, taken: Bytes, received: Bytes)

  const FRESH := Conn([], HttpOn(None), [], [], Running, [], [])

  const NEW_SESSION := Session([], CONTINUATION)

  predicate Listening(c: Conn) {
    c.health == Running && c.protocol != Gone
  }

  /** One EPOLLIN event that reads `chunk`. */
  function Read(env: H.Env, c: Conn, chunk: Bytes): (r: Conn) {
    if !Listening(c) then c
    else
      var view := c.inBuf + chunk;
      var d := c.(received := c.received + chunk);
      match c.protocol
      case HttpOn(pending) =>
        var o := H.Call(env, c.httpEvents, H.RunningTotal, 0, pending, view);
        var e := d.(httpEvents := c.httpEvents + o.events);
        (match o.end
         case Stuck => e.(inBuf := view, health := Hanging, protocol := HttpOn(o.pending))
         case Kept => Consume(e, view, o.consumed, HttpOn(o.pending))
         case Dropped => Consume(e, view, o.consumed, Gone)
         case Switched => Consume(e, view, o.consumed, WebsocketOn(NEW_SESSION)))
      case WebsocketOn(session) =>
        var o := Feed(session, view);
        var e := d.(wsEvents := c.wsEvents + o.events);
        (match o.status
         case Threw => e.(inBuf := view, health := Escaped, protocol := WebsocketOn(o.session))
         case Open => Consume(e, view, o.consumed, WebsocketOn(o.session))
         case Closed => Consume(e, view, o.consumed, Gone))
  }

  function Consume(c: Conn, view: Bytes, n: nat, next: Protocol): (r: Conn)
    requires n <= |view|
  {
    c.(inBuf := view[n..], taken := c.taken + view[..n], protocol := next)
  }

  function ReadAll(env: H.Env, c: Conn, chunks: seq<Bytes>): (r: Conn)
    decreases |chunks|
  {
    if chunks == [] then c else ReadAll(env, Read(env, c, chunks[0]), chunks[1..])
  }

  /** What was consumed followed by what is kept is what was received. */
  predicate Conserved(c: Conn) {
    c.taken + c.inBuf == c.received
  }

  lemma ConsumeConserves(c: Conn, d: Conn, chunk: Bytes, n: nat, next: Protocol)
    requires Conserved(c) && n <= |c.inBuf + chunk|
    requires d.taken == c.taken && d.received == c.received + chunk
    ensures Conserved(Consume(d, c.inBuf + chunk, n, next))
  {
    var view := c.inBuf + chunk;
    assert view == view[..n] + view[n..];
    Associative(c.taken, view[..n], view[n..]);
    Associative(c.taken, c.inBuf, chunk);
  }

  lemma ReadConserves(env: H.Env, c: Conn, chunk: Bytes)
    requires Conserved(c)
    ensures Conserved(Read(env, c, chunk))
  {
    hide H.Call, Feed, Consume, Conserved;
    if Listening(c) {
      var view := c.inBuf + chunk;
      var d := c.(received := c.received + chunk);
      KeepConserves(c, chunk);
      match c.protocol
      case HttpOn(pending) =>
        var o := H.Call(env, c.httpEvents, H.RunningTotal, 0, pending, view);
        var e := d.(httpEvents := c.httpEvents + o.events);
        ConsumeConserves(c, e, chunk, o.consumed, HttpOn(o.pending));
        ConsumeConserves(c, e, chunk, o.consumed, Gone);
        ConsumeConserves(c, e, chunk, o.consumed, WebsocketOn(NEW_SESSION));
        SameBytes(d.(inBuf := view), e.(inBuf := view, health := Hanging, protocol := HttpOn(o.pending)));
      case WebsocketOn(session) =>
        var o := Feed(session, view);
        var e := d.(wsEvents := c.wsEvents + o.events);
        ConsumeConserves(c, e, chunk, o.consumed, WebsocketOn(o.session));
        ConsumeConserves(c, e, chunk, o.consumed, Gone);
        SameBytes(d.(inBuf := view), e.(inBuf := view, health := Escaped, protocol := WebsocketOn(o.session)));
    }
  }

  lemma KeepConserves(c: Conn, chunk: Bytes)
    requires Conserved(c)
    ensures Conserved(c.(inBuf := c.inBuf + chunk, received := c.received + chunk))
  {
    Associative(c.taken, c.inBuf, chunk);
  }

  lemma SameBytes(c: Conn, d: Conn)
    requires Conserved(c) && d.taken == c.taken && d.inBuf == c.inBuf && d.received == c.received
    ensures Conserved(d)
  {
  }

  /** In every run, across a change of protocol and up to an exception, no received byte is lost or made up. */
  lemma {:induction false} RunConserves(env: H.Env, c: Conn, chunks: seq<Bytes>)
    requires Conserved(c)
    ensures Conserved(ReadAll(env, c, chunks))
    decreases |chunks|
  {
    hide Read, Conserved;
    if chunks != [] {
      ReadConserves(env, c, chunks[0]);
      RunConserves(env, Read(env, c, chunks[0]), chunks[1..]);
    }
  }

  /**
   A connection hangs if and only if its HTTP call never ends, an exception escapes if and only if its WebSocket call
   throws; from then on, and once the protocol is gone, nothing is read.
   */
  lemma HealthIff(env: H.Env, c: Conn, chunk: Bytes, more: seq<Bytes>)
    requires Listening(c)
    ensures var d := Read(env, c, chunk);
            && (d.health == Hanging <==>
                  && c.protocol.HttpOn?
                  && H.Call(env, c.httpEvents, H.RunningTotal, 0, c.protocol.pending, c.inBuf + chunk).end == H.Stuck)
            && (d.health == Escaped <==> c.protocol.WebsocketOn? && Feed(c.protocol.session, c.inBuf + chunk).status == Threw)
            && (d.health != Running || d.protocol == Gone ==> ReadAll(env, d, more) == d)
  {
    hide H.Call, Feed;
    var d := Read(env, c, chunk);
    if d.health != Running || d.protocol == Gone {
      NothingMore(env, d, more);
    }
  }

  lemma {:induction false} NothingMore(env: H.Env, c: Conn, more: seq<Bytes>)
    requires !Listening(c)
    ensures ReadAll(env, c, more) == c
    decreases |more|
  {
    if more != [] {
      NothingMore(env, c, more[1..]);
    }
  }

  // ---- From an upgrade to delivered messages ----

  /** The connection while HTTP is in charge, and how it looks from the protocol's side. */
  ghost predicate SameHttp(c: Conn, l: R.Link) {
    c.health == Running && c.inBuf == l.inBuf && c.httpEvents == l.events &&
    match l.end
    case Kept => c.protocol == HttpOn(l.pending)
    case Dropped => c.protocol == Gone
    case Switched => c.protocol == WebsocketOn(NEW_SESSION)
    case Stuck => false
  }

  lemma ReadHttp(env: H.Env, c: Conn, l: R.Link, chunk: Bytes)
    requires SameHttp(c, l) && l.end == H.Kept
    requires R.Deliver(env, H.RunningTotal, l, chunk).end != H.Stuck
    ensures SameHttp(Read(env, c, chunk), R.Deliver(env, H.RunningTotal, l, chunk))
    ensures Read(env, c, chunk).wsEvents == c.wsEvents
  {
    hide H.Call;
  }

  /** Reads that end with the last byte of the upgrade request leave the connection to the WebSocket. */
  lemma {:induction false} ReadAllHttp(env: H.Env, c: Conn, l: R.Link, chunks: seq<Bytes>)
    requires SameHttp(c, l) && l.end == H.Kept
    requires forall k :: 0 <= k < |chunks| ==> R.DeliverAll(env, H.RunningTotal, l, chunks[..k]).end == H.Kept
    requires R.DeliverAll(env, H.RunningTotal, l, chunks).end != H.Stuck
    ensures SameHttp(ReadAll(env, c, chunks), R.DeliverAll(env, H.RunningTotal, l, chunks))
    ensures ReadAll(env, c, chunks).wsEvents == c.wsEvents
    decreases |chunks|
  {
    hide Read, R.Deliver, SameHttp;
    if chunks != [] {
      var m := R.Deliver(env, H.RunningTotal, l, chunks[0]);
      if |chunks| == 1 {
        assert chunks[1..] == [];
      } else {
        var first := chunks[..1];
        assert first[0] == chunks[0] && first[1..] == [];
        assert R.DeliverAll(env, H.RunningTotal, l, chunks[..1]) == m;
      }
      ReadHttp(env, c, l, chunks[0]);
      if |chunks| > 1 {
        forall k | 0 <= k < |chunks| - 1
          ensures R.DeliverAll(env, H.RunningTotal, m, chunks[1..][..k]).end == H.Kept
        {
          assert chunks[..k + 1][1..] == chunks[1..][..k];
        }
        ReadAllHttp(env, Read(env, c, chunks[0]), m, chunks[1..]);
      }
    }
  }

  /** The connection while the WebSocket is in charge. */
  ghost predicate SameWebsocket(c: Conn, before: seq<Event>, l: W.Link) {
    c.inBuf == l.inBuf && c.wsEvents == before + l.events &&
    match l.status
    case Open => c.protocol == WebsocketOn(l.session) && c.health == Running
    case Closed => c.protocol == Gone && c.health == Running
    case Threw => c.health == Escaped
  }

  lemma {:induction false} ReadAllWebsocket(env: H.Env, c: Conn, before: seq<Event>, l: W.Link, chunks: seq<Bytes>)
    requires SameWebsocket(c, before, l)
    ensures SameWebsocket(ReadAll(env, c, chunks), before, W.DeliverAll(l, chunks))
    ensures ReadAll(env, c, chunks).httpEvents == c.httpEvents
    decreases |chunks|
  {
    hide Feed;
    if chunks != [] {
      if l.status == Open {
        Associative(before, l.events, Feed(l.session, l.inBuf + chunks[0]).events);
      }
      ReadAllWebsocket(env, Read(env, c, chunks[0]), before, W.Deliver(l, chunks[0]), chunks[1..]);
    }
  }

  lemma {:induction false} ReadAllAppend(env: H.Env, c: Conn, a: seq<Bytes>, b: seq<Bytes>, all: seq<Bytes>)
    requires all == a + b
    ensures ReadAll(env, c, all) == ReadAll(env, ReadAll(env, c, a), b)
    decreases |a|
  {
    hide Read;
    if a == [] {
      assert all == b;
    } else {
      assert all[0] == a[0];
      ReadAllAppend(env, Read(env, c, a[0]), a[1..], b, all[1..]);
    }
  }

  /** The first of some reads, with bytes in front that were there before. */
  function Behind(before: Bytes, chunks: seq<Bytes>): (r: seq<Bytes>) {
    if chunks == [] then [] else [before + chunks[0]] + chunks[1..]
  }

  lemma KeptInFront(before: Bytes, chunks: seq<Bytes>)
    requires chunks != []
    ensures W.DeliverAll(W.Link(NEW_SESSION, before, [], Open), chunks) == W.DeliverAll(W.Start(NEW_SESSION), Behind(before, chunks))
    ensures Concat(Behind(before, chunks)) == before + Concat(chunks)
  {
    hide Feed;
    var all := Behind(before, chunks);
    assert all[1..] == chunks[1..] && [] + all[0] == before + chunks[0];
    Associative(before, chunks[0], Concat(chunks[1..]));
  }

  /** Requests one after the other in non-empty reads of their own, of which the last switches the protocol. */
  ghost predicate Upgrading(env: H.Env, ms: seq<R.Msg>, parts: seq<seq<Bytes>>) {
    && R.Carry(parts, ms) && (forall c :: c in R.Reads(parts) ==> c != [])
    && ms != [] && R.Serve(env, [], ms[..|ms| - 1]).end == H.Kept && R.Serve(env, [], ms).end == H.Switched
  }

  lemma UpgradingReads(env: H.Env, ms: seq<R.Msg>, parts: seq<seq<Bytes>>)
    requires Upgrading(env, ms, parts)
    ensures R.Reads(parts) != []
    ensures R.DeliverAll(env, H.RunningTotal, R.START, R.Reads(parts)) == R.Link(None, [], R.Serve(env, [], ms).events, H.Switched)
    ensures forall k :: 0 <= k < |R.Reads(parts)| ==>
              R.DeliverAll(env, H.RunningTotal, R.START, R.Reads(parts)[..k]).end == H.Kept
  {
    hide R.Serve, R.DeliverAll, R.Reads, R.ValidMsg, R.MsgBytes;
    var cs, s := R.Reads(parts), R.Serve(env, [], ms);
    R.OneAfterTheOther(env, H.RunningTotal, [], ms, parts);
    assert [] + s.events == s.events;
    if cs == [] {
      NoReads(env);
    }
    forall k | 0 <= k < |cs|
      ensures R.DeliverAll(env, H.RunningTotal, R.START, cs[..k]).end == H.Kept
    {
      assert cs[..k] < cs;
      R.KeptUntilLast(env, H.RunningTotal, [], ms, parts, cs[..k]);
    }
  }

  lemma NoReads(env: H.Env)
    ensures R.DeliverAll(env, H.RunningTotal, R.START, []) == R.START
  {
  }

  /** The reads up to the upgrade, with `early` bytes behind it in its read: they are kept for the next event. */
  lemma UpgradeKeeps(env: H.Env, ms: seq<R.Msg>, parts: seq<seq<Bytes>>, early: Bytes)
    requires Upgrading(env, ms, parts)
    ensures R.Reads(parts) != []
    ensures var c := ReadAll(env, FRESH, R.Extended(R.Reads(parts), early));
            && c.httpEvents == R.Serve(env, [], ms).events && c.wsEvents == [] && c.health == Running
            && c.inBuf == early && c.protocol == WebsocketOn(Session([], 0))
  {
    hide Read, R.Serve, R.DeliverAll, R.Reads, Upgrading;
    UpgradingReads(env, ms, parts);
    var cs := R.Reads(parts);
    var all := R.Extended(cs, early);
    R.DeliverAllSwitched(env, H.RunningTotal, R.START, cs, early);
    assert [] + early == early;
    forall k | 0 <= k < |all|
      ensures R.DeliverAll(env, H.RunningTotal, R.START, all[..k]).end == H.Kept
    {
      assert all[..k] == cs[..k];
    }
    ReadAllHttp(env, FRESH, R.START, all);
  }

  /**
   A connection from its first byte: requests, the last of which switches the protocol, frames that arrive with it in
   its read, and the rest of the messages in any fragments and any further reads, none of which ends inside an extended
   header. The HTTP side did what the requests ask for one at a time. The handler saw exactly the messages if there was
   a further read, however short; without one it saw nothing, and the frames that came early still wait.
   */
  lemma UpgradeThenMessages(env: H.Env, ms: seq<R.Msg>, parts: seq<seq<Bytes>>, early: Bytes,
                            messages: seq<W.Message>, last: seq<W.Control>, chunks: seq<Bytes>)
    requires Upgrading(env, ms, parts) && W.ValidClient(messages, last)
    requires early + Concat(chunks) == W.StreamBytes(messages, last)
    requires W.CutsAreSafe(NEW_SESSION, Behind(early, chunks))
    ensures R.Reads(parts) != []
    ensures var c, seen := ReadAll(env, FRESH, R.Extended(R.Reads(parts), early) + chunks), W.Expected(messages) + W.ControlEvents(last);
            && c.httpEvents == R.Serve(env, [], ms).events
            && c.health == Running && c.protocol.WebsocketOn? && c.protocol.session.frag == []
            && (if chunks != [] then c.wsEvents == seen && c.inBuf == [] else c.wsEvents == [] && c.inBuf == early)
            && (c.wsEvents == seen <==> chunks != [] || (messages == [] && last == []))
  {
    hide Read, R.Serve, R.Reads, R.Extended, Upgrading, W.DeliverAll, W.Expected, W.StreamBytes, W.CutsAreSafe,
      W.ValidClient, W.ControlEvents;
    UpgradeKeeps(env, ms, parts, early);
    var cs := R.Extended(R.Reads(parts), early);
    var c, seen := ReadAll(env, FRESH, cs), W.Expected(messages) + W.ControlEvents(last);
    ReadAllAppend(env, FRESH, cs, chunks, cs + chunks);
    NothingSeenIff(messages, last);
    if chunks != [] {
      KeptInFront(early, chunks);
      W.DeliveredExactly(NEW_SESSION, messages, last, Behind(early, chunks));
      ReadAllWebsocket(env, c, [], W.Link(NEW_SESSION, early, [], Open), chunks);
      assert [] + seen == seen;
    }
  }

  /** A handler that is to see nothing is that of a client that sends nothing. */
  lemma NothingSeenIff(messages: seq<W.Message>, last: seq<W.Control>)
    ensures W.Expected(messages) + W.ControlEvents(last) == [] <==> messages == [] && last == []
  {
  }

  // ---- The handler ----

  const READ_SIZE: nat := 4096

  /** How many recv calls an event makes: up to the first that fills less than the buffer, or until one would block. */
  function RecvCalls(answers: seq<Bytes>): (n: nat)
    ensures n <= |answers|
    ensures forall i :: 0 <= i < n - 1 ==> |answers[i]| >= 4096
    ensures n < |answers| ==> n > 0 && |answers[n - 1]| < 4096
  {
    if answers == [] then 0
    else if |answers[0]| < READ_SIZE then 1
    else 1 + RecvCalls(answers[1..])
  }

  lemma {:induction false} CallsAre(answers: seq<Bytes>, n: nat)
    requires n <= |answers| && forall i :: 0 <= i < n - 1 ==> |answers[i]| >= READ_SIZE
    requires n < |answers| ==> n > 0 && |answers[n - 1]| < READ_SIZE
    ensures RecvCalls(answers) == n
  {
    if answers != [] && n > 1 {
      CallsAre(answers[1..], n - 1);
    }
  }

  /** The bytes that they deliver. */
  function Delivered(answers: seq<Bytes>): (r: Bytes) {
    Concat(answers[..RecvCalls(answers)])
  }

  class Input {
    const env: H.Env
    var inBuf: Bytes
    // the protocol in charge: the first object, the second, or none
    var http: H.HttpProtocol?
    var ws: Websocket?
    var health: Health
    // history
    ghost var taken: Bytes
    ghost var received: Bytes
    ghost var httpEvents: seq<H.Event>
    ghost var wsEvents: seq<Event>

    constructor (env: H.Env)
      ensures this.env == env && Valid() && State() == FRESH && fresh(Repr() - {this})
    {
      this.env := env;
      inBuf, health, ws := [], Running, null;
      http := new H.HttpProtocol(env);
      taken, received, httpEvents, wsEvents := [], [], [], [];
    }

    ghost function Repr(): set<object>
      reads this
    {
      {this} + (if http != null then {http} else {}) + if ws != null then {ws} else {}
    }

    ghost predicate Valid()
      reads this, Repr()
    {
      && !(http != null && ws != null)
      && (http != null ==> http.env == env && http.Valid() && http.events == httpEvents && wsEvents == [])
      && (ws != null ==> ws.handled == wsEvents)
    }

    ghost function State(): (c: Conn)
      reads this, Repr()
    {
      Conn(inBuf,
           if http != null then HttpOn(http.header) else if ws != null then WebsocketOn(ws.Now()) else Gone,
           httpEvents, wsEvents, health, taken, received)
    }

    /** The recv loop: it keeps what every call delivers, and ends behind the first call that fills less than the buffer. */
    method Receive(answers: seq<Bytes>) returns (ghost n: nat)
      modifies this`inBuf
      ensures n <= |answers| && inBuf == old(inBuf) + Concat(answers[..n])
      ensures forall i :: 0 <= i < n - 1 ==> |answers[i]| >= 4096
      ensures n < |answers| ==> n > 0 && |answers[n - 1]| < 4096
    {
      var i := 0;
      assert inBuf + Concat(answers[..0]) == inBuf;
      while i < |answers|
        invariant i <= |answers| && inBuf == old(inBuf) + Concat(answers[..i])
        invariant forall j :: 0 <= j < i ==> |answers[j]| >= READ_SIZE
      {
        ConcatNext(answers, i);
        Associative(old(inBuf), Concat(answers[..i]), answers[i]);
        inBuf := inBuf + answers[i];
        if |answers[i]| < READ_SIZE {
          return i + 1;
        }
        i := i + 1;
      }
      n := i;
    }

    /**
     The EPOLLIN branch of operator(), with the `n` recv calls that it makes: every byte they deliver is received and
     handed to the protocol. Counts are `int`s, so the buffer stays below 2^31 bytes.
     */
    method OnReadable(answers: seq<Bytes>) returns (ghost n: nat)
      requires Valid() && |inBuf| + |Delivered(answers)| < 0x8000_0000
      modifies Repr()
      ensures Valid() && fresh(Repr() - old(Repr()))
      ensures n <= |answers| && (forall i :: 0 <= i < n - 1 ==> |answers[i]| >= 4096)
      ensures n < |answers| ==> n > 0 && |answers[n - 1]| < 4096
      ensures State() == Read(env, old(State()), Concat(answers[..n]))
      ensures received == old(received) + if old(Listening(State())) then Concat(answers[..n]) else []
      ensures Conserved(old(State())) ==> Conserved(State())
    {
      hide H.Call, Feed, Conserved;
      n := RecvCalls(answers);
      ghost var before, chunk := State(), Concat(answers[..n]);
      if Conserved(before) {
        ReadConserves(env, before, chunk);
      }
      if health != Running {
        return;
      }
      if http != null {
        ghost var calls := Receive(answers);
        CallsAre(answers, calls);
        received := received + chunk;
        ReadHttpPart();
      } else if ws != null {
        ghost var calls := Receive(answers);
        CallsAre(answers, calls);
        received := received + chunk;
        ReadWebsocketPart();
      }
    }

    method ReadHttpPart()
      requires Valid() && health == Running && http != null && |inBuf| < 0x8000_0000
      modifies Repr()
      ensures Valid() && fresh(Repr() - old(Repr())) && received == old(received)
      ensures var o := H.Call(env, old(httpEvents), H.RunningTotal, 0, old(http.header), old(inBuf));
              var e := old(State()).(httpEvents := old(httpEvents) + o.events);
              State() == match o.end
                         case Stuck => e.(health := Hanging, protocol := HttpOn(o.pending))
                         case Kept => Consume(e, old(inBuf), o.consumed, HttpOn(o.pending))
                         case Dropped => Consume(e, old(inBuf), o.consumed, Gone)
                         case Switched => Consume(e, old(inBuf), o.consumed, WebsocketOn(NEW_SESSION))
    {
      hide H.Call;
      var consumed, end := http.OnDataReceived(inBuf);
      httpEvents := http.events;
      if end == H.Stuck {
        health := Hanging;
        return;
      }
      taken := taken + inBuf[..consumed];
      inBuf := inBuf[consumed..];
      if end == H.Dropped {
        http := null;
      } else if end == H.Switched {
        http := null;
        ws := new Websocket();
      }
    }

    method ReadWebsocketPart()
      requires Valid() && health == Running && ws != null && |inBuf| < 0x8000_0000
      modifies Repr()
      ensures Valid() && fresh(Repr() - old(Repr())) && received == old(received)
      ensures var o := Feed(old(ws.Now()), old(inBuf));
              var e := old(State()).(wsEvents := old(wsEvents) + o.events);
              State() == match o.status
                         case Threw => e.(health := Escaped, protocol := WebsocketOn(o.session))
                         case Open => Consume(e, old(inBuf), o.consumed, WebsocketOn(o.session))
                         case Closed => Consume(e, old(inBuf), o.consumed, Gone)
    {
      hide Feed;
      var consumed, status := ws.OnDataReceived(inBuf);
      wsEvents := ws.handled;
      if status == Threw {
        health := Escaped;
        return;
      }
      ReportedCount(Feed(old(ws.Now()), old(inBuf)).consumed);
      taken := taken + inBuf[..consumed];
      inBuf := inBuf[consumed..];
      if status == Closed {
        ws := null;
      }
    }
  }
}
