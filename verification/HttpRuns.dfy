/** Whole runs of the HTTP protocol: requests arrive in arbitrary reads. */
module HttpRuns {
  import opened Bytes
  import opened Text
  import opened Requests
  import opened Responses
  import opened Http

  /**
   The HTTP side of a connection; the rest of a read is kept. What the loop does as written (`RunningTotal`) is compared
   with what it does when line 103 drops just the header (`HeaderOnly`).
   */
  datatype Link = Link(pending: Option<Header>, inBuf: Bytes, events: seq<Event>, end: End)

  /** One read; after the protocol has ended nothing is handed to it any more. */
  function Deliver(env: Env, rule: Rule, l: Link, chunk: Bytes): (r: Link) {
    if l.end != Kept then l
    else
      var view := l.inBuf + chunk;
      var o := Call(env, l.events, rule, 0, l.pending, view);
      Link(o.pending, view[o.consumed..], l.events + o.events, o.end)
  }

  function DeliverAll(env: Env, rule: Rule, l: Link, chunks: seq<Bytes>): (r: Link)
    decreases |chunks|
  {
    if chunks == [] then l else DeliverAll(env, rule, Deliver(env, rule, l, chunks[0]), chunks[1..])
  }

  const START := Link(None, [], [], Kept)

  // ---- Chunk independence when the header alone is dropped ----

  /** Handing over `b` after a call on `a` with outcome `first`, with the bytes it left. */
  function Resumed(env: Env, seen: seq<Event>, done: nat, first: Outcome, a: Bytes, b: Bytes): (o: Outcome)
    requires first.consumed <= |a|
  {
    if first.end != Kept then first
    else
      var second := Call(env, seen + first.events, HeaderOnly, done, first.pending, a[first.consumed..] + b);
      Outcome(second.pending, first.consumed + second.consumed, first.events + second.events, second.end)
  }

  lemma ResumedNothing(env: Env, seen: seq<Event>, done: nat, pending: Option<Header>, a: Bytes, b: Bytes)
    ensures Resumed(env, seen, done, Outcome(pending, 0, [], Kept), a, b) == Call(env, seen, HeaderOnly, done, pending, a + b)
  {
    hide Call;
    assert a[0..] == a && seen + [] == seen;
    var o := Call(env, seen, HeaderOnly, done, pending, a + b);
    assert [] + o.events == o.events;
  }

  /** Resuming later in the view is resuming. */
  lemma ResumedShift(env: Env, seen: seq<Event>, done: nat, before: seq<Event>, n: nat, inner: Outcome, a: Bytes, b: Bytes)
    requires n <= |a| && inner.consumed <= |a| - n
    ensures var o := Resumed(env, seen + before, done, inner, a[n..], b);
            Resumed(env, seen, done, Outcome(inner.pending, n + inner.consumed, before + inner.events, inner.end), a, b)
            == Outcome(o.pending, n + o.consumed, before + o.events, o.end)
  {
    hide Call;
    if inner.end == Kept {
      assert a[n..][inner.consumed..] == a[n + inner.consumed..];
      Associative(seen, before, inner.events);
      var second := Call(env, seen + before + inner.events, HeaderOnly, done, inner.pending, a[n + inner.consumed..] + b);
      Associative(before, inner.events, second.events);
    }
  }

  /** Where the bytes go on behind a header that ends at `idx`. */
  function Skip(rule: Rule, done: nat, idx: nat): (n: nat) {
    if rule == HeaderOnly then idx + 4 else done + idx + 4
  }

  lemma ScanCases(env: Env, seen: seq<Event>, rule: Rule, done: nat, view: Bytes)
    ensures var idx, o := Find(view, CRLFCRLF, 0), Scan(env, seen, rule, done, view);
            if idx == -1 then o == Outcome(None, 0, [], Kept)
            else
              && idx + 4 <= |view|
              && var r := ReadHeader(view[..idx + 2]);
                 if r.Fail? then o == Outcome(None, 0, [Refused(if r.error == BadRequest then 400 else 500)],
                                              if r.error == BadRequest then Stuck else Dropped)
                 else if Skip(rule, done, idx) > |view| then o == Outcome(Some(r.value), idx + 4, [Refused(500)], Dropped)
                 else
                   var rest := AtBody(env, seen, rule, done + idx + 4, r.value, view[Skip(rule, done, idx)..]);
                   o == rest.(consumed := idx + 4 + rest.consumed)
  {
    hide ReadHeader, Handle, Find, AtBody;
    FoundWithin(view, CRLFCRLF);
  }

  lemma {:induction false} ScanSplits(env: Env, seen: seq<Event>, done: nat, later: nat, a: Bytes, b: Bytes)
    ensures Scan(env, seen, HeaderOnly, done, a + b)
            == Resumed(env, seen, later, Scan(env, seen, HeaderOnly, done, a), a, b)
    decreases |a|, 0
  {
    hide ReadHeader, Handle, Find, Scan, AtBody, Resumed;
    var idx := Find(a, CRLFCRLF, 0);
    ScanCases(env, seen, HeaderOnly, done, a);
    if idx == -1 {
      ResumedNothing(env, seen, later, None, a, b);
      ScanAnyDone(env, seen, done, later, a + b);
      CallNone(env, seen, later, a + b);
    } else {
      FindStays(a, CRLFCRLF, b);
      ScanCases(env, seen, HeaderOnly, done, a + b);
      assert (a + b)[..idx + 2] == a[..idx + 2];
      match ReadHeader(a[..idx + 2])
      case Fail(_) =>
        ResumedOver(env, seen, later, Scan(env, seen, HeaderOnly, done, a), a, b);
      case Ok(h) =>
        assert (a + b)[idx + 4..] == a[idx + 4..] + b;
        BodySplits(env, seen, done + idx + 4, later, h, a[idx + 4..], b);
        var inner := AtBody(env, seen, HeaderOnly, done + idx + 4, h, a[idx + 4..]);
        ResumedShift(env, seen, later, [], idx + 4, inner, a, b);
        assert seen + [] == seen;
        var o := Resumed(env, seen, later, inner, a[idx + 4..], b);
        assert [] + inner.events == inner.events && [] + o.events == o.events;
    }
  }

  lemma ResumedOver(env: Env, seen: seq<Event>, done: nat, first: Outcome, a: Bytes, b: Bytes)
    requires first.consumed <= |a| && first.end != Kept
    ensures Resumed(env, seen, done, first, a, b) == first
  {
  }

  lemma CallNone(env: Env, seen: seq<Event>, done: nat, view: Bytes)
    ensures Call(env, seen, HeaderOnly, done, None, view) == Scan(env, seen, HeaderOnly, done, view)
  {
    hide Scan;
  }

  lemma CallSome(env: Env, seen: seq<Event>, done: nat, h: Header, view: Bytes)
    ensures Call(env, seen, HeaderOnly, done, Some(h), view) == AtBody(env, seen, HeaderOnly, done, h, view)
  {
    hide AtBody;
  }

  lemma BodyCases(env: Env, seen: seq<Event>, rule: Rule, done: nat, h: Header, view: Bytes)
    ensures var o, n := AtBody(env, seen, rule, done, h, view), h.contentLength;
            if |view| < n then o == Outcome(Some(h), 0, [], Kept)
            else
              var r := Handle(env, seen, h, view[..n]);
              if r.change != Keep then o == Outcome(None, n, r.events, EndOf(r.change))
              else
                var rest := Scan(env, seen + r.events, rule, done + n, view[n..]);
                o == Outcome(rest.pending, n + rest.consumed, r.events + rest.events, rest.end)
  {
    hide Scan, Handle;
  }

  lemma {:induction false} BodySplits(env: Env, seen: seq<Event>, done: nat, later: nat, h: Header, a: Bytes, b: Bytes)
    ensures AtBody(env, seen, HeaderOnly, done, h, a + b)
            == Resumed(env, seen, later, AtBody(env, seen, HeaderOnly, done, h, a), a, b)
    decreases |a|, 1
  {
    hide ReadHeader, Handle, Find, Scan, AtBody, Resumed;
    var n := h.contentLength;
    BodyCases(env, seen, HeaderOnly, done, h, a);
    if |a| < n {
      ResumedNothing(env, seen, later, Some(h), a, b);
      BodyAnyDone(env, seen, done, later, h, a + b);
      CallSome(env, seen, later, h, a + b);
    } else {
      BodyCases(env, seen, HeaderOnly, done, h, a + b);
      assert (a + b)[..n] == a[..n] && (a + b)[n..] == a[n..] + b;
      var r := Handle(env, seen, h, a[..n]);
      if r.change == Keep {
        ScanSplits(env, seen + r.events, done + n, later, a[n..], b);
        ResumedShift(env, seen, later, r.events, n, Scan(env, seen + r.events, HeaderOnly, done + n, a[n..]), a, b);
      } else {
        ResumedOver(env, seen, later, AtBody(env, seen, HeaderOnly, done, h, a), a, b);
      }
    }
  }

  /** Without the running total it does not matter what the call consumed before. */
  lemma {:induction false} ScanAnyDone(env: Env, seen: seq<Event>, d: nat, e: nat, view: Bytes)
    ensures Scan(env, seen, HeaderOnly, d, view) == Scan(env, seen, HeaderOnly, e, view)
    decreases |view|, 0
  {
    hide ReadHeader, Handle, Find, Scan, AtBody;
    ScanCases(env, seen, HeaderOnly, d, view);
    ScanCases(env, seen, HeaderOnly, e, view);
    var idx := Find(view, CRLFCRLF, 0);
    if idx != -1 && ReadHeader(view[..idx + 2]).Ok? {
      BodyAnyDone(env, seen, d + idx + 4, e + idx + 4, ReadHeader(view[..idx + 2]).value, view[idx + 4..]);
    }
  }

  lemma {:induction false} BodyAnyDone(env: Env, seen: seq<Event>, d: nat, e: nat, h: Header, view: Bytes)
    ensures AtBody(env, seen, HeaderOnly, d, h, view) == AtBody(env, seen, HeaderOnly, e, h, view)
    decreases |view|, 1
  {
    hide Handle, Scan, AtBody;
    BodyCases(env, seen, HeaderOnly, d, h, view);
    BodyCases(env, seen, HeaderOnly, e, h, view);
    var n := h.contentLength;
    if |view| >= n {
      ScanAnyDone(env, seen + Handle(env, seen, h, view[..n]).events, d + n, e + n, view[n..]);
    }
  }

  /** The run so far is what one call on all bytes read gives. */
  ghost predicate LikeWhole(env: Env, stream: Bytes, l: Link) {
    var o := Call(env, [], HeaderOnly, 0, None, stream);
    l.pending == o.pending && l.events == o.events && l.end == o.end
    && (l.end == Kept ==> l.inBuf == stream[o.consumed..])
  }

  lemma DeliverLikeWhole(env: Env, stream: Bytes, l: Link, chunk: Bytes)
    requires LikeWhole(env, stream, l)
    ensures LikeWhole(env, stream + chunk, Deliver(env, HeaderOnly, l, chunk))
  {
    hide Scan, Call;
    CallNone(env, [], 0, stream);
    CallNone(env, [], 0, stream + chunk);
    ScanSplits(env, [], 0, 0, stream, chunk);
    var first := Call(env, [], HeaderOnly, 0, None, stream);
    if l.end == Kept {
      var view := stream[first.consumed..] + chunk;
      assert [] + first.events == first.events;
      var second := Call(env, first.events, HeaderOnly, 0, first.pending, view);
      assert (stream + chunk)[first.consumed + second.consumed..] == view[second.consumed..];
    }
  }

  lemma {:induction false} DeliverAllLikeWhole(env: Env, stream: Bytes, l: Link, chunks: seq<Bytes>)
    requires LikeWhole(env, stream, l)
    ensures LikeWhole(env, stream + Concat(chunks), DeliverAll(env, HeaderOnly, l, chunks))
    decreases |chunks|
  {
    hide LikeWhole, Deliver;
    if chunks == [] {
      assert stream + [] == stream;
    } else {
      DeliverLikeWhole(env, stream, l, chunks[0]);
      DeliverAllLikeWhole(env, stream + chunks[0], Deliver(env, HeaderOnly, l, chunks[0]), chunks[1..]);
      Associative(stream, chunks[0], Concat(chunks[1..]));
    }
  }

  /**
   Chunk independence, when a header is dropped by its own size: for every stream and every split of it the
   protocol does the same things, ends the same way and keeps the same pending header and bytes as one call.
   */
  lemma ChunkIndependence(env: Env, chunks: seq<Bytes>)
    ensures LikeWhole(env, Concat(chunks), DeliverAll(env, HeaderOnly, START, chunks))
  {
    hide Scan, DeliverAll;
    CallNone(env, [], 0, []);
    ScanCases(env, [], HeaderOnly, 0, []);
    assert Find([], CRLFCRLF, 0) == -1;
    DeliverAllLikeWhole(env, [], START, chunks);
    assert [] + Concat(chunks) == Concat(chunks);
  }

  // ---- Streams of requests ----

  /** A message on the wire: head up to its last line break, header read from it, body. */
  datatype Msg = Msg(head: Bytes, header: Header, body: Bytes)

  /** A head that parses, without its empty line. */
  ghost predicate ValidHead(head: Bytes, h: Header) {
    |head| >= 2 && Find(head + CRLF, CRLFCRLF, 0) == |head| - 2 && ReadHeader(head) == Ok(h)
  }

  ghost predicate ValidMsg(m: Msg) {
    ValidHead(m.head, m.header) && |m.body| == m.header.contentLength
  }

  function MsgBytes(m: Msg): (r: Bytes) {
    m.head + CRLF + m.body
  }

  function Stream(ms: seq<Msg>): (r: Bytes) {
    if ms == [] then [] else MsgBytes(ms[0]) + Stream(ms[1..])
  }

  /** Handling requests one at a time, until one ends the protocol. */
  datatype Service = Service(events: seq<Event>, end: End, served: nat)

  function Serve(env: Env, seen: seq<Event>, ms: seq<Msg>): (s: Service)
    ensures s.served <= |ms| && (s.end == Kept ==> s.served == |ms|) && s.end != Stuck
    decreases |ms|
  {
    if ms == [] then Service([], Kept, 0)
    else
      var r := Handle(env, seen, ms[0].header, ms[0].body);
      if r.change != Keep then Service(r.events, EndOf(r.change), 1)
      else
        var s := Serve(env, seen + r.events, ms[1..]);
        Service(r.events + s.events, s.end, 1 + s.served)
  }

  /** The framing of a message does not depend on what follows it. */
  lemma MsgFrame(m: Msg, rest: Bytes)
    requires ValidMsg(m)
    ensures var s, n := MsgBytes(m) + rest, |m.head|;
            && Find(s, CRLFCRLF, 0) == n - 2 && s[..n] == m.head && s[n + 2..] == m.body + rest
            && s[n + 2..][..|m.body|] == m.body && s[n + 2..][|m.body|..] == rest
  {
    hide Find, ReadHeader;
    var s := MsgBytes(m) + rest;
    assert s == (m.head + CRLF) + (m.body + rest);
    FindStays(m.head + CRLF, CRLFCRLF, m.body + rest);
  }

  lemma {:induction false} ScanServes(env: Env, seen: seq<Event>, done: nat, ms: seq<Msg>)
    requires forall m :: m in ms ==> ValidMsg(m)
    ensures var o, s := Scan(env, seen, HeaderOnly, done, Stream(ms)), Serve(env, seen, ms);
            o == Outcome(None, |Stream(ms[..s.served])|, s.events, s.end)
    decreases |ms|
  {
    hide ReadHeader, Handle, Find, Scan, AtBody, MsgBytes;
    ScanCases(env, seen, HeaderOnly, done, Stream(ms));
    if ms == [] {
      NothingFound();
    } else {
      var m, n, rest := ms[0], |ms[0].head|, Stream(ms[1..]);
      MsgFrame(m, rest);
      MsgSize(m);
      BodyCases(env, seen, HeaderOnly, done + n + 2, m.header, m.body + rest);
      var r := Handle(env, seen, m.header, m.body);
      if r.change == Keep {
        ScanServes(env, seen + r.events, done + n + 2 + |m.body|, ms[1..]);
        StreamTake(ms, Serve(env, seen + r.events, ms[1..]).served);
      } else {
        StreamTake(ms, 0);
      }
    }
  }

  lemma NothingFound()
    ensures Find([], CRLFCRLF, 0) == -1
  {
  }

  lemma MsgSize(m: Msg)
    ensures |MsgBytes(m)| == |m.head| + 2 + |m.body|
    ensures ValidMsg(m) ==> |m.head| >= 2 && |m.body| == m.header.contentLength && ReadHeader(m.head) == Ok(m.header)
  {
    hide ReadHeader, Find;
  }

  lemma StreamTake(ms: seq<Msg>, k: nat)
    requires ms != [] && k < |ms|
    ensures |Stream(ms[..1 + k])| == |MsgBytes(ms[0])| + |Stream(ms[1..][..k])|
  {
    hide MsgBytes;
    assert ms[..1 + k][1..] == ms[1..][..k];
  }

  /** One read of a stream of requests. */
  lemma WholeStream(env: Env, ms: seq<Msg>)
    requires forall m :: m in ms ==> ValidMsg(m)
    ensures var l, s := Deliver(env, HeaderOnly, START, Stream(ms)), Serve(env, [], ms);
            && l.events == s.events && l.end == s.end && l.pending == None
            && (l.end == Kept ==> l.inBuf == [])
  {
    hide Scan, Serve, ValidMsg;
    assert [] + Stream(ms) == Stream(ms);
    CallNone(env, [], 0, Stream(ms));
    ScanServes(env, [], 0, ms);
    var s := Serve(env, [], ms);
    assert [] + s.events == s.events;
    if s.end == Kept {
      assert ms[..|ms|] == ms;
    }
  }

  // ---- One response each ----

  /** Responses of any kind: from a handler, an error, the answer to an upgrade. */
  function ResponseCount(events: seq<Event>): (n: nat) {
    if events == [] then 0 else (if events[0].Routed? then 0 else 1) + ResponseCount(events[1..])
  }

  lemma {:induction false} ResponsesAppend(a: seq<Event>, b: seq<Event>)
    ensures ResponseCount(a + b) == ResponseCount(a) + ResponseCount(b)
  {
    if a == [] {
      assert a + b == b;
    } else {
      assert (a + b)[1..] == a[1..] + b;
      ResponsesAppend(a[1..], b);
    }
  }

  lemma HandleRespondsOnce(env: Env, seen: seq<Event>, h: Header, body: Bytes)
    ensures ResponseCount(Handle(env, seen, h, body).events) == 1
  {
    hide Prepare, WantsUpgrade;
    var e := Handle(env, seen, h, body).events;
    assert |e| == 1 || |e| == 2;
    assert ResponseCount([]) == 0;
    if |e| == 2 {
      assert e[1..] == [e[1]] && [e[1]][1..] == [];
    } else {
      assert e[1..] == [];
    }
  }

  /** Every request that is handled gets exactly one response. */
  lemma {:induction false} OneResponseEach(env: Env, seen: seq<Event>, ms: seq<Msg>)
    ensures ResponseCount(Serve(env, seen, ms).events) == Serve(env, seen, ms).served
    decreases |ms|
  {
    hide Handle;
    if ms != [] {
      var r := Handle(env, seen, ms[0].header, ms[0].body);
      HandleRespondsOnce(env, seen, ms[0].header, ms[0].body);
      if r.change == Keep {
        OneResponseEach(env, seen + r.events, ms[1..]);
        ResponsesAppend(r.events, Serve(env, seen + r.events, ms[1..]).events);
      }
    }
  }

  // ---- Bytes behind an upgrade ----

  /** A call that ends in a switch of the protocol does not look at what follows the request that asked for it. */
  lemma {:induction false} ScanSwitched(env: Env, seen: seq<Event>, rule: Rule, done: nat, view: Bytes, x: Bytes)
    requires Scan(env, seen, rule, done, view).end == Switched
    ensures Scan(env, seen, rule, done, view + x) == Scan(env, seen, rule, done, view)
    decreases |view|, 0
  {
    hide ReadHeader, Handle, Find, Scan, AtBody;
    ScanCases(env, seen, rule, done, view);
    ScanCases(env, seen, rule, done, view + x);
    var idx := Find(view, CRLFCRLF, 0);
    FindStays(view, CRLFCRLF, x);
    assert (view + x)[..idx + 2] == view[..idx + 2];
    var skip := Skip(rule, done, idx);
    assert (view + x)[skip..] == view[skip..] + x;
    BodySwitched(env, seen, rule, done + idx + 4, ReadHeader(view[..idx + 2]).value, view[skip..], x);
  }

  lemma {:induction false} BodySwitched(env: Env, seen: seq<Event>, rule: Rule, done: nat, h: Header, view: Bytes, x: Bytes)
    requires AtBody(env, seen, rule, done, h, view).end == Switched
    ensures AtBody(env, seen, rule, done, h, view + x) == AtBody(env, seen, rule, done, h, view)
    decreases |view|, 1
  {
    hide Handle, Scan, AtBody;
    BodyCases(env, seen, rule, done, h, view);
    BodyCases(env, seen, rule, done, h, view + x);
    var n := h.contentLength;
    assert (view + x)[..n] == view[..n] && (view + x)[n..] == view[n..] + x;
    var r := Handle(env, seen, h, view[..n]);
    if r.change == Keep {
      ScanSwitched(env, seen + r.events, rule, done + n, view[n..], x);
    }
  }

  /** The bytes behind an upgrade that arrive in its read are kept. */
  lemma DeliverSwitched(env: Env, rule: Rule, l: Link, chunk: Bytes, x: Bytes)
    requires l.end == Kept && Deliver(env, rule, l, chunk).end == Switched
    ensures var r := Deliver(env, rule, l, chunk); Deliver(env, rule, l, chunk + x) == r.(inBuf := r.inBuf + x)
  {
    hide Scan, AtBody;
    var view := l.inBuf + chunk;
    Associative(l.inBuf, chunk, x);
    if l.pending.Some? {
      BodySwitched(env, l.events, rule, 0, l.pending.value, view, x);
    } else {
      ScanSwitched(env, l.events, rule, 0, view, x);
    }
    var o := Call(env, l.events, rule, 0, l.pending, view);
    assert (view + x)[o.consumed..] == view[o.consumed..] + x;
  }

  /** The last of some reads, with more bytes behind it. */
  function Extended(chunks: seq<Bytes>, x: Bytes): (r: seq<Bytes>)
    requires chunks != []
  {
    chunks[..|chunks| - 1] + [chunks[|chunks| - 1] + x]
  }

  lemma LastRead(env: Env, rule: Rule, l: Link, chunk: Bytes)
    ensures DeliverAll(env, rule, l, [chunk]) == Deliver(env, rule, l, chunk)
  {
    hide Deliver;
    assert [chunk][1..] == [];
  }

  lemma DeliverAllLast(env: Env, rule: Rule, l: Link, chunks: seq<Bytes>)
    requires chunks != []
    ensures DeliverAll(env, rule, l, chunks) ==
            Deliver(env, rule, DeliverAll(env, rule, l, chunks[..|chunks| - 1]), chunks[|chunks| - 1])
  {
    hide Deliver;
    var front, last := chunks[..|chunks| - 1], chunks[|chunks| - 1];
    DeliverAllAppend(env, rule, l, front, [last], chunks);
    LastRead(env, rule, DeliverAll(env, rule, l, front), last);
  }

  lemma DeliverAllSwitched(env: Env, rule: Rule, l: Link, chunks: seq<Bytes>, x: Bytes)
    requires chunks != [] && DeliverAll(env, rule, l, chunks).end == Switched
    requires DeliverAll(env, rule, l, chunks[..|chunks| - 1]).end == Kept
    ensures var r := DeliverAll(env, rule, l, chunks);
            DeliverAll(env, rule, l, Extended(chunks, x)) == r.(inBuf := r.inBuf + x)
  {
    hide Deliver, DeliverAll;
    var all := Extended(chunks, x);
    DeliverAllLast(env, rule, l, chunks);
    DeliverAllLast(env, rule, l, all);
    assert all[..|all| - 1] == chunks[..|chunks| - 1];
    DeliverSwitched(env, rule, DeliverAll(env, rule, l, chunks[..|chunks| - 1]), chunks[|chunks| - 1], x);
  }

  // ---- One request after the other, as written ----

  /** The link after part `p` of a message has arrived. */
  function PartLink(m: Msg, events: seq<Event>, p: Bytes): (l: Link) {
    if |p| < |m.head| + 2 then Link(None, p, events, Kept)
    else Link(Some(m.header), p[|m.head| + 2..], events, Kept)
  }

  function Answered(env: Env, m: Msg, events: seq<Event>): (l: Link) {
    var r := Handle(env, events, m.header, m.body);
    Link(None, [], events + r.events, EndOf(r.change))
  }

  lemma NoHeaderYet(m: Msg, p: Bytes)
    requires ValidMsg(m) && p <= MsgBytes(m) && |p| < |m.head| + 2
    ensures Find(p, CRLFCRLF, 0) == -1
  {
    hide ReadHeader, Find;
    if Find(p, CRLFCRLF, 0) != -1 {
      var w := MsgBytes(m);
      assert w == p + w[|p|..];
      FindStays(p, CRLFCRLF, w[|p|..]);
      assert w + [] == w;
      MsgFrame(m, []);
      FoundWithin(p, CRLFCRLF);
    }
  }

  /** The body is there or still to come: one call at a pending or just-read header. */
  lemma PartBody(env: Env, events: seq<Event>, rule: Rule, done: nat, m: Msg, b: Bytes)
    requires ValidMsg(m) && b <= m.body
    ensures AtBody(env, events, rule, done, m.header, b) ==
            if |b| < |m.body| then Outcome(Some(m.header), 0, [], Kept)
            else
              var r := Handle(env, events, m.header, m.body);
              Outcome(None, |b|, r.events, EndOf(r.change))
  {
    hide Handle, ReadHeader, Find;
    if |b| == |m.body| {
      assert b == m.body && b[..|b|] == b && b[|b|..] == [];
      NothingFound();
      var r := Handle(env, events, m.header, m.body);
      assert r.events + [] == r.events;
    }
  }

  /** One more piece of a message. */
  lemma DeliverPart(env: Env, rule: Rule, m: Msg, events: seq<Event>, p: Bytes, c: Bytes)
    requires ValidMsg(m) && p + c <= MsgBytes(m) && |p| < |MsgBytes(m)|
    ensures Deliver(env, rule, PartLink(m, events, p), c) ==
            if |p + c| < |MsgBytes(m)| then PartLink(m, events, p + c) else Answered(env, m, events)
  {
    hide Handle, ReadHeader, Find, AtBody, ValidMsg;
    var w, n, q := MsgBytes(m), |m.head| + 2, p + c;
    MsgSize(m);
    assert events + [] == events;
    if |p| >= n {
      var b := p[n..] + c;
      assert b == q[n..];
      PartOfBody(m, q);
      PartBody(env, events, rule, 0, m, b);
    } else if |q| >= n {
      PartOfBody(m, q);
      FindInPart(m, q);
      PartBody(env, events, rule, n, m, q[n..]);
      ScanOfHead(env, events, rule, m, q);
      assert q[n + |q[n..]|..] == [];
    } else {
      NoHeaderYet(m, q);
    }
  }

  lemma ScanOfHead(env: Env, events: seq<Event>, rule: Rule, m: Msg, q: Bytes)
    requires ValidMsg(m) && |q| >= |m.head| + 2
    requires Find(q, CRLFCRLF, 0) == |m.head| - 2 && q[..|m.head|] == m.head
    ensures var n := |m.head| + 2;
            var o := AtBody(env, events, rule, n, m.header, q[n..]);
            Scan(env, events, rule, 0, q) == o.(consumed := n + o.consumed)
  {
    hide ReadHeader, Find, AtBody;
  }

  lemma PartOfBody(m: Msg, q: Bytes)
    requires q <= MsgBytes(m) && |q| >= |m.head| + 2
    ensures q[|m.head| + 2..] <= m.body && q[..|m.head|] == m.head
  {
  }

  lemma FindInPart(m: Msg, q: Bytes)
    requires ValidMsg(m) && q <= MsgBytes(m) && |q| >= |m.head| + 2
    ensures Find(q, CRLFCRLF, 0) == |m.head| - 2
  {
    hide Find, ReadHeader;
    var h := m.head + CRLF;
    assert q == h + q[|h|..];
    FindStays(h, CRLFCRLF, q[|h|..]);
  }

  lemma {:induction false} NothingMore(env: Env, rule: Rule, l: Link, chunks: seq<Bytes>)
    requires l.pending == None && l.inBuf == [] && Concat(chunks) == []
    ensures DeliverAll(env, rule, l, chunks) == l
    decreases |chunks|
  {
    hide Handle, ReadHeader;
    if chunks != [] {
      assert |chunks[0]| + |Concat(chunks[1..])| == 0;
      assert chunks[0] == [];
      NothingFound();
      assert [] + chunks[0] == [] && l.events + [] == l.events;
      NothingMore(env, rule, l, chunks[1..]);
    }
  }

  lemma {:induction false} RestOfMessage(env: Env, rule: Rule, m: Msg, events: seq<Event>, p: Bytes, chunks: seq<Bytes>)
    requires ValidMsg(m) && p + Concat(chunks) == MsgBytes(m) && |p| < |MsgBytes(m)|
    ensures DeliverAll(env, rule, PartLink(m, events, p), chunks) == Answered(env, m, events)
    decreases |chunks|
  {
    hide Handle, ValidMsg, PartLink, Deliver, MsgBytes;
    assert chunks != [];
    var c, more := chunks[0], chunks[1..];
    Associative(p, c, Concat(more));
    DeliverPart(env, rule, m, events, p, c);
    if |p + c| < |MsgBytes(m)| {
      RestOfMessage(env, rule, m, events, p + c, more);
    } else {
      NothingMore(env, rule, Answered(env, m, events), more);
    }
  }

  /** The bytes of a request so far, fewer than all of them. */
  ghost predicate PartOf(p: Bytes, m: Msg) {
    p == [] || (ValidMsg(m) && p < MsgBytes(m))
  }

  lemma DeliverStart(env: Env, m: Msg, events: seq<Event>, p: Bytes)
    requires PartOf(p, m)
    ensures Deliver(env, HeaderOnly, Link(None, [], events, Kept), p) == PartLink(m, events, p)
  {
    hide Handle, ValidMsg, Deliver, MsgBytes;
    var l := Link(None, [], events, Kept);
    assert l == PartLink(m, events, []);
    if p == [] {
      LastRead(env, HeaderOnly, l, []);
      assert Concat([[]]) == [] + Concat([]);
      NothingMore(env, HeaderOnly, l, [[]]);
    } else {
      assert [] + p == p;
      DeliverPart(env, HeaderOnly, m, events, [], p);
    }
  }

  /**
   With the header alone dropped: for every list of requests, any part of the next one behind them, and every way the
   bytes arrive, the protocol has done what handling those requests one at a time does, in order, and is in the middle
   of the next one. So each request is handled once, with its last byte.
   */
  lemma RequestsInOrder(env: Env, ms: seq<Msg>, next: Msg, p: Bytes, chunks: seq<Bytes>)
    requires (forall m :: m in ms ==> ValidMsg(m)) && PartOf(p, next)
    requires Concat(chunks) == Stream(ms) + p
    ensures var l, s := DeliverAll(env, HeaderOnly, START, chunks), Serve(env, [], ms);
            if s.end == Kept then l == PartLink(next, s.events, p)
            else l.events == s.events && l.end == s.end && l.pending == None
  {
    hide Call, Serve, ValidMsg, PartOf, Deliver, Stream, PartLink;
    var s, two := Serve(env, [], ms), [Stream(ms), p];
    var first := Deliver(env, HeaderOnly, START, Stream(ms));
    WholeStream(env, ms);
    ConcatOne(p);
    assert two[1..] == [p];
    ChunkIndependence(env, chunks);
    ChunkIndependence(env, two);
    LastRead(env, HeaderOnly, first, p);
    if s.end == Kept {
      DeliverStart(env, next, s.events, p);
      PartKept(next, s.events, p);
    } else {
      OverStays(env, HeaderOnly, first, [p]);
    }
  }

  lemma PartKept(m: Msg, events: seq<Event>, p: Bytes)
    ensures PartLink(m, events, p).end == Kept
  {
  }

  /** The reads of a client that sends its next request only in a read of its own. */
  function Reads(parts: seq<seq<Bytes>>): (r: seq<Bytes>) {
    if parts == [] then [] else parts[0] + Reads(parts[1..])
  }

  /** The reads `parts[i]` bring request `ms[i]`, and nothing else. */
  ghost predicate Carry(parts: seq<seq<Bytes>>, ms: seq<Msg>) {
    |ms| == |parts| && forall i :: 0 <= i < |ms| ==> ValidMsg(ms[i]) && Concat(parts[i]) == MsgBytes(ms[i])
  }

  /** Reads after reads. */
  lemma {:induction false} DeliverAllAppend(env: Env, rule: Rule, l: Link, a: seq<Bytes>, b: seq<Bytes>, all: seq<Bytes>)
    requires all == a + b
    ensures DeliverAll(env, rule, l, all) == DeliverAll(env, rule, DeliverAll(env, rule, l, a), b)
    decreases |a|
  {
    hide Deliver;
    if a == [] {
      assert all == b;
    } else {
      assert all[0] == a[0];
      DeliverAllAppend(env, rule, Deliver(env, rule, l, a[0]), a[1..], b, all[1..]);
    }
  }

  lemma {:induction false} OverStays(env: Env, rule: Rule, l: Link, chunks: seq<Bytes>)
    requires l.end != Kept
    ensures DeliverAll(env, rule, l, chunks) == l
    decreases |chunks|
  {
    if chunks != [] {
      OverStays(env, rule, l, chunks[1..]);
    }
  }

  lemma FirstThenRest(env: Env, rule: Rule, events: seq<Event>, m: Msg, first: seq<Bytes>, rest: seq<Bytes>)
    requires ValidMsg(m) && Concat(first) == MsgBytes(m)
    ensures DeliverAll(env, rule, Link(None, [], events, Kept), first + rest) ==
            DeliverAll(env, rule, Answered(env, m, events), rest)
  {
    hide Handle, ValidMsg, DeliverAll, MsgBytes;
    MsgSize(m);
    assert PartLink(m, events, []) == Link(None, [], events, Kept);
    assert [] + Concat(first) == Concat(first);
    RestOfMessage(env, rule, m, events, [], first);
    DeliverAllAppend(env, rule, Link(None, [], events, Kept), first, rest, first + rest);
  }

  /**
   As the code stands: when no read spans two requests, every request is handled exactly as on its own, in
   order, however its own bytes were cut into reads.
   */
  lemma {:induction false} OneAfterTheOther(env: Env, rule: Rule, events: seq<Event>, ms: seq<Msg>, parts: seq<seq<Bytes>>)
    requires Carry(parts, ms)
    ensures var s := Serve(env, events, ms);
            DeliverAll(env, rule, Link(None, [], events, Kept), Reads(parts)) == Link(None, [], events + s.events, s.end)
    decreases |ms|
  {
    hide Handle, ValidMsg, DeliverAll, MsgBytes;
    var l := Link(None, [], events, Kept);
    if ms == [] {
      assert events + [] == events;
      NothingMore(env, rule, l, []);
    } else {
      var m := ms[0];
      FirstThenRest(env, rule, events, m, parts[0], Reads(parts[1..]));
      var r := Handle(env, events, m.header, m.body);
      if r.change == Keep {
        OneAfterTheOther(env, rule, events + r.events, ms[1..], parts[1..]);
        Associative(events, r.events, Serve(env, events + r.events, ms[1..]).events);
      } else {
        OverStays(env, rule, Answered(env, m, events), Reads(parts[1..]));
      }
    }
  }

  /** Parts of a message that do not complete it leave the link in the middle of it. */
  lemma {:induction false} PartOfMessage(env: Env, rule: Rule, m: Msg, events: seq<Event>, p: Bytes, chunks: seq<Bytes>)
    requires ValidMsg(m) && p + Concat(chunks) <= MsgBytes(m) && |p + Concat(chunks)| < |MsgBytes(m)|
    ensures DeliverAll(env, rule, PartLink(m, events, p), chunks) == PartLink(m, events, p + Concat(chunks))
    decreases |chunks|
  {
    hide Handle, ValidMsg, PartLink, Deliver, MsgBytes;
    if chunks == [] {
      assert p + [] == p;
    } else {
      var c, more := chunks[0], chunks[1..];
      Associative(p, c, Concat(more));
      DeliverPart(env, rule, m, events, p, c);
      PartOfMessage(env, rule, m, events, p + c, more);
    }
  }

  lemma {:induction false} ConcatNotEmpty(chunks: seq<Bytes>)
    requires chunks != [] && forall c :: c in chunks ==> c != []
    ensures Concat(chunks) != []
  {
    assert chunks[0] in chunks;
    assert |Concat(chunks)| >= |chunks[0]| > 0;
  }

  lemma ReadsOfOne(parts: seq<seq<Bytes>>)
    requires |parts| == 1
    ensures Reads(parts) == parts[0]
  {
    assert parts[1..] == [];
  }

  lemma WithinFirst(env: Env, rule: Rule, events: seq<Event>, m: Msg, first: seq<Bytes>, head: seq<Bytes>)
    requires ValidMsg(m) && Concat(first) == MsgBytes(m) && head < first
    requires forall c :: c in first ==> c != []
    ensures DeliverAll(env, rule, Link(None, [], events, Kept), head).end == Kept
  {
    hide Handle, ValidMsg, DeliverAll, MsgBytes;
    var tail := first[|head|..];
    MsgSize(m);
    assert PartLink(m, events, []) == Link(None, [], events, Kept);
    assert first == head + tail;
    ConcatAppend(head, tail);
    assert forall c :: c in tail ==> c in first;
    ConcatNotEmpty(tail);
    assert [] + Concat(head) == Concat(head);
    PartOfMessage(env, rule, m, events, [], head);
  }

  lemma FrontOfChain(env: Env, events: seq<Event>, ms: seq<Msg>)
    requires |ms| > 1 && Serve(env, events, ms[..|ms| - 1]).end == Kept
    ensures var r := Handle(env, events, ms[0].header, ms[0].body);
            r.change == Keep && Serve(env, events + r.events, ms[1..][..|ms[1..]| - 1]).end == Kept
  {
    hide Handle;
    var front := ms[..|ms| - 1];
    assert front[0] == ms[0] && front[1..] == ms[1..][..|ms[1..]| - 1];
  }

  /** As long as a non-empty read of the last request is missing, a chain of requests that keep the protocol keeps it. */
  lemma {:induction false} KeptUntilLast(env: Env, rule: Rule, events: seq<Event>, ms: seq<Msg>, parts: seq<seq<Bytes>>,
                                         prefix: seq<Bytes>)
    requires Carry(parts, ms) && ms != [] && prefix < Reads(parts)
    requires forall c :: c in Reads(parts) ==> c != []
    requires Serve(env, events, ms[..|ms| - 1]).end == Kept
    ensures DeliverAll(env, rule, Link(None, [], events, Kept), prefix).end == Kept
    decreases |ms|
  {
    hide Handle, ValidMsg, DeliverAll, MsgBytes;
    var m, first, later := ms[0], parts[0], Reads(parts[1..]);
    assert Reads(parts) == first + later;
    assert (forall c :: c in first ==> c in Reads(parts)) && (forall c :: c in later ==> c in Reads(parts));
    if |ms| == 1 {
      ReadsOfOne(parts);
    }
    if |prefix| < |first| {
      assert first == Reads(parts)[..|first|];
      WithinFirst(env, rule, events, m, first, prefix);
    } else {
      var rest := prefix[|first|..];
      assert prefix == first + rest && rest < later;
      FirstThenRest(env, rule, events, m, first, rest);
      var r := Handle(env, events, m.header, m.body);
      FrontOfChain(env, events, ms);
      KeptUntilLast(env, rule, events + r.events, ms[1..], parts[1..], rest);
    }
  }

  // ---- Responses are framed by the same rule ----

  /** Cutting a stream into messages by the rule of the protocol. */
  function Split(stream: Bytes): (r: (seq<(Header, Bytes)>, Bytes))
    decreases |stream|
  {
    var idx := Find(stream, CRLFCRLF, 0);
    if idx == -1 then ([], stream)
    else
      match ReadHeader(stream[..idx + 2])
      case Fail(_) => ([], stream)
      case Ok(h) =>
        var rest := stream[idx + 4..];
        if |rest| < h.contentLength then ([], stream)
        else
          var more := Split(rest[h.contentLength..]);
          ([(h, rest[..h.contentLength])] + more.0, more.1)
  }

  function PrintedAll(rs: seq<Response>): (s: Bytes) {
    if rs == [] then [] else Printed(rs[0]) + PrintedAll(rs[1..])
  }

  function Contents(rs: seq<Response>): (c: seq<(Header, Bytes)>)
    ensures |c| == |rs|
  {
    if rs == [] then [] else [(ReadBack(rs[0]), BodyOf(rs[0]))] + Contents(rs[1..])
  }

  /** Printed responses, one after the other, are cut apart again by the rule of the parser. */
  lemma {:induction false} ResponsesSplit(rs: seq<Response>)
    requires forall r :: r in rs ==> CleanResponse(r)
    ensures Split(PrintedAll(rs)) == (Contents(rs), [])
    decreases |rs|
  {
    hide Printed, ReadHeader, ReadBack, CleanResponse, Find;
    if rs == [] {
      NothingFound();
    } else {
      var r, rest := rs[0], PrintedAll(rs[1..]);
      ParsePrinted(r, rest);
      ReadBackLength(r);
      ResponsesSplit(rs[1..]);
      SplitFirst(Printed(r) + rest, |Head(r)|, ReadBack(r), BodyOf(r), rest);
    }
  }

  lemma SplitFirst(s: Bytes, n: nat, h: Header, body: Bytes, rest: Bytes)
    requires 2 <= n && n + 2 <= |s| && Find(s, CRLFCRLF, 0) == n - 2
    requires ReadHeader(s[..n]) == Ok(h) && h.contentLength == |body| && s[n + 2..] == body + rest
    ensures Split(s) == ([(h, body)] + Split(rest).0, Split(rest).1)
  {
    hide ReadHeader, Find;
    var t := s[n + 2..];
    Halves(body, rest);
    assert t[..h.contentLength] == body && t[h.contentLength..] == rest;
  }

  lemma ReadBackLength(r: Response)
    ensures ReadBack(r).contentLength == |BodyOf(r)|
  {
  }

  /** A printed response is a message in the sense of the request parser. */
  lemma PrintedIsMessage(r: Response)
    requires CleanResponse(r)
    ensures ValidMsg(Msg(Head(r), ReadBack(r), BodyOf(r)))
    ensures MsgBytes(Msg(Head(r), ReadBack(r), BodyOf(r))) == Printed(r)
  {
    hide Head, BodyOf, ReadHeader, ReadBack, CleanResponse, Find;
    assert Printed(r) + [] == Printed(r);
    ParsePrinted(r, []);
    ReadBackLength(r);
    HeadIsLong(r);
    FindInPrefix(Printed(r), CRLFCRLF, |Head(r)| + 2);
    assert Printed(r)[..|Head(r)| + 2] == Head(r) + CRLF;
  }

  lemma HeadIsLong(r: Response)
    ensures |Head(r)| >= 2
  {
  }

  /** Equal responses, but for the letter case of field names. */
  ghost predicate SameUpToCase(r: Response, q: Response) {
    && r.version == q.version && r.statusCode == q.statusCode && r.reason == q.reason
    && r.body == q.body && Lowered(r.fields) == Lowered(q.fields)
  }

  lemma ReadBackDetermines(r: Response, q: Response)
    requires CleanResponse(r) && CleanResponse(q)
    requires ReadBack(r) == ReadBack(q) && BodyOf(r) == BodyOf(q)
    ensures SameUpToCase(r, q)
  {
    hide CleanResponse, DecimalInt, Decimal, Lowered, ToLower, Lookup;
    DecimalIntInjective(r.statusCode, q.statusCode);
    SentLength(r);
    SentLength(q);
    SentLowered(r);
    SentLowered(q);
    assert r.body.Some? <==> q.body.Some?;
    if r.body.Some? {
      var last := Field(ToLower(CONTENT_LENGTH_NAME), Decimal(|r.body.value|));
      Halves(Lowered(r.fields), [last]);
      Halves(Lowered(q.fields), [last]);
    }
  }

  lemma SentLowered(r: Response)
    requires CleanResponse(r)
    ensures Lowered(SentFields(r)) == if r.body.None? then Lowered(r.fields)
                                      else Lowered(r.fields) + [Field(ToLower(CONTENT_LENGTH_NAME), Decimal(|r.body.value|))]
  {
    hide ToLower, Lowered, Lookup, Decimal, CleanField;
    ContentLengthField(|BodyOf(r)|);
    if Lookup(r.fields, CONTENT_LENGTH_NAME).Some? {
      LookupSome(r.fields, CONTENT_LENGTH_NAME);
    }
    if r.body.Some? {
      LoweredAppend(r.fields, Field(CONTENT_LENGTH_NAME, Decimal(|r.body.value|)));
    }
  }

  lemma {:induction false} ContentsAt(rs: seq<Response>, i: nat)
    requires i < |rs|
    ensures Contents(rs)[i] == (ReadBack(rs[i]), BodyOf(rs[i]))
  {
    hide ReadBack, BodyOf;
    if i > 0 {
      ContentsAt(rs[1..], i - 1);
    }
  }

  /** So the bytes determine the responses, up to the letter case of field names. */
  lemma SplitIsUnique(rs: seq<Response>, qs: seq<Response>)
    requires forall r :: r in rs ==> CleanResponse(r)
    requires forall r :: r in qs ==> CleanResponse(r)
    requires PrintedAll(rs) == PrintedAll(qs)
    ensures |rs| == |qs| && forall i :: 0 <= i < |rs| ==> SameUpToCase(rs[i], qs[i])
  {
    hide CleanResponse, Split, SameUpToCase, ReadBack, BodyOf, Contents, PrintedAll;
    ResponsesSplit(rs);
    ResponsesSplit(qs);
    assert |rs| == |Contents(rs)| == |qs|;
    forall i | 0 <= i < |rs|
      ensures SameUpToCase(rs[i], qs[i])
    {
      ContentsAt(rs, i);
      ContentsAt(qs, i);
      ReadBackDetermines(rs[i], qs[i]);
    }
  }
}
