/** Line 103 of HttpProtocol.cpp, as written and as it is meant. */
module HttpSlicing {
  import opened Bytes
  import opened Text
  import opened Requests
  import opened Responses
  import opened Http
  import opened HttpRuns

  /**
   Behind a header the running total of the call is dropped (`RunningTotal`) instead of the header that was just read
   (`HeaderOnly`). A later header of a call: `done` bytes were consumed before it, `rest` is what
   stands behind it.
   */
  datatype Later = Later(done: nat, header: Header, rest: Bytes)

  /** The next header of a call, when there is one that parses. */
  function NextHeader(done: nat, view: Bytes): (r: Option<Later>)
    ensures r.Some? ==> r.value.done == done && |r.value.rest| <= |view|
  {
    var idx := Find(view, CRLFCRLF, 0);
    if idx == -1 then None
    else
      match ReadHeader(view[..idx + 2])
      case Fail(_) => None
      case Ok(h) => Some(Later(done, h, view[idx + 4..]))
  }

  /** Line 103 leaves the right bytes exactly when nothing was consumed before the header in this call. */
  lemma SliceIsRightIff(done: nat, idx: nat, view: Bytes)
    requires idx + 4 <= |view|
    ensures (done + idx + 4 <= |view| && view[done + idx + 4..] == view[idx + 4..]) <==> done == 0
  {
    if done + idx + 4 <= |view| {
      assert |view[done + idx + 4..]| == |view| - done - idx - 4;
    }
  }

  /** The outcome for a header of `n` bytes, given the outcome behind it. */
  function Behind(n: nat, o: Outcome): (r: Outcome) {
    o.(consumed := n + o.consumed)
  }

  /**
   What line 103 does to any header of a call: with fewer bytes behind it than were consumed before it the request is
   refused with 500, else as many bytes as that are skipped in front of its body.
   */
  lemma AsWritten(env: Env, seen: seq<Event>, done: nat, view: Bytes)
    ensures var s, o := NextHeader(done, view), Scan(env, seen, RunningTotal, done, view);
            && (s.None? ==> o == Scan(env, seen, HeaderOnly, done, view))
            && (s.Some? ==>
                  var h, rest := s.value.header, s.value.rest;
                  var n := |view| - |rest|;
                  o == if |rest| < done then Outcome(Some(h), n, [Refused(500)], Dropped)
                       else Behind(n, AtBody(env, seen, RunningTotal, done + n, h, rest[done..])))
  {
    hide ReadHeader, Handle, Find, AtBody;
    var idx := Find(view, CRLFCRLF, 0);
    FoundWithin(view, CRLFCRLF);
    if idx != -1 && ReadHeader(view[..idx + 2]).Ok? && done + idx + 4 <= |view| {
      SliceOfSuffix(view, idx + 4, 0, done);
      assert view[idx + 4..][done..] == view[done + idx + 4..];
    }
  }

  /** What it is meant to do. */
  lemma AsMeant(env: Env, seen: seq<Event>, done: nat, view: Bytes)
    requires NextHeader(done, view).Some?
    ensures var s := NextHeader(done, view).value;
            var n := |view| - |s.rest|;
            4 <= n <= |view| && Scan(env, seen, HeaderOnly, done, view) == Behind(n, AtBody(env, seen, HeaderOnly, done + n, s.header, s.rest))
  {
    hide ReadHeader, Handle, Find, AtBody;
    FoundWithin(view, CRLFCRLF);
  }

  lemma BehindSame(n: nat, a: Outcome, b: Outcome)
    ensures Behind(n, a) == Behind(n, b) <==> a == b
  {
  }

  /**
   A header whose body is not complete yet: written and meant agree exactly when at least as many bytes stand behind
   the header as were consumed before it.
   */
  lemma WaitingIff(env: Env, seen: seq<Event>, done: nat, view: Bytes)
    requires NextHeader(done, view).Some? ==> |NextHeader(done, view).value.rest| < NextHeader(done, view).value.header.contentLength
    ensures var s := NextHeader(done, view);
            && (Scan(env, seen, RunningTotal, done, view) == Scan(env, seen, HeaderOnly, done, view)
                <==> s.None? || done <= |s.value.rest|)
            && (s.Some? && done > |s.value.rest| ==>
                  && Scan(env, seen, RunningTotal, done, view).end == Dropped
                  && Scan(env, seen, RunningTotal, done, view).pending.Some?
                  && Scan(env, seen, HeaderOnly, done, view).end == Kept)
  {
    hide Scan, NextHeader, Handle;
    AsWritten(env, seen, done, view);
    if NextHeader(done, view).Some? {
      AsMeant(env, seen, done, view);
    }
  }

  // ---- A complete body behind a later header ----

  /** The first event of handling a request determines all the rest. */
  function FromFirst(env: Env, seen: seq<Event>, first: Event): (r: Handled) {
    match first
    case Refused(code) => RefuseCode(code)
    case Routed(request) => Answer(env, seen, request, false)
    case _ => Handled([first], Switch)
  }

  lemma HandleFromFirst(env: Env, seen: seq<Event>, h: Header, body: Bytes)
    ensures var r := Handle(env, seen, h, body); r.events != [] && r == FromFirst(env, seen, r.events[0])
  {
    hide Prepare, WantsUpgrade;
  }

  lemma HandleStarts(env: Env, seen: seq<Event>, h: Header, a: Bytes, b: Bytes, x: seq<Event>, y: seq<Event>)
    requires Handle(env, seen, h, a).events + x == Handle(env, seen, h, b).events + y
    ensures Handle(env, seen, h, a) == Handle(env, seen, h, b) && x == y
  {
    hide Handle, FromFirst;
    HandleFromFirst(env, seen, h, a);
    HandleFromFirst(env, seen, h, b);
    var p, q := Handle(env, seen, h, a).events, Handle(env, seen, h, b).events;
    assert p[0] == (p + x)[0] && q[0] == (q + y)[0];
    Halves(p, x);
    Halves(q, y);
  }

  /** The calls agree after a complete body exactly when the shifted body leads to the same, and what follows too. */
  ghost predicate Coincide(env: Env, seen: seq<Event>, s: Later, pos: nat) {
    var n := s.header.contentLength;
    && s.done + n <= |s.rest|
    && var r := Handle(env, seen, s.header, s.rest[s.done..s.done + n]);
       && r == Handle(env, seen, s.header, s.rest[..n])
       && (r.change == Keep ==>
             Scan(env, seen + r.events, RunningTotal, pos, s.rest[s.done + n..]) ==
             Scan(env, seen + r.events, HeaderOnly, pos, s.rest[n..]))
  }

  /** No call that handles a request ends with the header of that request pending and nothing more done. */
  lemma MeantHandles(env: Env, seen: seq<Event>, done: nat, h: Header, view: Bytes)
    requires |view| >= h.contentLength
    ensures var o := AtBody(env, seen, HeaderOnly, done, h, view);
            o.events != [] && (o.end == Dropped ==> o.pending == None)
  {
    hide Scan, Handle;
    BodyCases(env, seen, HeaderOnly, done, h, view);
    var n := h.contentLength;
    HandleFromFirst(env, seen, h, view[..n]);
    ScanDropped(env, seen + Handle(env, seen, h, view[..n]).events, done + n, view[n..]);
  }

  /** As it is meant to work, a dropped protocol has no header pending. */
  lemma {:induction false} ScanDropped(env: Env, seen: seq<Event>, done: nat, view: Bytes)
    ensures Scan(env, seen, HeaderOnly, done, view).end == Dropped ==> Scan(env, seen, HeaderOnly, done, view).pending == None
    decreases |view|, 0
  {
    hide ReadHeader, Handle, Find, Scan, AtBody;
    ScanCases(env, seen, HeaderOnly, done, view);
    var idx := Find(view, CRLFCRLF, 0);
    if idx != -1 && ReadHeader(view[..idx + 2]).Ok? {
      BodyDropped(env, seen, done + idx + 4, ReadHeader(view[..idx + 2]).value, view[idx + 4..]);
    }
  }

  lemma {:induction false} BodyDropped(env: Env, seen: seq<Event>, done: nat, h: Header, view: Bytes)
    ensures AtBody(env, seen, HeaderOnly, done, h, view).end == Dropped ==>
              AtBody(env, seen, HeaderOnly, done, h, view).pending == None
    decreases |view|, 1
  {
    hide Handle, Scan, AtBody;
    BodyCases(env, seen, HeaderOnly, done, h, view);
    var n := h.contentLength;
    if |view| >= n {
      ScanDropped(env, seen + Handle(env, seen, h, view[..n]).events, done + n, view[n..]);
    }
  }

  /** A header whose body is complete, with something consumed before it: they agree exactly by that coincidence. */
  lemma CompleteIff(env: Env, seen: seq<Event>, done: nat, view: Bytes)
    requires done > 0 && NextHeader(done, view).Some?
    requires |NextHeader(done, view).value.rest| >= NextHeader(done, view).value.header.contentLength
    ensures var s := NextHeader(done, view).value;
            Scan(env, seen, RunningTotal, done, view) == Scan(env, seen, HeaderOnly, done, view)
            <==> Coincide(env, seen, s, done + |view| - |s.rest| + s.header.contentLength)
  {
    hide Scan, NextHeader, Handle, AtBody, Coincide;
    var s := NextHeader(done, view).value;
    var p, n := |view| - |s.rest|, s.header.contentLength;
    AsWritten(env, seen, done, view);
    AsMeant(env, seen, done, view);
    MeantHandles(env, seen, done + p, s.header, s.rest);
    if done > |s.rest| {
      TooFew(env, seen, s, done + p + n);
    } else {
      BehindSame(p, AtBody(env, seen, RunningTotal, done + p, s.header, s.rest[done..]),
                 AtBody(env, seen, HeaderOnly, done + p, s.header, s.rest));
      BodiesIff(env, seen, s, done + p);
    }
  }

  lemma TooFew(env: Env, seen: seq<Event>, s: Later, pos: nat)
    requires s.done > |s.rest|
    ensures !Coincide(env, seen, s, pos)
  {
  }

  lemma BodiesIff(env: Env, seen: seq<Event>, s: Later, pos: nat)
    requires 0 < s.done <= |s.rest| && |s.rest| >= s.header.contentLength
    ensures AtBody(env, seen, RunningTotal, pos, s.header, s.rest[s.done..]) == AtBody(env, seen, HeaderOnly, pos, s.header, s.rest)
            <==> Coincide(env, seen, s, pos + s.header.contentLength)
  {
    hide Scan, Handle, AtBody;
    var h, n, late := s.header, s.header.contentLength, s.rest[s.done..];
    MeantHandles(env, seen, pos, h, s.rest);
    BodyCases(env, seen, RunningTotal, pos, h, late);
    BodyCases(env, seen, HeaderOnly, pos, h, s.rest);
    if |late| >= n {
      SliceOfSuffix(s.rest, s.done, 0, n);
      var a, b := Handle(env, seen, h, late[..n]), Handle(env, seen, h, s.rest[..n]);
      HandleFromFirst(env, seen, h, late[..n]);
      HandleFromFirst(env, seen, h, s.rest[..n]);
      var x, y := AtBody(env, seen, RunningTotal, pos, h, late), AtBody(env, seen, HeaderOnly, pos, h, s.rest);
      if x.events == y.events {
        var x1 := if a.change == Keep then Scan(env, seen + a.events, RunningTotal, pos + n, late[n..]).events else [];
        var y1 := if b.change == Keep then Scan(env, seen + b.events, HeaderOnly, pos + n, s.rest[n..]).events else [];
        assert a.events + [] == a.events && b.events + [] == b.events;
        HandleStarts(env, seen, h, late[..n], s.rest[..n], x1, y1);
      }
    }
  }

  // ---- No further header behind it ----

  lemma NothingInSuffix(s: Bytes, k: nat)
    requires Find(s, CRLFCRLF, 0) == -1 && k <= |s|
    ensures Find(s[k..], CRLFCRLF, 0) == -1
  {
    FindSuffix(s, CRLFCRLF, k);
  }

  lemma NoHeaderScan(env: Env, seen: seq<Event>, rule: Rule, done: nat, view: Bytes)
    requires Find(view, CRLFCRLF, 0) == -1
    ensures Scan(env, seen, rule, done, view) == Outcome(None, 0, [], Kept)
  {
    hide Find, ReadHeader, AtBody;
  }

  /** The header is the last one in view: its body is still to come, or no header ends behind it. */
  predicate IsLast(s: Later) {
    |s.rest| >= s.header.contentLength ==> Find(s.rest[s.header.contentLength..], CRLFCRLF, 0) == -1
  }

  /**
   As many bytes stand behind the header as were consumed before it; and if its body is there, one that starts that
   many bytes later is there, too, and leads to the same.
   */
  predicate SliceHarmless(env: Env, seen: seq<Event>, s: Later) {
    var n := s.header.contentLength;
    s.done <= |s.rest| &&
    (|s.rest| >= n ==>
       && s.done + n <= |s.rest|
       && Handle(env, seen, s.header, s.rest[s.done..s.done + n]) == Handle(env, seen, s.header, s.rest[..n]))
  }

  lemma LastCoincides(env: Env, seen: seq<Event>, s: Later, pos: nat)
    requires IsLast(s) && |s.rest| >= s.header.contentLength
    ensures Coincide(env, seen, s, pos) <==> SliceHarmless(env, seen, s)
  {
    hide Scan, Handle, Find;
    var n := s.header.contentLength;
    if s.done + n <= |s.rest| {
      var behind, seen2 := s.rest[n..], seen + Handle(env, seen, s.header, s.rest[..n]).events;
      NothingInSuffix(behind, s.done);
      SliceOfSuffix(s.rest, n, 0, s.done);
      NoHeaderScan(env, seen2, RunningTotal, pos, s.rest[s.done + n..]);
      NoHeaderScan(env, seen2, HeaderOnly, pos, behind);
    }
  }

  /** Nothing consumed before the last header: the slice is right. */
  lemma FirstIsRight(env: Env, seen: seq<Event>, view: Bytes)
    requires NextHeader(0, view).Some? && IsLast(NextHeader(0, view).value)
    ensures Scan(env, seen, RunningTotal, 0, view) == Scan(env, seen, HeaderOnly, 0, view)
  {
    hide Scan, NextHeader, Handle, AtBody, Find;
    var s := NextHeader(0, view).value;
    var p, n := |view| - |s.rest|, s.header.contentLength;
    AsWritten(env, seen, 0, view);
    AsMeant(env, seen, 0, view);
    assert s.rest[0..] == s.rest;
    BodyCases(env, seen, RunningTotal, p, s.header, s.rest);
    BodyCases(env, seen, HeaderOnly, p, s.header, s.rest);
    if |s.rest| >= n {
      var seen2 := seen + Handle(env, seen, s.header, s.rest[..n]).events;
      NoHeaderScan(env, seen2, RunningTotal, p + n, s.rest[n..]);
      NoHeaderScan(env, seen2, HeaderOnly, p + n, s.rest[n..]);
    }
  }

  lemma ScanRightIff(env: Env, seen: seq<Event>, done: nat, view: Bytes)
    requires NextHeader(done, view).Some? ==> IsLast(NextHeader(done, view).value)
    ensures Scan(env, seen, RunningTotal, done, view) == Scan(env, seen, HeaderOnly, done, view)
            <==> NextHeader(done, view).None? || SliceHarmless(env, seen, NextHeader(done, view).value)
  {
    hide Scan, NextHeader, Handle, Find, Coincide;
    if NextHeader(done, view).None? {
      AsWritten(env, seen, done, view);
    } else {
      var s := NextHeader(done, view).value;
      if |s.rest| < s.header.contentLength {
        WaitingIff(env, seen, done, view);
      } else if done == 0 {
        FirstIsRight(env, seen, view);
        assert s.rest[0..s.header.contentLength] == s.rest[..s.header.contentLength];
      } else {
        CompleteIff(env, seen, done, view);
        LastCoincides(env, seen, s, done + |view| - |s.rest| + s.header.contentLength);
      }
    }
  }

  // ---- Whole calls ----

  /** What the first request of a call led to and the bytes behind it, when it was complete and the loop goes on. */
  function AfterFirst(env: Env, seen: seq<Event>, pending: Option<Header>, view: Bytes): (r: Option<(seq<Event>, Bytes)>)
    ensures r.Some? ==> |r.value.1| <= |view|
  {
    match pending
    case Some(h) => AfterBody(env, seen, h, view)
    case None =>
      match NextHeader(0, view)
      case None => None
      case Some(s) => AfterBody(env, seen, s.header, s.rest)
  }

  function AfterBody(env: Env, seen: seq<Event>, h: Header, view: Bytes): (r: Option<(seq<Event>, Bytes)>)
    ensures r.Some? ==> |r.value.1| <= |view|
  {
    if |view| < h.contentLength then None
    else
      var r := Handle(env, seen, h, view[..h.contentLength]);
      if r.change != Keep then None else Some((r.events, view[h.contentLength..]))
  }

  /** The second header that ends in a call, when there is one. */
  function Second(env: Env, seen: seq<Event>, pending: Option<Header>, view: Bytes): (r: Option<Later>) {
    match AfterFirst(env, seen, pending, view)
    case None => None
    case Some((_, rest)) => NextHeader(|view| - |rest|, rest)
  }

  lemma CallFirst(env: Env, seen: seq<Event>, pending: Option<Header>, view: Bytes, rule: Rule)
    ensures var first, o := AfterFirst(env, seen, pending, view), Call(env, seen, rule, 0, pending, view);
            match first
            case None => o == Call(env, seen, HeaderOnly, 0, pending, view)
            case Some((events, rest)) =>
              var n := |view| - |rest|;
              var more := Scan(env, seen + events, rule, n, rest);
              o == Outcome(more.pending, n + more.consumed, events + more.events, more.end)
  {
    hide Scan, NextHeader, Handle, AtBody;
    match pending
    case Some(h) =>
      BodyCases(env, seen, rule, 0, h, view);
      BodyCases(env, seen, HeaderOnly, 0, h, view);
    case None =>
      AsWritten(env, seen, 0, view);
      if NextHeader(0, view).Some? {
        var s := NextHeader(0, view).value;
        var p := |view| - |s.rest|;
        AsMeant(env, seen, 0, view);
        assert s.rest[0..] == s.rest;
        BodyCases(env, seen, rule, p, s.header, s.rest);
        BodyCases(env, seen, HeaderOnly, p, s.header, s.rest);
      }
  }

  lemma CallSameIff(env: Env, seen: seq<Event>, pending: Option<Header>, view: Bytes)
    ensures var first := AfterFirst(env, seen, pending, view);
            Call(env, seen, RunningTotal, 0, pending, view) == Call(env, seen, HeaderOnly, 0, pending, view)
            <==> (first.None? ||
                  var (events, rest) := first.value;
                  Scan(env, seen + events, RunningTotal, |view| - |rest|, rest)
                  == Scan(env, seen + events, HeaderOnly, |view| - |rest|, rest))
  {
    hide Scan, AfterFirst, Call;
    CallFirst(env, seen, pending, view, RunningTotal);
    CallFirst(env, seen, pending, view, HeaderOnly);
    match AfterFirst(env, seen, pending, view)
    case None =>
    case Some((events, rest)) =>
      var n := |view| - |rest|;
      Halves(events, Scan(env, seen + events, RunningTotal, n, rest).events);
      Halves(events, Scan(env, seen + events, HeaderOnly, n, rest).events);
  }

  /** No third header ends in the call. */
  predicate TwoHeaders(env: Env, seen: seq<Event>, pending: Option<Header>, view: Bytes) {
    var s := Second(env, seen, pending, view);
    s.Some? ==> IsLast(s.value)
  }

  /**
   A call in which no third header ends does what it is meant to do if and only if the slice behind the second header,
   where there is one, is harmless.
   */
  lemma CallRightIff(env: Env, seen: seq<Event>, pending: Option<Header>, view: Bytes)
    requires TwoHeaders(env, seen, pending, view)
    ensures var s := Second(env, seen, pending, view);
            Call(env, seen, RunningTotal, 0, pending, view) == Call(env, seen, HeaderOnly, 0, pending, view)
            <==> s.None? || SliceHarmless(env, seen + AfterFirst(env, seen, pending, view).value.0, s.value)
  {
    hide Scan, AfterFirst, Call, NextHeader, SliceHarmless, IsLast;
    CallSameIff(env, seen, pending, view);
    match AfterFirst(env, seen, pending, view)
    case None =>
    case Some((events, rest)) =>
      ScanRightIff(env, seen + events, |view| - |rest|, rest);
  }

  /** The body of a second request is still to come, or it has none and no third header ends behind it. */
  predicate NoSecondBody(env: Env, seen: seq<Event>, pending: Option<Header>, view: Bytes) {
    var s := Second(env, seen, pending, view);
    s.Some? ==> |s.value.rest| < s.value.header.contentLength ||
                (s.value.header.contentLength == 0 && Find(s.value.rest, CRLFCRLF, 0) == -1)
  }

  /** As many bytes stand behind a second header as were consumed before it. */
  predicate EnoughBehind(env: Env, seen: seq<Event>, pending: Option<Header>, view: Bytes) {
    var s := Second(env, seen, pending, view);
    s.Some? ==> s.value.done <= |s.value.rest|
  }

  lemma BodilessHarmless(env: Env, seen: seq<Event>, s: Later)
    requires |s.rest| < s.header.contentLength ||
             (s.header.contentLength == 0 && Find(s.rest, CRLFCRLF, 0) == -1)
    ensures IsLast(s) && (SliceHarmless(env, seen, s) <==> s.done <= |s.rest|)
  {
    hide Handle, Find;
    assert s.rest[0..] == s.rest;
    assert s.done <= |s.rest| ==> s.rest[s.done..s.done + 0] == [] == s.rest[..0];
  }

  /**
   With no second body in the call, it is right if and only if as many bytes stand behind the second header as were
   consumed before it; otherwise it refuses that request and ends the protocol.
   */
  lemma BodilessRightIff(env: Env, seen: seq<Event>, pending: Option<Header>, view: Bytes)
    requires NoSecondBody(env, seen, pending, view)
    ensures var written, meant := Call(env, seen, RunningTotal, 0, pending, view), Call(env, seen, HeaderOnly, 0, pending, view);
            && (written == meant <==> EnoughBehind(env, seen, pending, view))
            && (written != meant ==> written.end == Dropped && written.pending.Some?)
  {
    hide Scan, AfterFirst, Call, NextHeader, SliceHarmless, IsLast;
    match AfterFirst(env, seen, pending, view)
    case None =>
      CallRightIff(env, seen, pending, view);
    case Some((events, rest)) =>
      var n := |view| - |rest|;
      if NextHeader(n, rest).Some? {
        BodilessHarmless(env, seen + events, NextHeader(n, rest).value);
      }
      CallRightIff(env, seen, pending, view);
      CallFirst(env, seen, pending, view, RunningTotal);
      AsWritten(env, seen + events, n, rest);
  }

  /**
   With a third header behind a complete second body the two ways of reading part for good: the call is right only if
   the shifted second body leads to the same, and what is read behind it does, too, though it starts elsewhere.
   */
  lemma CallRightByCoincidenceIff(env: Env, seen: seq<Event>, pending: Option<Header>, view: Bytes)
    requires Second(env, seen, pending, view).Some? && Second(env, seen, pending, view).value.done > 0
    requires var s := Second(env, seen, pending, view).value; |s.rest| >= s.header.contentLength
    ensures var s := Second(env, seen, pending, view).value;
            Call(env, seen, RunningTotal, 0, pending, view) == Call(env, seen, HeaderOnly, 0, pending, view)
            <==> Coincide(env, seen + AfterFirst(env, seen, pending, view).value.0, s, |view| - |s.rest| + s.header.contentLength)
  {
    hide Scan, AfterFirst, Call, NextHeader, Coincide;
    CallSameIff(env, seen, pending, view);
    var (events, rest) := AfterFirst(env, seen, pending, view).value;
    CompleteIff(env, seen + events, |view| - |rest|, rest);
  }

  // ---- Whole runs ----

  /** In no call of the run as it is meant is there a second body, or a third header. */
  ghost predicate NoSecondBodyEach(env: Env, l: Link, chunks: seq<Bytes>)
    decreases |chunks|
  {
    chunks != [] ==>
      && (l.end == Kept ==> NoSecondBody(env, l.events, l.pending, l.inBuf + chunks[0]))
      && NoSecondBodyEach(env, Deliver(env, HeaderOnly, l, chunks[0]), chunks[1..])
  }

  ghost predicate EnoughBehindEach(env: Env, l: Link, chunks: seq<Bytes>)
    decreases |chunks|
  {
    chunks != [] ==>
      && (l.end == Kept ==> EnoughBehind(env, l.events, l.pending, l.inBuf + chunks[0]))
      && EnoughBehindEach(env, Deliver(env, HeaderOnly, l, chunks[0]), chunks[1..])
  }

  lemma CallDropped(env: Env, seen: seq<Event>, pending: Option<Header>, view: Bytes)
    ensures Call(env, seen, HeaderOnly, 0, pending, view).end == Dropped ==>
              Call(env, seen, HeaderOnly, 0, pending, view).pending == None
  {
    hide Scan, AtBody;
    ScanDropped(env, seen, 0, view);
    if pending.Some? {
      BodyDropped(env, seen, 0, pending.value, view);
    }
  }

  lemma {:induction false} RunDropped(env: Env, l: Link, chunks: seq<Bytes>)
    requires l.end == Dropped ==> l.pending == None
    ensures var r := DeliverAll(env, HeaderOnly, l, chunks); r.end == Dropped ==> r.pending == None
    decreases |chunks|
  {
    hide Call;
    if chunks != [] {
      if l.end == Kept {
        CallDropped(env, l.events, l.pending, l.inBuf + chunks[0]);
      }
      RunDropped(env, Deliver(env, HeaderOnly, l, chunks[0]), chunks[1..]);
    }
  }

  /**
   As the code stands: a run in which no read brings a second body, or a third header, is as it is meant to be if and
   only if every read that completes two headers brings as many bytes behind the second as it consumed before it.
   */
  lemma {:induction false} RunRightIff(env: Env, l: Link, chunks: seq<Bytes>)
    requires l.end == Dropped ==> l.pending == None
    requires NoSecondBodyEach(env, l, chunks)
    ensures DeliverAll(env, RunningTotal, l, chunks) == DeliverAll(env, HeaderOnly, l, chunks)
            <==> EnoughBehindEach(env, l, chunks)
    decreases |chunks|
  {
    hide NoSecondBody, EnoughBehind, Call;
    if chunks != [] {
      var view, m := l.inBuf + chunks[0], Deliver(env, HeaderOnly, l, chunks[0]);
      if l.end == Kept {
        BodilessRightIff(env, l.events, l.pending, view);
        CallDropped(env, l.events, l.pending, view);
      }
      RunRightIff(env, m, chunks[1..]);
      if l.end == Kept && !EnoughBehind(env, l.events, l.pending, view) {
        OverStays(env, RunningTotal, Deliver(env, RunningTotal, l, chunks[0]), chunks[1..]);
        RunDropped(env, m, chunks[1..]);
      }
    }
  }

  // ---- Two requests in one read ----

  lemma HeadFound(done: nat, head: Bytes, h: Header, rest: Bytes)
    requires ValidHead(head, h)
    ensures NextHeader(done, head + CRLF + rest) == Some(Later(done, h, rest))
  {
    hide ReadHeader, Find;
    FindStays(head + CRLF, CRLFCRLF, rest);
    var s := head + CRLF + rest;
    assert s[..|head|] == head && s[|head| + 2..] == rest;
  }

  /**
   As the code stands, a request that keeps the connection, the head of a second one and any bytes behind it in one
   read: with fewer of those bytes than the first request has, the second is refused with 500; otherwise the second
   gets a body that starts that many bytes too late.
   */
  lemma SecondInOneRead(env: Env, seen: seq<Event>, m: Msg, head: Bytes, h: Header, rest: Bytes)
    requires ValidMsg(m) && ValidHead(head, h)
    requires Handle(env, seen, m.header, m.body).change == Keep
    ensures var o := Call(env, seen, RunningTotal, 0, None, MsgBytes(m) + (head + CRLF + rest));
            var first, w := Handle(env, seen, m.header, m.body).events, |MsgBytes(m)|;
            var n := w + |head| + 2;
            if |rest| < w then o == Outcome(Some(h), n, first + [Refused(500)], Dropped)
            else
              var late := AtBody(env, seen + first, RunningTotal, n, h, rest[w..]);
              o == Outcome(late.pending, n + late.consumed, first + late.events, late.end)
  {
    hide Handle, MsgBytes, Call, ValidMsg, NextHeader, Scan, AtBody, ValidHead;
    var w, x := MsgBytes(m), head + CRLF + rest;
    MessageFirst(env, seen, m, x);
    CallFirst(env, seen, None, w + x, RunningTotal);
    var events := Handle(env, seen, m.header, m.body).events;
    HeadFound(|w|, head, h, rest);
    AsWritten(env, seen + events, |w|, x);
  }

  lemma MessageFirst(env: Env, seen: seq<Event>, m: Msg, x: Bytes)
    requires ValidMsg(m) && Handle(env, seen, m.header, m.body).change == Keep
    ensures AfterFirst(env, seen, None, MsgBytes(m) + x) == Some((Handle(env, seen, m.header, m.body).events, x))
  {
    hide Handle, Find, ReadHeader, MsgBytes;
    MsgFrame(m, x);
    MsgSize(m);
  }

  // ---- An input ----

  /** A server that answers everything, and whose moved-from strings are empty. */
  const ANSWERING := Env((_, _) => Some([]), (_, _) => None, _ => [])

  /** A request without content type and connection field is dispatched as it is, and the response is sent. */
  lemma PlainRequestIsAnswered(env: Env, seen: seq<Event>, h: Header, body: Bytes)
    requires Lookup(h.fields, CONTENT_TYPE) == None && Lookup(h.fields, CONNECTION) == None
    requires env.route(seen, Request(h, body)).Some?
    ensures Handle(env, seen, h, body) ==
            Handled([Routed(Request(h, body)), Sent(env.route(seen, Request(h, body)).value)],
                    if env.movedVersion(Request(h, body)) == HTTP_1_0 then Drop else Keep)
  {
  }

  /** A request of one line, as a response that is printed with the parts in its places. */
  function Get(version: Bytes): (r: Response) {
    Response(Ascii("GET"), 1, version, [], None)
  }

  function GetText(version: Bytes): (s: Bytes) {
    Ascii("GET 1 ") + version + CRLF + CRLF
  }

  lemma GetIsMessage(version: Bytes)
    requires OneLine(version)
    ensures var r := Get(version);
            var m := Msg(Head(r), ReadBack(r), BodyOf(r));
            && ValidMsg(m) && MsgBytes(m) == GetText(version) && m.body == []
            && m.header.version == version && m.header.fields == [] && m.header.contentLength == 0
  {
    hide Find, ReadHeader, MsgBytes, ValidMsg;
    var r := Get(version);
    assert Decimal(1) == [49];
    assert StatusLine(r) == Ascii("GET 1 ") + version;
    assert Lines(FieldLines([])) == [];
    assert CleanResponse(r);
    PrintedIsMessage(r);
  }

  /**
   Two GET requests of one line each in one read: the first is answered, the second refused with 500. There is no
   second body and no third header, only too few bytes behind the second one.
   */
  lemma PipelinedGets()
    ensures var get := GetText(Ascii("HTTP/1.1"));
            var o := Call(ANSWERING, [], RunningTotal, 0, None, get + get);
            NoSecondBody(ANSWERING, [], None, get + get) && !EnoughBehind(ANSWERING, [], None, get + get) &&
            o.end == Dropped && |o.events| == 3 && o.events[0].Routed? && o.events[1] == Sent([]) && o.events[2] == Refused(500)
  {
    hide Call, Head, ReadBack, BodyOf, ValidHead, ReadHeader, Find;
    var r := Get(Ascii("HTTP/1.1"));
    var m := Msg(Head(r), ReadBack(r), BodyOf(r));
    GetIsMessage(r.reason);
    NotHttp10();
    PlainRequestIsAnswered(ANSWERING, [], m.header, m.body);
    MsgSize(m);
    assert MsgBytes(m) == m.head + CRLF + [];
    SecondInOneRead(ANSWERING, [], m, m.head, m.header, []);
    MessageFirst(ANSWERING, [], m, MsgBytes(m));
    HeadFound(|MsgBytes(m)|, m.head, m.header, []);
    NothingFound();
  }

  lemma NotHttp10()
    ensures HTTP_1_0 != []
  {
    assert |HTTP_1_0| == 8;
  }
}
