/** The loop of onDataReceived turn by turn (HttpProtocol.cpp:94-186). */
module HttpTurns {
  import opened Bytes
  import opened Text
  import opened Requests
  import opened Http
  import opened HttpRuns

  /**
   The state at the head of the loop, line 103 as written; `consumed` counts within the call. Which turns make progress,
   and that a call that is `Stuck` is one whose loop never ends, is proved of this loop.
   */
  datatype Loop = Loop(pending: Option<Header>, consumed: nat, view: Bytes, events: seq<Event>)

  datatype Turned = Again(next: Loop) | Over(outcome: Outcome)

  /** One turn: a header if none is pending, then its body and what the request leads to. A 400 goes on. */
  function Turn(env: Env, l: Loop): (t: Turned) {
    match l.pending
    case Some(h) => TurnBody(env, l, h)
    case None =>
      var idx := Find(l.view, CRLFCRLF, 0);
      if idx == -1 then Over(Outcome(None, l.consumed, l.events, Kept))
      else
        match ReadHeader(l.view[..idx + 2])
        case Fail(BadRequest) => Again(l.(events := l.events + [Refused(400)]))
        case Fail(OutOfRange) => Over(Outcome(None, l.consumed, l.events + [Refused(500)], Dropped))
        case Ok(h) =>
          var c := l.consumed + idx + 4;
          if c > |l.view| then Over(Outcome(Some(h), c, l.events + [Refused(500)], Dropped))
          else TurnBody(env, Loop(Some(h), c, l.view[c..], l.events), h)
  }

  function TurnBody(env: Env, l: Loop, h: Header): (t: Turned) {
    var n := h.contentLength;
    if |l.view| < n then Over(Outcome(Some(h), l.consumed, l.events, Kept))
    else
      var r := Handle(env, l.events, h, l.view[..n]);
      if r.change != Keep then Over(Outcome(None, l.consumed + n, l.events + r.events, EndOf(r.change)))
      else Again(Loop(None, l.consumed + n, l.view[n..], l.events + r.events))
  }

  /** Up to `n` turns. */
  function Turns(env: Env, l: Loop, n: nat): (t: Turned)
    decreases n
  {
    if n == 0 then Again(l)
    else
      match Turn(env, l)
      case Over(o) => Over(o)
      case Again(m) => Turns(env, m, n - 1)
  }

  /** The header in view is one that parse_header refuses with 400. */
  predicate Refusable(l: Loop) {
    l.pending.None? &&
    var idx := Find(l.view, CRLFCRLF, 0);
    idx != -1 && ReadHeader(l.view[..idx + 2]) == Fail(BadRequest)
  }

  function Refusals(n: nat): (r: seq<Event>)
    ensures |r| == n
  {
    if n == 0 then [] else [Refused(400)] + Refusals(n - 1)
  }

  /** However often the loop turns on such a header: as many 400 responses, and nothing else changes. */
  lemma {:induction false} RefusesForever(env: Env, l: Loop, n: nat)
    requires Refusable(l)
    ensures Turns(env, l, n) == Again(l.(events := l.events + Refusals(n)))
    decreases n
  {
    hide Find, ReadHeader, Handle;
    if n == 0 {
      assert l.events + [] == l.events;
    } else {
      var m := l.(events := l.events + [Refused(400)]);
      RefusesForever(env, m, n - 1);
      Associative(l.events, [Refused(400)], Refusals(n - 1));
    }
  }

  /** What has to shrink: the bytes in view, and then the pending header. */
  function ToGo(l: Loop): (n: nat) {
    |l.view| + if l.pending.Some? then 1 else 0
  }

  /** Every other turn leaves the loop or shortens what is ahead; one that goes on wrote exactly one response. */
  lemma Progress(env: Env, l: Loop, m: Loop)
    requires Turn(env, l) == Again(m) && !Refusable(l)
    ensures ToGo(m) < ToGo(l) && |m.view| <= |l.view| && m.pending == None && m.consumed <= l.consumed + |l.view|
    ensures l.pending.None? ==> |m.view| + 4 <= |l.view|
    ensures l.events <= m.events && ResponseCount(m.events) == ResponseCount(l.events) + 1
  {
    hide Find, ReadHeader, Handle, ResponseCount;
    FoundWithin(l.view, CRLFCRLF);
    var h, view := Header([], [], [], [], map[], [], [], [], 0), l.view;
    if l.pending.Some? {
      h := l.pending.value;
    } else {
      var idx := Find(l.view, CRLFCRLF, 0);
      h, view := ReadHeader(l.view[..idx + 2]).value, l.view[l.consumed + idx + 4..];
    }
    var r := Handle(env, l.events, h, view[..h.contentLength]);
    HandleRespondsOnce(env, l.events, h, view[..h.contentLength]);
    ResponsesAppend(l.events, r.events);
  }

  /** What the call makes of a state of its loop. */
  function Outlook(env: Env, l: Loop): (o: Outcome) {
    var o := Call(env, l.events, RunningTotal, l.consumed, l.pending, l.view);
    Outcome(o.pending, l.consumed + o.consumed, l.events + o.events, o.end)
  }

  /** A turn is a step of the call. */
  lemma TurnIsStep(env: Env, l: Loop)
    ensures match Turn(env, l)
            case Over(o) => o == Outlook(env, l) && o.end != Stuck
            case Again(m) =>
              if Refusable(l) then Outlook(env, l) == Outcome(None, l.consumed, l.events + [Refused(400)], Stuck)
              else Outlook(env, m) == Outlook(env, l)
  {
    hide Find, ReadHeader, Handle, Call;
    match l.pending
    case Some(h) =>
      BodyIsStep(env, l, h);
    case None =>
      ScanUnfolds(env, l.events, l.consumed, l.view);
      assert l.events + [] == l.events;
      var idx := Find(l.view, CRLFCRLF, 0);
      if idx != -1 && ReadHeader(l.view[..idx + 2]).Ok? {
        var h, c := ReadHeader(l.view[..idx + 2]).value, l.consumed + idx + 4;
        if c <= |l.view| {
          BodyIsStep(env, Loop(Some(h), c, l.view[c..], l.events), h);
        }
      }
  }

  lemma BodyIsStep(env: Env, l: Loop, h: Header)
    requires l.pending == Some(h)
    ensures match TurnBody(env, l, h)
            case Over(o) => o == Outlook(env, l) && o.end != Stuck
            case Again(m) => Outlook(env, m) == Outlook(env, l)
  {
    hide Find, ReadHeader, Handle, Call;
    BodyUnfolds(env, l.events, l.consumed, h, l.view);
    assert l.events + [] == l.events;
    var n := h.contentLength;
    if |l.view| >= n {
      var r := Handle(env, l.events, h, l.view[..n]);
      var rest := Call(env, l.events + r.events, RunningTotal, l.consumed + n, None, l.view[n..]);
      Associative(l.events, r.events, rest.events);
    }
  }

  /** The loop reaches a header it refuses with 400. */
  ghost predicate ReachesRefusal(env: Env, l: Loop, k: nat) {
    Turns(env, l, k).Again? && Refusable(Turns(env, l, k).next)
  }

  /**
   A call that is not stuck leaves its loop after finitely many turns, with what `Call` says; a stuck one serves some
   requests and then comes to a header that it refuses.
   */
  lemma {:induction false} TurnsToEnd(env: Env, l: Loop) returns (k: nat)
    ensures k <= ToGo(l) + 1
    ensures Outlook(env, l).end != Stuck ==> Turns(env, l, k) == Over(Outlook(env, l))
    ensures Outlook(env, l).end == Stuck ==> ReachesRefusal(env, l, k)
    decreases ToGo(l)
  {
    hide Turn, Refusable, Call;
    TurnIsStep(env, l);
    if Turn(env, l).Over? {
      k := 1;
    } else if Refusable(l) {
      k := 0;
    } else {
      var m := Turn(env, l).next;
      Progress(env, l, m);
      var j := TurnsToEnd(env, m);
      k := j + 1;
    }
  }

  lemma {:induction false} RefusalIsStuck(env: Env, l: Loop, k: nat)
    requires ReachesRefusal(env, l, k)
    ensures Outlook(env, l).end == Stuck
    decreases k
  {
    hide Turn, Refusable, Call;
    TurnIsStep(env, l);
    if k > 0 && !Refusable(l) {
      RefusalIsStuck(env, Turn(env, l).next, k - 1);
    } else {
      RefusableGoesOn(env, l);
    }
  }

  lemma RefusableGoesOn(env: Env, l: Loop)
    requires Refusable(l)
    ensures Turn(env, l).Again?
  {
  }

  lemma {:induction false} TurnsAppend(env: Env, l: Loop, j: nat, k: nat)
    ensures Turns(env, l, j + k) == (match Turns(env, l, j) case Over(o) => Over(o) case Again(m) => Turns(env, m, k))
    decreases j
  {
    hide Turn;
    if j > 0 && Turn(env, l).Again? {
      TurnsAppend(env, Turn(env, l).next, j - 1, k);
    }
  }

  /**
   A call is stuck if and only if its loop never ends, if and only if it comes, after serving some requests, to a
   header in view that is refused with 400. From then on every further turn writes one more 400.
   */
  lemma StuckIff(env: Env, l: Loop)
    ensures Outlook(env, l).end == Stuck <==> forall n: nat :: Turns(env, l, n).Again?
    ensures Outlook(env, l).end == Stuck <==> exists k: nat :: ReachesRefusal(env, l, k)
    ensures forall k: nat, n: nat :: ReachesRefusal(env, l, k) ==>
              var m := Turns(env, l, k).next; Turns(env, l, k + n) == Again(m.(events := m.events + Refusals(n)))
  {
    hide Turn, Turns, Refusable, Call;
    var end := TurnsToEnd(env, l);
    forall k: nat, n: nat | ReachesRefusal(env, l, k)
      ensures var m := Turns(env, l, k).next; Turns(env, l, k + n) == Again(m.(events := m.events + Refusals(n)))
    {
      RefusesForever(env, Turns(env, l, k).next, n);
      TurnsAppend(env, l, k, n);
    }
    if Outlook(env, l).end == Stuck {
      forall n: nat
        ensures Turns(env, l, n).Again?
      {
        var m := Turns(env, l, end).next;
        assert Turns(env, l, end + n) == Again(m.(events := m.events + Refusals(n)));
        TurnsAppend(env, l, n, end);
        assert n + end == end + n;
      }
    }
    if k: nat :| ReachesRefusal(env, l, k) {
      RefusalIsStuck(env, l, k);
    }
  }

  // ---- After served requests ----

  /** Bytes that start with a header that is refused with 400. */
  predicate BadHead(bad: Bytes) {
    Refusable(Loop(None, 0, bad, []))
  }

  /**
   Requests, each in reads of its own, and then a read with a header that is refused with 400: the loop never ends if
   and only if none of the requests ended the protocol. All of them were answered first; the bad bytes stay.
   */
  lemma StuckAfterServing(env: Env, ms: seq<Msg>, parts: seq<seq<Bytes>>, bad: Bytes)
    requires Carry(parts, ms)
    requires BadHead(bad)
    ensures var l, s := DeliverAll(env, RunningTotal, START, Reads(parts) + [bad]), Serve(env, [], ms);
            && (l.end == Stuck <==> s.end == Kept)
            && (s.end == Kept ==> l.events == s.events + [Refused(400)] && l.inBuf == bad && s.served == |ms|)
            && (s.end != Kept ==> l == Link(None, [], s.events, s.end))
  {
    hide Handle, ValidMsg, DeliverAll, MsgBytes, Refusable, Call;
    var s, rs := Serve(env, [], ms), Reads(parts);
    OneAfterTheOther(env, RunningTotal, [], ms, parts);
    assert [] + s.events == s.events;
    DeliverAllAppend(env, RunningTotal, START, rs, [bad], rs + [bad]);
    var l := Link(None, [], s.events, s.end);
    LastRead(env, RunningTotal, l, bad);
    if s.end == Kept {
      BadRead(env, s.events, bad);
    }
  }

  lemma BadRead(env: Env, events: seq<Event>, bad: Bytes)
    requires BadHead(bad)
    ensures Deliver(env, RunningTotal, Link(None, [], events, Kept), bad) == Link(None, bad, events + [Refused(400)], Stuck)
  {
    hide Find, ReadHeader, Call;
    ScanUnfolds(env, events, 0, bad);
    assert [] + bad == bad && bad[0..] == bad;
  }

  // ---- An input ----

  /** A line without a space. */
  lemma RefusedInput(env: Env)
    ensures var bad: Bytes := [88] + CRLFCRLF;
            && BadHead(bad)
            && Call(env, [], RunningTotal, 0, None, bad) == Outcome(None, 0, [Refused(400)], Stuck)
            && forall n: nat :: Turns(env, Loop(None, 0, bad, []), n) == Again(Loop(None, 0, bad, Refusals(n)))
  {
    hide Call, Turns;
    var bad: Bytes := [88] + CRLFCRLF;
    var head := bad[..3];
    assert head == [88, 13, 10];
    assert Find(bad, CRLFCRLF, 0) == 1 by {
      assert bad[1..5] == CRLFCRLF;
      assert At(bad, CRLFCRLF, 1);
      assert bad[0..4][0] == 88;
    }
    assert FindByte(head, SP, 0) == -1;
    ScanUnfolds(env, [], 0, bad);
    forall n: nat
      ensures Turns(env, Loop(None, 0, bad, []), n) == Again(Loop(None, 0, bad, Refusals(n)))
    {
      RefusesForever(env, Loop(None, 0, bad, []), n);
      assert [] + Refusals(n) == Refusals(n);
    }
  }
}
