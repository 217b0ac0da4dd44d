/** The life of a connection up to the close of its socket (ConnectionHandler.cpp:63-135). */
module Closing {
  import opened Bytes
  import opened Transmit
  import opened TransmitRuns
  import opened TransmitProgress

  /**
   A connection as its event handler sees it: a protocol that can be dropped (`listening`), a socket that is closed in
   the EPOLLOUT branch alone (`open`), and the interest that decides whether that branch is ever reached (`tx.armed`).
   Writes do not fall into the middle of a handler here; the module Wakeup looks at those.
   */
  datatype Server = Server(tx: Tx, listening: bool, open: bool)

  const ACCEPTED := Server(INITIAL, true, true)

  /** What the protocol makes of the bytes read: the responses it writes, and whether it gives up its place. */
  datatype Reaction = Reaction(answers: seq<Write>, drops: bool, net: seq<nat>)

  /**
   A write from outside, or a run of the handler: what was readable, if anything, and what the socket answers in
   the EPOLLOUT branch, if it is reported writable.
   */
  datatype Act =
    | Outside(write: Write, net: seq<nat>)
    | Handler(input: Option<Reaction>, writable: Option<seq<nat>>)

  /** Nothing happens to a closed socket any more; EPOLLOUT is reported only when asked for. */
  predicate Possible(s: Server, a: Act) {
    s.open && (a.Handler? && a.writable.Some? ==> s.tx.armed)
  }

  /** The EPOLLIN branch; without a protocol nothing is read. */
  function HandleInput(s: Server, input: Option<Reaction>): (r: Server) {
    match input
    case None => s
    case Some(i) =>
      if !s.listening then s else s.(tx := SubmitAll(s.tx.(net := i.net), i.answers), listening := !i.drops)
  }

  /** The EPOLLOUT branch: work off the queue, and close when there is no protocol, whatever the queue holds. */
  function HandleOutput(s: Server, writable: Option<seq<nat>>): (r: Server)
    requires SentWithin(s.tx.jobs)
  {
    match writable
    case None => s
    case Some(net) => s.(tx := Drain(s.tx.(net := net)), open := s.listening)
  }

  /** Rearming a valid socket for what waits. */
  function Rearmed(s: Server): (r: Server) {
    s.(tx := s.tx.(armed := s.open && s.tx.jobs != []))
  }

  ghost function Do(s: Server, a: Act): (r: Server)
    requires Possible(s, a) && Consistent(s.tx)
    ensures Consistent(r.tx)
  {
    match a
    case Outside(w, net) =>
      ConsistentNet(s.tx, net);
      SubmitConsistent(s.tx.(net := net), w);
      s.(tx := Submit(s.tx.(net := net), w))
    case Handler(input, writable) =>
      var i := HandleInput(s, input);
      InputConsistent(s, input);
      ConsistentSentWithin(i.tx);
      var o := HandleOutput(i, writable);
      OutputConsistent(i, writable);
      ConsistentArmed(o.tx, o.open && o.tx.jobs != []);
      Rearmed(o)
  }

  lemma InputConsistent(s: Server, input: Option<Reaction>)
    requires Consistent(s.tx)
    ensures Consistent(HandleInput(s, input).tx)
  {
    hide Consistent, SubmitAll;
    if input.Some? {
      ConsistentNet(s.tx, input.value.net);
      SubmitAllConsistent(s.tx.(net := input.value.net), input.value.answers);
    }
  }

  lemma OutputConsistent(s: Server, writable: Option<seq<nat>>)
    requires Consistent(s.tx) && SentWithin(s.tx.jobs)
    ensures Consistent(HandleOutput(s, writable).tx)
  {
    hide Consistent, Drain;
    if writable.Some? {
      ConsistentNet(s.tx, writable.value);
      DrainConsistent(s.tx.(net := writable.value));
    }
  }

  // ---- At rest the interest says whether something waits ----

  ghost predicate AtRest(s: Server) {
    Consistent(s.tx) && (s.open ==> (s.tx.armed <==> s.tx.jobs != []))
  }

  lemma DoKeepsRest(s: Server, a: Act)
    requires Possible(s, a) && AtRest(s)
    ensures AtRest(Do(s, a))
  {
    hide Submit, Drain, Consistent, SubmitAll;
    if a.Outside? {
      SubmitInterest(s.tx.(net := a.net), a.write);
      if s.tx.jobs != [] {
        SubmitKeepsQueue(s.tx.(net := a.net), a.write);
      }
    }
  }

  /** The state after some acts, as long as each is possible. */
  ghost predicate CanDo(s: Server, acts: seq<Act>)
    requires Consistent(s.tx)
    decreases |acts|
  {
    acts == [] || (Possible(s, acts[0]) && CanDo(Do(s, acts[0]), acts[1..]))
  }

  ghost function DoAll(s: Server, acts: seq<Act>): (r: Server)
    requires Consistent(s.tx) && CanDo(s, acts)
    ensures Consistent(r.tx)
    decreases |acts|
  {
    if acts == [] then s else DoAll(Do(s, acts[0]), acts[1..])
  }

  lemma {:induction false} AlwaysAtRest(s: Server, acts: seq<Act>)
    requires AtRest(s) && CanDo(s, acts)
    ensures AtRest(DoAll(s, acts))
    decreases |acts|
  {
    hide Consistent, Do;
    if acts != [] {
      DoKeepsRest(s, acts[0]);
      AlwaysAtRest(Do(s, acts[0]), acts[1..]);
    }
  }

  // ---- When the socket is closed, and what is lost then ----

  /** The socket is closed by a handler that finds it writable and no protocol, and by nothing else. */
  lemma ClosesIff(s: Server, a: Act)
    requires Possible(s, a) && Consistent(s.tx)
    ensures !Do(s, a).open <==> a.Handler? && a.writable.Some? && !HandleInput(s, a.input).listening
  {
    hide Submit, Drain, Consistent, SubmitAll;
  }

  /**
   Bytes are lost by closing if and only if the answers of the socket, up to the first would-block, accept fewer
   bytes than are due: the unsent ones, and those that the callbacks of the queue are yet to write. So they are lost
   whenever the answers add up to less than that.
   */
  lemma CloseLosesBytesIff(s: Server, a: Act)
    requires Possible(s, a) && Consistent(s.tx) && !Do(s, a).open
    ensures var before, after := HandleInput(s, a.input).tx, Do(s, a).tx;
            && a.Handler? && a.writable.Some? && SentWithin(before.jobs)
            && (after.wire != Bufs(after.log) <==> Accepted(a.writable.value, Sizes(before.jobs)) < Due(before.jobs))
            && |after.wire| == |before.wire| + Accepted(a.writable.value, Sizes(before.jobs))
            && (Offered(a.writable.value) < Due(before.jobs) ==> after.wire != Bufs(after.log))
  {
    hide Drain, Consistent, SubmitAll, Submit, Bufs, Due, Sizes, Accepted, Offered;
    ClosesIff(s, a);
    InputConsistent(s, a.input);
    var before := HandleInput(s, a.input).tx;
    ConsistentSentWithin(before);
    var t := before.(net := a.writable.value);
    ConsistentNet(before, t.net);
    EmptiedIff(t);
    DrainTakes(t);
    AcceptedWithinOffer(t.net, Sizes(t.jobs));
    DrainConsistent(t);
    DrainStops(t);
    WrittenIff(Drain(t));
  }

  lemma WrittenIff(t: Tx)
    requires Consistent(t)
    ensures t.wire == Bufs(t.log) <==> t.counter == 0
  {
    hide Consistent, Bufs;
    ConsistentSentWithin(t);
    Conservation(t);
    if t.counter == 0 {
      assert t.wire + [] == t.wire;
    }
  }

  const TWO := Write([1, 2], NoCallback)
  const WAITING := Tx([Job([1, 2], 0, NoCallback)], 2, true, [], [], [TWO], [])
  const CUT := Tx([Job([1, 2], 1, NoCallback)], 1, false, [1], [], [TWO], [])

  lemma TwoWait()
    ensures SubmitAll(INITIAL, [TWO]) == WAITING
  {
    assert [TWO][1..] == [];
    assert SubmitAll(INITIAL, [TWO]) == SubmitAll(Submit(INITIAL, TWO), []);
    assert Submit(INITIAL, TWO) == WAITING;
  }

  lemma OneIsTaken()
    ensures SentWithin(WAITING.jobs)
    ensures Drain(WAITING.(net := [1])) == CUT.(armed := true)
  {
    var u := WAITING.(net := [1]);
    assert [] + [1, 2][0..1] == [1] && [1][1..] == [];
    assert Push([1, 2], 0, [], [1]) == Push([1, 2], 1, [1], []) == Progress(1, [1], []);
    assert u.jobs[0 := Job([1, 2], 1, NoCallback)] == CUT.jobs;
    assert Front(u) == (CUT.(armed := true), false);
  }

  /** It does happen: two bytes wait, the socket takes one, the connection is closed over the other. */
  lemma CloseLosesBytes()
    ensures Consistent(ACCEPTED.tx)
    ensures exists acts: seq<Act> :: CanDo(ACCEPTED, acts) &&
              var s := DoAll(ACCEPTED, acts);
              !s.open && s.tx.wire == [1] && Bufs(s.tx.log) == [1, 2]
  {
    hide Consistent, Drain, SubmitAll, SentWithin;
    var first, second := Handler(Some(Reaction([TWO], true, [])), None), Handler(None, Some([1]));
    InitialConsistent();
    TwoWait();
    OneIsTaken();
    assert INITIAL.(net := []) == INITIAL;
    assert Do(ACCEPTED, first) == Server(WAITING, false, true);
    assert Do(Server(WAITING, false, true), second) == Server(CUT, false, false);
    var acts := [first, second];
    assert acts[1..] == [second] && [second][1..] == [];
    assert CanDo(Server(WAITING, false, true), [second]);
    assert DoAll(Server(WAITING, false, true), [second]) == DoAll(Server(CUT, false, false), []);
    assert CanDo(ACCEPTED, acts) && DoAll(ACCEPTED, acts) == Server(CUT, false, false);
    assert Bufs([TWO]) == Bufs([]) + [1, 2] by {
      assert [TWO][..0] == [];
    }
  }

  // ---- After the protocol is gone ----

  /**
   A connection whose protocol was dropped can be closed by its handler if and only if some write had to wait: only
   then does an EPOLLOUT event come.
   */
  lemma DroppedClosesIff(s: Server)
    requires AtRest(s) && s.open && !s.listening
    ensures s.tx.jobs != [] <==> exists a: Act :: a.Handler? && Possible(s, a) && !Do(s, a).open
  {
    hide Consistent, Do;
    if s.tx.jobs != [] {
      var a := Handler(None, Some([]));
      ClosesIff(s, a);
      assert Possible(s, a) && !Do(s, a).open;
    } else {
      forall a: Act | a.Handler? && Possible(s, a)
        ensures Do(s, a).open
      {
        ClosesIff(s, a);
      }
    }
  }

  /** With nothing waiting after the protocol is gone, handlers change nothing any more, and none of them closes. */
  lemma {:induction false} NeverClosed(s: Server, acts: seq<Act>)
    requires AtRest(s) && s.open && !s.listening && s.tx.jobs == []
    requires CanDo(s, acts) && forall a :: a in acts ==> a.Handler?
    ensures DoAll(s, acts) == s
    decreases |acts|
  {
    hide Consistent;
    if acts != [] {
      var a := acts[0];
      assert a in acts;
      assert Do(s, a) == s;
      NeverClosed(s, acts[1..]);
    }
  }
}
