/** The one-shot epoll interest around the event handler (ConnectionHandler.cpp:51-60, 96-134). */
module Wakeup {
  import opened Transmit
  import opened TransmitRuns
  import opened TransmitProgress

  /** Where the event handler is: not running, woken and not yet past the queue test, or between test and rearm. */
  datatype Phase = Idle | Woken(out: bool) | Tested(rearmOut: bool)

  /**
   A state machine in which a write from another thread can fall between any two steps of the handler, in particular
   between the test of the queue (under the lock) and the rearming (outside it). `tx.armed` is the EPOLLOUT interest
   the kernel holds.
   */
  datatype Machine = Machine(tx: Tx, phase: Phase)

  datatype Move =
    | AppWrite(write: Write, net: seq<nat>)
    | Event(out: bool)
    | Flush(net: seq<nat>)
    | Test
    | Rearm

  /** EPOLLONESHOT: an event clears the interest until the next modFD; EPOLLOUT is reported only when asked for. */
  predicate Enabled(m: Machine, v: Move) {
    match v
    case AppWrite(_, _) => true
    case Event(out) => m.phase.Idle? && (out ==> m.tx.armed)
    case Flush(_) => m.phase.Woken? && m.phase.out
    case Test => m.phase.Woken? && !m.phase.out
    case Rearm => m.phase.Tested?
  }

  function Take(m: Machine, v: Move): (r: Machine)
    requires Enabled(m, v) && SentWithin(m.tx.jobs)
  {
    match v
    case AppWrite(w, net) => m.(tx := Submit(m.tx.(net := net), w))
    case Event(out) => Machine(m.tx.(armed := false), Woken(out))
    case Flush(net) => Machine(Drain(m.tx.(net := net)), Woken(false))
    case Test => m.(phase := Tested(m.tx.jobs != []))
    case Rearm => Machine(m.tx.(armed := m.phase.rearmOut), Idle)
  }

  /** One shot: an event is reported to a resting handler alone, disarms, and none follows before the rearming. */
  lemma OneShot(m: Machine, out: bool, v: Move)
    requires Enabled(m, Event(out)) && SentWithin(m.tx.jobs)
    ensures m.phase == Idle && (out ==> m.tx.armed)
    ensures var n := Take(m, Event(out));
            !n.tx.armed && n.phase != Idle && (Enabled(n, v) ==> !v.Event? && (v.Rearm? || Take(n, v).phase != Idle))
  {
    hide Submit, Drain;
  }

  /** When the handler is not running, waiting bytes have EPOLLOUT armed: they will be woken up for. */
  predicate Awake(m: Machine) {
    m.phase.Idle? && m.tx.jobs != [] ==> m.tx.armed
  }

  /** A write that had to queue after the handler saw an empty queue, and before it rearmed. */
  predicate Slips(m: Machine, v: Move) {
    v.AppWrite? && m.phase == Tested(false) && Submit(m.tx.(net := v.net), v.write).jobs != []
  }

  /** What holds all along a run in which no write slips. */
  ghost predicate Good(m: Machine) {
    && Consistent(m.tx)
    && Awake(m)
    && (m.phase == Tested(false) ==> m.tx.jobs == [])
  }

  /** Every step other than a slipping write keeps the machine good. */
  lemma TakeGood(m: Machine, v: Move)
    requires Good(m) && SentWithin(m.tx.jobs) && Enabled(m, v) && !Slips(m, v)
    ensures Good(Take(m, v))
  {
    hide Submit, Drain, Consistent;
    TakeConsistent(m, v);
    if v.AppWrite? {
      SubmitInterest(m.tx.(net := v.net), v.write);
    }
  }

  lemma TakeConsistent(m: Machine, v: Move)
    requires Consistent(m.tx) && SentWithin(m.tx.jobs) && Enabled(m, v)
    ensures Consistent(Take(m, v).tx)
  {
    hide Submit, Drain, Consistent;
    match v
    case AppWrite(w, net) =>
      ConsistentNet(m.tx, net);
      SubmitConsistent(m.tx.(net := net), w);
    case Event(_) =>
      ConsistentArmed(m.tx, false);
    case Flush(net) =>
      ConsistentNet(m.tx, net);
      DrainConsistent(m.tx.(net := net));
    case Test =>
    case Rearm =>
      ConsistentArmed(m.tx, m.phase.rearmOut);
  }

  /** A run: its states `ms`, one more than its moves. */
  ghost predicate IsRun(ms: seq<Machine>, vs: seq<Move>) {
    && |ms| == |vs| + 1
    && ms[0] == Machine(INITIAL, Idle)
    && forall i :: 0 <= i < |vs| ==>
         Enabled(ms[i], vs[i]) && (SentWithin(ms[i].tx.jobs) ==> ms[i + 1] == Take(ms[i], vs[i]))
  }

  /** Whatever slips, every state of a run conserves bytes, order and counter. */
  lemma {:induction false} RunConsistent(ms: seq<Machine>, vs: seq<Move>, n: nat)
    requires IsRun(ms, vs) && n < |ms|
    ensures Consistent(ms[n].tx) && SentWithin(ms[n].tx.jobs)
  {
    hide Consistent, Take;
    if n == 0 {
      InitialConsistent();
    } else {
      RunConsistent(ms, vs, n - 1);
      TakeConsistent(ms[n - 1], vs[n - 1]);
    }
    ConsistentSentWithin(ms[n].tx);
  }

  /** No lost wakeup: in every run in which no write slips, waiting bytes are always armed for when the handler rests. */
  lemma {:induction false} NoLostWakeup(ms: seq<Machine>, vs: seq<Move>, n: nat)
    requires IsRun(ms, vs) && n < |ms|
    requires forall i :: 0 <= i < n ==> !Slips(ms[i], vs[i])
    ensures Good(ms[n])
  {
    hide Consistent, Take, Slips;
    if n == 0 {
      InitialConsistent();
    } else {
      NoLostWakeup(ms, vs, n - 1);
      RunConsistent(ms, vs, n - 1);
      TakeGood(ms[n - 1], vs[n - 1]);
    }
  }

  // ---- The window between test and rearm ----

  /** The writes that fall into one window. */
  ghost function Window(t: Tx, writes: seq<(Write, seq<nat>)>): (r: Tx)
    decreases |writes|
  {
    if writes == [] then t else Window(Submit(t.(net := writes[0].1), writes[0].0), writes[1..])
  }

  /** The answers of the socket to each write of the window accept all of it, and all that its callbacks write. */
  ghost predicate TakenAtOnce(writes: seq<(Write, seq<nat>)>) {
    forall i :: 0 <= i < |writes| ==>
      var (w, net) := writes[i]; Accepted(net, WriteSizes(w)) == |w.buf| + DueOf(w.done)
  }

  lemma {:induction false} WindowQueue(t: Tx, writes: seq<(Write, seq<nat>)>)
    ensures t.jobs != [] ==> Window(t, writes).jobs != []
    ensures t.jobs == [] ==> (Window(t, writes).jobs == [] <==> TakenAtOnce(writes))
    decreases |writes|
  {
    hide Submit, Accepted, WriteSizes, DueOf;
    if writes != [] {
      var (w, net) := writes[0];
      var u := t.(net := net);
      if t.jobs != [] {
        SubmitKeepsQueue(u, w);
      } else {
        SentAtOnceIff(u, w);
      }
      WindowQueue(Submit(u, w), writes[1..]);
      TakenFirst(writes);
    }
  }

  lemma TakenFirst(writes: seq<(Write, seq<nat>)>)
    requires writes != []
    ensures var (w, net) := writes[0];
            TakenAtOnce(writes) <==> Accepted(net, WriteSizes(w)) == |w.buf| + DueOf(w.done) && TakenAtOnce(writes[1..])
  {
    hide Accepted, WriteSizes, DueOf;
    if TakenAtOnce(writes) {
      forall i | 0 <= i < |writes[1..]|
        ensures var (w, net) := writes[1..][i]; Accepted(net, WriteSizes(w)) == |w.buf| + DueOf(w.done)
      {
        assert writes[1..][i] == writes[i + 1];
      }
    }
    var (w, net) := writes[0];
    if Accepted(net, WriteSizes(w)) == |w.buf| + DueOf(w.done) && TakenAtOnce(writes[1..]) {
      forall i | 0 <= i < |writes|
        ensures var (w, net) := writes[i]; Accepted(net, WriteSizes(w)) == |w.buf| + DueOf(w.done)
      {
        if i > 0 {
          assert writes[i] == writes[1..][i - 1];
        }
      }
    }
  }

  /**
   Exactly when the window loses a wakeup: the handler tests the queue, any writes fall in, it rearms. Waiting bytes end
   up armed if and only if the test saw a job, or the answers of the socket accept every write in the window at once.
   */
  lemma WindowLosesIff(m: Machine, writes: seq<(Write, seq<nat>)>)
    requires Consistent(m.tx) && SentWithin(m.tx.jobs) && m.phase == Woken(false)
    ensures var tested := Take(m, Test);
            var u := Window(tested.tx, writes);
            SentWithin(u.jobs) &&
            (Awake(Take(Machine(u, tested.phase), Rearm)) <==> m.tx.jobs != [] || TakenAtOnce(writes))
  {
    hide Submit, Consistent, TakenAtOnce;
    WindowQueue(m.tx, writes);
    WindowConsistent(m.tx, writes);
    ConsistentSentWithin(Window(m.tx, writes));
  }

  lemma {:induction false} WindowConsistent(t: Tx, writes: seq<(Write, seq<nat>)>)
    requires Consistent(t)
    ensures Consistent(Window(t, writes))
    decreases |writes|
  {
    hide Submit, Consistent;
    if writes != [] {
      ConsistentNet(t, writes[0].1);
      SubmitConsistent(t.(net := writes[0].1), writes[0].0);
      WindowConsistent(Submit(t.(net := writes[0].1), writes[0].0), writes[1..]);
    }
  }

  /** A lost wakeup in four steps: an input event, the test, a write that would block, the rearm. */
  lemma LostWakeup()
    ensures exists ms: seq<Machine>, vs: seq<Move> :: IsRun(ms, vs) && |vs| == 4 && !Awake(ms[4]) && ms[4].tx.wire == []
  {
    var w := Write([7], NoCallback);
    var m0 := Machine(INITIAL, Idle);
    var m1 := Take(m0, Event(false));
    var m2 := Take(m1, Test);
    var m3 := Take(m2, AppWrite(w, []));
    assert m3.tx.jobs == [Job([7], 0, NoCallback)];
    var m4 := Take(m3, Rearm);
    var ms, vs := [m0, m1, m2, m3, m4], [Event(false), Test, AppWrite(w, []), Rearm];
    assert IsRun(ms, vs);
  }
}
