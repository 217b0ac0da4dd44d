/** How the queue empties, whatever the callbacks write meanwhile. */
module TransmitProgress {
  import opened Bytes
  import opened Transmit
  import opened TransmitRuns

  /** The bytes a callback will have written, its own callbacks included. */
  function DueOf(done: Callback): (n: nat)
    decreases done, 1
  {
    if done.NoCallback? then 0 else DueOfAll(done.writes)
  }

  function DueOfAll(ws: seq<Write>): (n: nat)
    decreases ws, 0
  {
    if ws == [] then 0 else |ws[0].buf| + DueOf(ws[0].done) + DueOfAll(ws[1..])
  }

  /**
   The bytes due: those that wait, and those that the callbacks in the queue are yet to write. They leave through the
   wire alone, so a socket that keeps taking bytes drains the queue.
   */
  function Due(jobs: seq<Job>): (n: int) {
    if jobs == [] then 0 else |jobs[0].buf| - jobs[0].sent + DueOf(jobs[0].done) + Due(jobs[1..])
  }

  lemma {:induction false} DueAppend(a: seq<Job>, b: seq<Job>)
    ensures Due(a + b) == Due(a) + Due(b)
  {
    if a == [] {
      assert a + b == b;
    } else {
      assert (a + b)[1..] == a[1..] + b;
      DueAppend(a[1..], b);
    }
  }

  lemma {:induction false} DueFresh(ws: seq<Write>)
    ensures Due(Fresh(ws)) == DueOfAll(ws)
  {
    if ws != [] {
      assert Fresh(ws)[1..] == Fresh(ws[1..]);
      DueFresh(ws[1..]);
    }
  }

  lemma DueOfWrites(done: Callback)
    ensures DueOf(done) == DueOfAll(Writes(done))
  {
  }

  lemma DueFirst(jobs: seq<Job>)
    requires jobs != []
    ensures Due(jobs) == |jobs[0].buf| - jobs[0].sent + DueOf(jobs[0].done) + Due(jobs[1..])
  {
  }

  lemma {:induction false} DueAtLeastRemaining(jobs: seq<Job>)
    requires SentWithin(jobs)
    ensures Due(jobs) >= Remaining(jobs) >= 0
  {
    if jobs != [] {
      DueAtLeastRemaining(jobs[1..]);
    }
  }

  // ---- Conservation ----

  /** A write adds its bytes, and those of its callbacks, to what is on the wire or due. */
  lemma {:induction false} SubmitDue(t: Tx, w: Write)
    ensures var u := Submit(t, w);
            |u.wire| + Due(u.jobs) == |t.wire| + Due(t.jobs) + |w.buf| + DueOf(w.done)
    decreases w, 0
  {
    hide Due;
    var u := t.(log := t.log + [w]);
    var j := Job(w.buf, 0, w.done);
    if t.jobs != [] {
      DueAppend(t.jobs, [j]);
      DueOne(j);
    } else {
      var p := Push(w.buf, 0, u.wire, u.net);
      var v := u.(wire := p.wire, net := p.net);
      if p.sent == |w.buf| {
        CompleteDue(v, w.done);
      } else {
        DueAppend([], [j.(sent := p.sent)]);
        DueOne(j.(sent := p.sent));
      }
    }
  }

  lemma DueOne(j: Job)
    ensures Due([j]) == |j.buf| - j.sent + DueOf(j.done) && Due([]) == 0
  {
    assert [j][1..] == [];
  }

  lemma {:induction false} CompleteDue(t: Tx, done: Callback)
    ensures var u := Complete(t, done); |u.wire| + Due(u.jobs) == |t.wire| + Due(t.jobs) + DueOf(done)
    decreases done, 1
  {
    if done.Callback? {
      SubmitAllDue(t.(fired := t.fired + [Receipt(done.id, |t.wire|)]), done.writes);
    }
  }

  lemma {:induction false} SubmitAllDue(t: Tx, ws: seq<Write>)
    ensures var u := SubmitAll(t, ws); |u.wire| + Due(u.jobs) == |t.wire| + Due(t.jobs) + DueOfAll(ws)
    decreases ws, 0
  {
    hide Submit, Due;
    if ws != [] {
      SubmitDue(t, ws[0]);
      SubmitAllDue(Submit(t, ws[0]), ws[1..]);
    }
  }

  lemma FrontDue(t: Tx)
    requires t.jobs != [] && SentWithin(t.jobs) && t.jobs[0].sent <= |t.jobs[0].buf|
    ensures var u := Front(t).0;
            && |u.wire| + Due(u.jobs) == |t.wire| + Due(t.jobs) && |u.wire| >= |t.wire|
            && (t.net != [] && t.net[0] > 0 && t.jobs[0].sent < |t.jobs[0].buf| ==> |u.wire| > |t.wire|)
  {
    hide Due, Complete, QueueWeight, Remaining;
    var j, u := t.jobs[0], Front(t).0;
    DueFirst(t.jobs);
    if Front(t).1 {
      FrontDone(t);
      DueAppend(t.jobs[1..], Fresh(Writes(j.done)));
      DueFresh(Writes(j.done));
      DueOfWrites(j.done);
    } else {
      FrontBlocked(t);
      DueFirst(u.jobs);
    }
  }

  /** Working off the queue loses no byte and makes none up, whatever the callbacks write meanwhile. */
  lemma {:induction false} DrainDue(t: Tx)
    requires SentWithin(t.jobs)
    ensures var u := Drain(t); |u.wire| + Due(u.jobs) == |t.wire| + Due(t.jobs) && |u.wire| >= |t.wire|
    decreases QueueWeight(t.jobs)
  {
    hide Front, QueueWeight, SentWithin, Due;
    if t.jobs != [] {
      FrontWithin(t.jobs);
      FrontDue(t);
      if Front(t).1 {
        FrontDone(t);
        DrainDue(Front(t).0);
      }
    }
  }

  /** In every run: what is on the wire and what is due are all bytes ever to be written. */
  lemma {:induction false} EveryByteDue(t: Tx, steps: seq<Step>)
    requires Consistent(t)
    ensures var u := Run(t, steps);
            |u.wire| + Due(u.jobs) == |t.wire| + Due(t.jobs) + DueOfAll(Applied(steps))
    decreases |steps|
  {
    hide Consistent, Submit, Drain, Due, DueOfAll, Applied;
    if steps == [] {
      NothingApplied();
      NothingDue();
    } else {
      var s := steps[0];
      ConsistentSentWithin(t);
      NextConsistent(t, s);
      AppliedFirst(steps);
      if s.Application? {
        SubmitDue(t.(net := s.net), s.write);
      } else {
        DrainDue(t.(net := s.net));
      }
      DueOfApplied(s, Applied(steps[1..]));
      EveryByteDue(Next(t, s), steps[1..]);
    }
  }

  lemma NothingDue()
    ensures DueOfAll([]) == 0 && Due([]) == 0
  {
  }

  lemma DueOfApplied(s: Step, more: seq<Write>)
    ensures DueOfAll(Applied([s]) + more) ==
            (if s.Application? then |s.write.buf| + DueOf(s.write.done) else 0) + DueOfAll(more)
  {
    assert [s][1..] == [];
    if s.Application? {
      assert Applied([s]) == [s.write];
      assert ([s.write] + more)[1..] == more;
    } else {
      assert Applied([s]) == [] && [] + more == more;
    }
  }

  // ---- Progress ----

  /**
   A step whose first send takes a byte empties the queue or lowers the bytes due, whatever the callbacks write;
   no step raises them.
   */
  lemma {:induction false} DrainProgress(t: Tx)
    requires Consistent(t) && SentWithin(t.jobs)
    ensures Due(Drain(t).jobs) <= Due(t.jobs)
    ensures t.net != [] && t.net[0] > 0 ==> Drain(t).jobs == [] || Due(Drain(t).jobs) < Due(t.jobs)
    decreases QueueWeight(t.jobs)
  {
    hide Consistent, Front, QueueWeight, Due;
    DrainDue(t);
    if t.jobs != [] {
      ConsistentSentWithin(t);
      FrontDue(t);
      if Front(t).1 {
        FrontDone(t);
        FrontDoneConsistent(t);
        if t.jobs[0].sent == |t.jobs[0].buf| {
          FrontKeepsNet(t);
        }
        DrainProgress(Front(t).0);
      } else {
        FrontBlocked(t);
      }
    }
  }

  /** Once per element of `nets` writable. */
  ghost function DrainTimes(t: Tx, nets: seq<seq<nat>>): (r: Tx)
    requires Consistent(t)
    ensures Consistent(r)
    decreases |nets|
  {
    ConsistentSentWithin(t);
    if nets == [] then t
    else
      NextConsistent(t, Writable(nets[0]));
      DrainTimes(Drain(t.(net := nets[0])), nets[1..])
  }

  /** A socket that takes at least one byte whenever it is writable empties the queue, callbacks that write again included. */
  lemma {:induction false} FairSocketDrains(t: Tx, nets: seq<seq<nat>>)
    requires Consistent(t)
    requires forall i :: 0 <= i < |nets| ==> nets[i] != [] && nets[i][0] > 0
    requires |nets| > 0 && |nets| >= Due(t.jobs)
    ensures DrainTimes(t, nets).jobs == []
    ensures |DrainTimes(t, nets).wire| == |t.wire| + Due(t.jobs)
    decreases |nets|
  {
    hide Consistent, Drain, Due, Remaining;
    ConsistentSentWithin(t);
    var u := t.(net := nets[0]);
    NextConsistent(t, Writable(nets[0]));
    ConsistentNet(t, nets[0]);
    DrainProgress(u);
    DrainDue(u);
    var v := Drain(u);
    ConsistentSentWithin(v);
    DueAtLeastRemaining(v.jobs);
    NothingDue();
    if |nets| == 1 {
      assert nets[1..] == [];
      DrainLeaves(u);
    } else {
      FairSocketDrains(v, nets[1..]);
    }
  }

  // ---- How much the answers of the socket take ----

  /** The sizes of the buffers in the order in which they will be offered, callbacks' writes included. */
  function Sizes(jobs: seq<Job>): (r: seq<nat>)
    requires SentWithin(jobs)
    decreases QueueWeight(jobs)
  {
    if jobs == [] then []
    else
      var ws := Writes(jobs[0].done);
      QueueWeightAppend(jobs[1..], Fresh(ws));
      QueueWeightFresh(ws);
      WeightOfWrites(jobs[0].done);
      assert jobs[0] in jobs;
      [|jobs[0].buf| - jobs[0].sent] + Sizes(jobs[1..] + Fresh(ws))
  }

  /** How many bytes the answers take of buffers of these sizes, up to the first would-block. */
  function Accepted(net: seq<nat>, sizes: seq<nat>): (n: nat)
    decreases |sizes|, if sizes == [] then 0 else sizes[0]
  {
    if sizes == [] then 0
    else if sizes[0] == 0 then Accepted(net, sizes[1..])
    else if net == [] || net[0] == 0 then 0
    else
      var w := Min(net[0], sizes[0]);
      w + Accepted(net[1..], [sizes[0] - w] + sizes[1..])
  }

  /** The answers before the first would-block, added up. */
  function Offered(net: seq<nat>): (n: nat) {
    if net == [] || net[0] == 0 then 0 else net[0] + Offered(net[1..])
  }

  /** The socket never takes more than its answers allow. */
  lemma {:induction false} AcceptedWithinOffer(net: seq<nat>, sizes: seq<nat>)
    ensures Accepted(net, sizes) <= Offered(net)
    decreases |sizes|, if sizes == [] then 0 else sizes[0]
  {
    if sizes != [] {
      if sizes[0] == 0 {
        AcceptedWithinOffer(net, sizes[1..]);
      } else if net != [] && net[0] > 0 {
        AcceptedWithinOffer(net[1..], [sizes[0] - Min(net[0], sizes[0])] + sizes[1..]);
      }
    }
  }

  lemma {:induction false} PushAccepts(buf: Bytes, sent: nat, wire: Bytes, net: seq<nat>, rest: seq<nat>)
    requires sent <= |buf|
    ensures var p := Push(buf, sent, wire, net);
            Accepted(net, [|buf| - sent] + rest) == p.sent - sent + if p.sent == |buf| then Accepted(p.net, rest) else 0
    decreases |buf| - sent
  {
    var sizes := [|buf| - sent] + rest;
    assert sizes[1..] == rest;
    if sent < |buf| && net != [] && net[0] > 0 {
      var w := Min(net[0], |buf| - sent);
      PushAccepts(buf, sent + w, wire + buf[sent..sent + w], net[1..], rest);
    }
  }

  /** A completed front leaves the answers its own push left: its callback only enqueues. */
  lemma FrontNet(t: Tx)
    requires t.jobs != [] && t.jobs[0].sent <= |t.jobs[0].buf|
    ensures Front(t).0.net == Push(t.jobs[0].buf, t.jobs[0].sent, t.wire, t.net).net
    ensures Front(t).1 <==> Push(t.jobs[0].buf, t.jobs[0].sent, t.wire, t.net).sent == |t.jobs[0].buf|
    ensures Front(t).1 ==> |Front(t).0.wire| == |t.wire| + |t.jobs[0].buf| - t.jobs[0].sent
    ensures !Front(t).1 ==> Front(t).0.wire == Push(t.jobs[0].buf, t.jobs[0].sent, t.wire, t.net).wire
  {
    hide Complete, Push, Weight, WeightAll;
    var j := t.jobs[0];
    var p := Push(j.buf, j.sent, t.wire, t.net);
    CompleteQueued(t.(wire := p.wire, net := p.net, jobs := t.jobs[0 := j.(sent := p.sent)]), j.done);
  }

  /** Working off the queue puts on the wire exactly what the answers accept. */
  lemma {:induction false} DrainTakes(t: Tx)
    requires SentWithin(t.jobs)
    ensures |Drain(t).wire| == |t.wire| + Accepted(t.net, Sizes(t.jobs))
    decreases QueueWeight(t.jobs)
  {
    hide Front, QueueWeight, SentWithin, Push, Accepted;
    if t.jobs == [] {
      NothingAccepted(t.net);
    } else {
      var j, ws := t.jobs[0], Writes(t.jobs[0].done);
      FrontWithin(t.jobs);
      FrontNet(t);
      SizesFirst(t.jobs);
      PushAccepts(j.buf, j.sent, t.wire, t.net, Sizes(t.jobs)[1..]);
      if Front(t).1 {
        FrontDone(t);
        DrainTakes(Front(t).0);
      }
    }
  }

  lemma NothingAccepted(net: seq<nat>)
    ensures Accepted(net, []) == 0
  {
  }

  lemma SizesFirst(jobs: seq<Job>)
    requires SentWithin(jobs) && jobs != []
    ensures var rest := jobs[1..] + Fresh(Writes(jobs[0].done));
            && SentWithin(rest) && jobs[0].sent <= |jobs[0].buf|
            && Sizes(jobs) == [|jobs[0].buf| - jobs[0].sent] + Sizes(rest)
            && Sizes(jobs)[1..] == Sizes(rest)
  {
    assert jobs[0] in jobs;
  }

  /** The queue is worked off exactly when the socket accepts all bytes due. */
  lemma EmptiedIff(t: Tx)
    requires Consistent(t) && SentWithin(t.jobs)
    ensures Drain(t).jobs == [] <==> Accepted(t.net, Sizes(t.jobs)) == Due(t.jobs)
    ensures Accepted(t.net, Sizes(t.jobs)) <= Due(t.jobs)
  {
    hide Consistent, Drain, Due, Sizes, Remaining, Accepted;
    DrainConsistent(t);
    DrainDue(t);
    DrainTakes(t);
    DrainLeaves(t);
    var u := Drain(t);
    ConsistentSentWithin(u);
    DueAtLeastRemaining(u.jobs);
    NothingDue();
  }

  // ---- Writes to an idle connection ----

  /** The sizes of a write and of all its callbacks write, in the order in which an idle socket is offered them. */
  function WriteSizes(w: Write): (r: seq<nat>)
    decreases w, 0
  {
    [|w.buf|] + CallbackSizes(w.done)
  }

  function CallbackSizes(done: Callback): (r: seq<nat>)
    decreases done, 1
  {
    if done.NoCallback? then [] else AllSizes(done.writes)
  }

  function AllSizes(ws: seq<Write>): (r: seq<nat>)
    decreases ws, 0
  {
    if ws == [] then [] else WriteSizes(ws[0]) + AllSizes(ws[1..])
  }

  /** Of `total` bytes, ahead of buffers of the sizes `more`, all are accepted and the queue stays empty, or not all are. */
  ghost predicate TakesAll(net: seq<nat>, sizes: seq<nat>, more: seq<nat>, total: nat, u: Tx) {
    if u.jobs == [] then Accepted(net, sizes + more) == total + Accepted(u.net, more)
    else Accepted(net, sizes + more) < total
  }

  lemma {:induction false} SubmitTakes(t: Tx, w: Write, more: seq<nat>)
    requires t.jobs == []
    ensures TakesAll(t.net, WriteSizes(w), more, |w.buf| + DueOf(w.done), Submit(t, w))
    decreases w, 0
  {
    hide Push, Accepted;
    var u := t.(log := t.log + [w]);
    var p, rest := Push(w.buf, 0, u.wire, u.net), CallbackSizes(w.done) + more;
    assert WriteSizes(w) + more == [|w.buf| - 0] + rest;
    PushAccepts(w.buf, 0, u.wire, u.net, rest);
    if p.sent == |w.buf| {
      CompleteTakes(u.(wire := p.wire, net := p.net), w.done, more);
    }
  }

  lemma {:induction false} CompleteTakes(t: Tx, done: Callback, more: seq<nat>)
    requires t.jobs == []
    ensures TakesAll(t.net, CallbackSizes(done), more, DueOf(done), Complete(t, done))
    decreases done, 1
  {
    hide Accepted;
    match done
    case NoCallback =>
      assert [] + more == more;
    case Callback(id, writes) =>
      SubmitAllTakes(t.(fired := t.fired + [Receipt(id, |t.wire|)]), writes, more);
  }

  lemma {:induction false} SubmitAllTakes(t: Tx, ws: seq<Write>, more: seq<nat>)
    requires t.jobs == []
    ensures TakesAll(t.net, AllSizes(ws), more, DueOfAll(ws), SubmitAll(t, ws))
    decreases ws, 0
  {
    hide Submit, Accepted;
    if ws == [] {
      assert [] + more == more;
    } else {
      var u := Submit(t, ws[0]);
      SubmitTakes(t, ws[0], AllSizes(ws[1..]) + more);
      Associative(WriteSizes(ws[0]), AllSizes(ws[1..]), more);
      if u.jobs == [] {
        SubmitAllTakes(u, ws[1..], more);
      } else {
        SubmitAllQueued(u, ws[1..]);
      }
    }
  }

  /** A write to an idle connection leaves nothing waiting exactly when the answers accept it and all its callbacks write. */
  lemma SentAtOnceIff(t: Tx, w: Write)
    requires t.jobs == []
    ensures Submit(t, w).jobs == [] <==> Accepted(t.net, WriteSizes(w)) == |w.buf| + DueOf(w.done)
  {
    hide Submit, WriteSizes, Accepted;
    SubmitTakes(t, w, []);
    assert WriteSizes(w) + [] == WriteSizes(w);
    NothingAccepted(Submit(t, w).net);
  }
}
