/**
 The sending side of a connection (ConnectionHandler.cpp): a FIFO of partly sent jobs, completion
 callbacks that may write again, a counter of unsent bytes, and the EPOLLOUT interest.
 */
module Transmit {
  import opened Bytes

  /** A completion callback, as what it does when it runs: the writes it makes, with their own callbacks. */
  datatype Callback = NoCallback | Callback(id: nat, writes: seq<Write>)

  datatype Write = Write(buf: Bytes, done: Callback)

  datatype Job = Job(buf: Bytes, sent: nat, done: Callback)

  /** A callback that ran, and how many bytes the wire held at that moment. */
  datatype Receipt = Receipt(id: nat, onWire: nat)

  /**
   `jobs`, `counter` and `armed` are transmit_jobs, outBufferSize and the EPOLLOUT interest. `wire` is what
   the socket took so far, `fired` the callbacks that ran, `log` all writes in the order in which they got
   the lock, `net` the answers of the coming send calls: how much is taken, 0 for would-block.
   */
  datatype Tx = Tx(jobs: seq<Job>, counter: int, armed: bool,
                   wire: Bytes, fired: seq<Receipt>, log: seq<Write>, net: seq<nat>)

  const INITIAL := Tx([], 0, false, [], [], [], [])

  function Min(a: nat, b: nat): nat {
    if a < b then a else b
  }

  /** How far a buffer got, and the state of the socket. */
  datatype Progress = Progress(sent: nat, wire: Bytes, net: seq<nat>)

  /** The loop of flush_job. */
  function Push(buf: Bytes, sent: nat, wire: Bytes, net: seq<nat>): (p: Progress)
    requires sent <= |buf|
    ensures sent <= p.sent <= |buf|
    ensures p.wire == wire + buf[sent..p.sent]
    ensures p.sent < |buf| && net != [] && net[0] > 0 ==> p.sent > sent
    decreases |buf| - sent
  {
    if sent == |buf| then Progress(sent, wire, net)
    else if net == [] then Progress(sent, wire, net)
    else if net[0] == 0 then Progress(sent, wire, net[1..])
    else
      var w := Min(net[0], |buf| - sent);
      Push(buf, sent + w, wire + buf[sent..sent + w], net[1..])
  }

  function Enqueue(t: Tx, j: Job): Tx {
    t.(jobs := t.jobs + [j], counter := t.counter + |j.buf| - j.sent, armed := true)
  }

  /** `write`: straight to the socket when nothing waits, else to the end of the queue. */
  function Submit(t: Tx, w: Write): (r: Tx)
    decreases w, 0
  {
    var u := t.(log := t.log + [w]);
    if u.jobs != [] then Enqueue(u, Job(w.buf, 0, w.done))
    else
      var p := Push(w.buf, 0, u.wire, u.net);
      var v := u.(wire := p.wire, net := p.net);
      if p.sent == |w.buf| then Complete(v, w.done)
      else Enqueue(v, Job(w.buf, p.sent, w.done))
  }

  /** Running the callback of a job whose bytes are all on the wire. */
  function Complete(t: Tx, done: Callback): (r: Tx)
    decreases done, 1
  {
    match done
    case NoCallback => t
    case Callback(id, writes) => SubmitAll(t.(fired := t.fired + [Receipt(id, |t.wire|)]), writes)
  }

  function SubmitAll(t: Tx, ws: seq<Write>): (r: Tx)
    decreases ws, 0
  {
    if ws == [] then t else SubmitAll(Submit(t, ws[0]), ws[1..])
  }

  function Fresh(ws: seq<Write>): (r: seq<Job>)
    ensures |r| == |ws|
    ensures forall i :: 0 <= i < |ws| ==> r[i] == Job(ws[i].buf, 0, ws[i].done)
  {
    seq(|ws|, i requires 0 <= i < |ws| => Job(ws[i].buf, 0, ws[i].done))
  }

  /** All buffers of a list of writes, one after the other. */
  function Bufs(ws: seq<Write>): (r: Bytes) {
    if ws == [] then [] else Bufs(ws[..|ws| - 1]) + ws[|ws| - 1].buf
  }

  /** Unsent bytes of the queue. */
  function Remaining(jobs: seq<Job>): (n: int) {
    if jobs == [] then 0 else |jobs[0].buf| - jobs[0].sent + Remaining(jobs[1..])
  }

  lemma FreshFirst(ws: seq<Write>)
    requires ws != []
    ensures Fresh(ws) == Fresh([ws[0]]) + Fresh(ws[1..])
    ensures Fresh([ws[0]]) == [Job(ws[0].buf, 0, ws[0].done)] && Remaining(Fresh([ws[0]])) == |ws[0].buf|
    ensures Remaining(Fresh(ws)) == |ws[0].buf| + Remaining(Fresh(ws[1..]))
  {
    var f := Fresh(ws);
    assert f[1..] == Fresh(ws[1..]) && Fresh([ws[0]])[1..] == [];
  }

  /** While a job is in the queue, writes only ever go to its end. */
  lemma {:induction false} SubmitAllQueued(t: Tx, ws: seq<Write>)
    requires t.jobs != []
    ensures SubmitAll(t, ws) ==
            t.(jobs := t.jobs + Fresh(ws), counter := t.counter + Remaining(Fresh(ws)),
               armed := t.armed || ws != [], log := t.log + ws)
    decreases |ws|
  {
    hide Push, Complete, Remaining, Fresh;
    if ws == [] {
      NothingFresh();
      assert t.jobs + [] == t.jobs && t.log + ws == t.log;
    } else {
      var w := ws[0];
      var u := Submit(t, w);
      FreshFirst(ws);
      SubmitAllQueued(u, ws[1..]);
      Associative(t.log, [w], ws[1..]);
      assert [w] + ws[1..] == ws;
      Associative(t.jobs, Fresh([w]), Fresh(ws[1..]));
    }
  }

  lemma NothingFresh()
    ensures Fresh([]) == [] && Remaining([]) == 0
  {
  }

  function Writes(done: Callback): (ws: seq<Write>) {
    if done.NoCallback? then [] else done.writes
  }

  function ReceiptsOf(done: Callback, onWire: nat): (r: seq<Receipt>) {
    if done.NoCallback? then [] else [Receipt(done.id, onWire)]
  }

  lemma CompleteQueued(t: Tx, done: Callback)
    requires t.jobs != []
    ensures var ws := Writes(done);
            Complete(t, done) ==
            t.(jobs := t.jobs + Fresh(ws), counter := t.counter + Remaining(Fresh(ws)),
               armed := t.armed || ws != [], log := t.log + ws, fired := t.fired + ReceiptsOf(done, |t.wire|))
  {
    var ws := Writes(done);
    if done.NoCallback? {
      assert t.jobs + Fresh(ws) == t.jobs && t.log + ws == t.log && t.fired + [] == t.fired;
    } else {
      SubmitAllQueued(t.(fired := t.fired + [Receipt(done.id, |t.wire|)]), ws);
    }
  }

  // ---- Termination of the drain: callbacks are finite trees ----

  function Weight(done: Callback): (n: nat)
    decreases done, 1
  {
    if done.NoCallback? then 0 else WeightAll(done.writes)
  }

  function WeightAll(ws: seq<Write>): (n: nat)
    decreases ws, 0
  {
    if ws == [] then 0 else 1 + Weight(ws[0].done) + WeightAll(ws[1..])
  }

  function QueueWeight(jobs: seq<Job>): (n: nat) {
    if jobs == [] then 0 else 1 + Weight(jobs[0].done) + QueueWeight(jobs[1..])
  }

  lemma {:induction false} QueueWeightAppend(a: seq<Job>, b: seq<Job>)
    ensures QueueWeight(a + b) == QueueWeight(a) + QueueWeight(b)
  {
    if a == [] {
      assert a + b == b;
    } else {
      assert (a + b)[1..] == a[1..] + b;
      QueueWeightAppend(a[1..], b);
    }
  }

  lemma {:induction false} QueueWeightFresh(ws: seq<Write>)
    ensures QueueWeight(Fresh(ws)) == WeightAll(ws)
  {
    if ws != [] {
      assert Fresh(ws)[1..] == Fresh(ws[1..]);
      QueueWeightFresh(ws[1..]);
    }
  }

  /** Handling the front of the queue: push it, and when it is done run its callback and drop it. */
  function Front(t: Tx): (r: (Tx, bool))
    requires t.jobs != [] && t.jobs[0].sent <= |t.jobs[0].buf|
  {
    var j := t.jobs[0];
    var p := Push(j.buf, j.sent, t.wire, t.net);
    var u := t.(wire := p.wire, net := p.net, jobs := t.jobs[0 := j.(sent := p.sent)]);
    if p.sent < |j.buf| then (u.(counter := u.counter - (p.sent - j.sent)), false)
    else
      CompleteQueued(u, j.done);
      var v := Complete(u, j.done);
      (v.(jobs := v.jobs[1..], counter := v.counter - (p.sent - j.sent)), true)
  }

  predicate SentWithin(jobs: seq<Job>) {
    forall j :: j in jobs ==> j.sent <= |j.buf|
  }

  /** What a completed front leaves. */
  lemma FrontDone(t: Tx)
    requires t.jobs != [] && t.jobs[0].sent <= |t.jobs[0].buf| && Front(t).1
    ensures var (u, j, ws) := (Front(t).0, t.jobs[0], Writes(t.jobs[0].done));
            var wire := t.wire + j.buf[j.sent..];
            && u.jobs == t.jobs[1..] + Fresh(ws)
            && u.counter == t.counter + Remaining(Fresh(ws)) - (|j.buf| - j.sent)
            && u.wire == wire && u.log == t.log + ws
            && u.fired == t.fired + ReceiptsOf(j.done, |wire|)
            && u.armed == (t.armed || ws != [])
            && QueueWeight(u.jobs) < QueueWeight(t.jobs)
            && (SentWithin(t.jobs) ==> SentWithin(u.jobs))
  {
    hide Push, Complete, Weight, WeightAll;
    var j := t.jobs[0];
    var p := Push(j.buf, j.sent, t.wire, t.net);
    assert j.buf[j.sent..|j.buf|] == j.buf[j.sent..];
    var front := j.(sent := p.sent);
    var u := t.(wire := p.wire, net := p.net, jobs := t.jobs[0 := front]);
    var ws := Writes(j.done);
    CompleteQueued(u, j.done);
    assert u.jobs == [front] + t.jobs[1..];
    assert (u.jobs + Fresh(ws))[1..] == t.jobs[1..] + Fresh(ws);
    QueueWeightAppend(t.jobs[1..], Fresh(ws));
    QueueWeightFresh(ws);
    WeightOfWrites(j.done);
  }

  lemma WeightOfWrites(done: Callback)
    ensures Weight(done) == WeightAll(Writes(done))
  {
  }

  /** The EPOLLOUT branch: the queue is worked off until it is empty or the socket would block. */
  function Drain(t: Tx): (r: Tx)
    requires SentWithin(t.jobs)
    decreases QueueWeight(t.jobs)
  {
    if t.jobs == [] then t
    else
      var (u, done) := Front(t);
      if !done then u
      else
        FrontDone(t);
        Drain(u)
  }
}
