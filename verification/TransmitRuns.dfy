/** What every run of the transmit queue keeps: bytes, order, counter and callbacks. */
module TransmitRuns {
  import opened Bytes
  import opened Transmit

  /** The receipts of the callbacks of `ws`: each when the wire holds all writes up to its own and no byte more. */
  function Receipts(ws: seq<Write>): (r: seq<Receipt>) {
    if ws == [] then []
    else Receipts(ws[..|ws| - 1]) + ReceiptsOf(ws[|ws| - 1].done, |Bufs(ws)|)
  }

  /** The queued jobs are writes `log[n..]`, of which only the first may be partly sent. */
  ghost predicate Queued(jobs: seq<Job>, waiting: seq<Write>) {
    && |jobs| == |waiting|
    && (forall i :: 0 <= i < |jobs| ==> jobs[i].buf == waiting[i].buf && jobs[i].done == waiting[i].done)
    && (forall i :: 0 < i < |jobs| ==> jobs[i].sent == 0)
    && (jobs != [] ==> jobs[0].sent == 0 || jobs[0].sent < |jobs[0].buf|)
  }

  function SentOfFront(jobs: seq<Job>): (r: Bytes) {
    if jobs == [] || jobs[0].sent > |jobs[0].buf| then [] else jobs[0].buf[..jobs[0].sent]
  }

  /**
   The state after `n` completed writes. The wire holds those writes and the sent part of the next one;
   exactly their callbacks have run, each when its write was the last thing on the wire.
   */
  ghost predicate After(t: Tx, n: nat) {
    && n + |t.jobs| == |t.log|
    && Queued(t.jobs, t.log[n..])
    && t.wire == Bufs(t.log[..n]) + SentOfFront(t.jobs)
    && t.fired == Receipts(t.log[..n])
    && t.counter == Remaining(t.jobs)
  }

  ghost predicate Consistent(t: Tx) {
    |t.jobs| <= |t.log| && After(t, |t.log| - |t.jobs|)
  }

  lemma BufsNext(ws: seq<Write>, w: Write)
    ensures Bufs(ws + [w]) == Bufs(ws) + w.buf
    ensures Receipts(ws + [w]) == Receipts(ws) + ReceiptsOf(w.done, |Bufs(ws)| + |w.buf|)
  {
    assert (ws + [w])[..|ws|] == ws;
  }

  lemma {:induction false} RemainingAppend(a: seq<Job>, b: seq<Job>)
    ensures Remaining(a + b) == Remaining(a) + Remaining(b)
  {
    if a == [] {
      assert a + b == b;
    } else {
      assert (a + b)[1..] == a[1..] + b;
      RemainingAppend(a[1..], b);
    }
  }

  lemma RemainingOne(j: Job)
    ensures Remaining([j]) == |j.buf| - j.sent
  {
    assert Remaining([j]) == |j.buf| - j.sent + Remaining([]);
  }

  /** A write that goes to the end of a waiting queue. */
  lemma SubmitQueued(t: Tx, w: Write)
    requires Consistent(t) && t.jobs != []
    ensures Consistent(Submit(t, w)) && Submit(t, w).jobs != []
  {
    hide Receipts, Bufs, Remaining;
    var u, n, j := Submit(t, w), |t.log| - |t.jobs|, Job(w.buf, 0, w.done);
    assert u.log[n..] == t.log[n..] + [w] && u.log[..n] == t.log[..n];
    RemainingAppend(t.jobs, [j]);
    RemainingOne(j);
  }

  /** Everything before the write is out and nothing waits. */
  lemma Flushed(t: Tx)
    requires Consistent(t) && t.jobs == []
    ensures t.wire == Bufs(t.log) && t.fired == Receipts(t.log) && t.counter == 0
  {
    assert t.log[..|t.log|] == t.log;
    assert Bufs(t.log) + [] == Bufs(t.log);
  }

  lemma NothingWaits(t: Tx)
    requires t.jobs == [] && t.wire == Bufs(t.log) && t.fired == Receipts(t.log) && t.counter == 0
    ensures Consistent(t)
  {
    assert t.log[..|t.log|] == t.log && t.log[|t.log|..] == [];
    assert Bufs(t.log) + [] == Bufs(t.log);
  }

  /** A write to an idle connection that the socket does not take in full. */
  lemma SubmitBlocked(t: Tx, w: Write, p: Progress)
    requires Consistent(t) && t.jobs == []
    requires p.sent < |w.buf| && p.wire == t.wire + w.buf[..p.sent]
    ensures Consistent(Enqueue(t.(log := t.log + [w], wire := p.wire, net := p.net), Job(w.buf, p.sent, w.done)))
  {
    hide Receipts, Bufs;
    Flushed(t);
    var j := Job(w.buf, p.sent, w.done);
    var log, n := t.log + [w], |t.log|;
    assert log[n..] == [w] && log[..n] == t.log;
    RemainingOne(j);
    assert [] + [j] == [j];
  }

  /** A write to an idle connection that the socket takes in full, just before its callback runs. */
  lemma SubmitSent(t: Tx, w: Write, p: Progress)
    requires Consistent(t) && t.jobs == []
    requires p.wire == t.wire + w.buf
    ensures var u := t.(log := t.log + [w], wire := p.wire, net := p.net);
            && Consistent(u.(fired := u.fired + ReceiptsOf(w.done, |u.wire|)))
  {
    hide Receipts, Bufs;
    Flushed(t);
    BufsNext(t.log, w);
    NothingWaits(t.(log := t.log + [w], wire := p.wire, net := p.net,
                    fired := t.fired + ReceiptsOf(w.done, |p.wire|)));
  }

  /** Every write keeps the state consistent, whatever the callbacks it triggers write in turn. */
  lemma {:induction false} SubmitConsistent(t: Tx, w: Write)
    requires Consistent(t)
    ensures Consistent(Submit(t, w))
    decreases w, 0
  {
    hide Consistent;
    if t.jobs != [] {
      SubmitQueued(t, w);
    } else {
      var p := Push(w.buf, 0, t.wire, t.net);
      assert w.buf[0..p.sent] == w.buf[..p.sent];
      if p.sent == |w.buf| {
        assert w.buf[..|w.buf|] == w.buf;
        SubmitSent(t, w, p);
        var u := t.(log := t.log + [w], wire := p.wire, net := p.net);
        CompleteConsistent(u, w.done, u.(fired := u.fired + ReceiptsOf(w.done, |u.wire|)));
      } else {
        SubmitBlocked(t, w, p);
      }
    }
  }

  lemma {:induction false} CompleteConsistent(t: Tx, done: Callback, u: Tx)
    requires u == t.(fired := t.fired + ReceiptsOf(done, |t.wire|)) && Consistent(u)
    ensures Consistent(Complete(t, done))
    decreases done, 1
  {
    hide Consistent;
    match done
    case NoCallback =>
      assert t.fired + [] == t.fired;
    case Callback(_, writes) =>
      SubmitAllConsistent(u, writes);
  }

  lemma {:induction false} SubmitAllConsistent(t: Tx, ws: seq<Write>)
    requires Consistent(t)
    ensures Consistent(SubmitAll(t, ws))
    decreases ws, 0
  {
    hide Consistent, Submit;
    if ws != [] {
      SubmitConsistent(t, ws[0]);
      SubmitAllConsistent(Submit(t, ws[0]), ws[1..]);
    }
  }

  // ---- The drain ----

  lemma ConsistentSentWithin(t: Tx)
    requires Consistent(t)
    ensures SentWithin(t.jobs)
    ensures t.jobs != [] ==> t.jobs[0].sent <= |t.jobs[0].buf| && t.jobs[0].buf == t.log[|t.log| - |t.jobs|].buf
  {
    hide Bufs, Receipts, Remaining;
    forall j | j in t.jobs
      ensures j.sent <= |j.buf|
    {
      var i :| 0 <= i < |t.jobs| && t.jobs[i] == j;
    }
  }

  lemma QueueShifts(jobs: seq<Job>, waiting: seq<Write>, more: seq<Write>)
    requires jobs != [] && Queued(jobs, waiting)
    ensures Queued(jobs[1..] + Fresh(more), waiting[1..] + more)
    ensures SentOfFront(jobs[1..] + Fresh(more)) == []
  {
    var q, w := jobs[1..] + Fresh(more), waiting[1..] + more;
    forall i | 0 <= i < |q|
      ensures q[i].buf == w[i].buf && q[i].done == w[i].done && q[i].sent == 0
    {
      if i < |jobs| - 1 {
        assert q[i] == jobs[i + 1] && w[i] == waiting[i + 1];
      } else {
        assert q[i] == Fresh(more)[i - (|jobs| - 1)];
      }
    }
  }

  /** The front of the queue is completed: one more write done, its callback ran at that very moment. */
  lemma FrontDoneConsistent(t: Tx)
    requires Consistent(t) && t.jobs != []
    requires SentWithin(t.jobs) && Front(t).1
    ensures Consistent(Front(t).0)
  {
    hide Front, Receipts, Bufs, Remaining, Queued, Fresh;
    ConsistentSentWithin(t);
    FrontDone(t);
    var u, n, j, ws := Front(t).0, |t.log| - |t.jobs|, t.jobs[0], Writes(t.jobs[0].done);
    FrontWrite(t);
    BufsNext(t.log[..n], t.log[n]);
    assert t.log[..n + 1] == t.log[..n] + [t.log[n]];
    assert u.log[..n + 1] == t.log[..n + 1];
    assert u.log[n + 1..] == t.log[n..][1..] + ws;
    QueueShifts(t.jobs, t.log[n..], ws);
    assert j.buf == j.buf[..j.sent] + j.buf[j.sent..];
    Associative(Bufs(t.log[..n]), j.buf[..j.sent], j.buf[j.sent..]);
    assert u.wire == Bufs(u.log[..n + 1]) + [];
    RemainingFront(t.jobs);
    RemainingAppend(t.jobs[1..], Fresh(ws));
  }

  lemma FrontWrite(t: Tx)
    requires Consistent(t) && t.jobs != []
    ensures var n := |t.log| - |t.jobs|;
            t.jobs[0].buf == t.log[n].buf && t.jobs[0].done == t.log[n].done
  {
    var n := |t.log| - |t.jobs|;
    assert t.log[n..][0] == t.log[n];
  }

  lemma RemainingFront(jobs: seq<Job>)
    requires jobs != []
    ensures Remaining(jobs) == |jobs[0].buf| - jobs[0].sent + Remaining(jobs[1..])
  {
  }

  /** The front of the queue is sent in part. */
  lemma FrontBlockedConsistent(t: Tx)
    requires Consistent(t) && t.jobs != []
    requires SentWithin(t.jobs) && !Front(t).1
    ensures Consistent(Front(t).0)
  {
    hide Receipts, Bufs, Remaining, Push, Complete;
    ConsistentSentWithin(t);
    var u, n, j := Front(t).0, |t.log| - |t.jobs|, t.jobs[0];
    var sent := u.jobs[0].sent;
    assert j.buf[..sent] == j.buf[..j.sent] + j.buf[j.sent..sent];
    Associative(Bufs(t.log[..n]), j.buf[..j.sent], j.buf[j.sent..sent]);
    RemainingFront(t.jobs);
    RemainingFront(u.jobs);
    assert u.jobs[1..] == t.jobs[1..];
  }

  lemma {:induction false} DrainConsistent(t: Tx)
    requires Consistent(t) && SentWithin(t.jobs)
    ensures Consistent(Drain(t))
    decreases QueueWeight(t.jobs)
  {
    hide Consistent, Front, SentWithin, QueueWeight;
    if t.jobs != [] {
      ConsistentSentWithin(t);
      if Front(t).1 {
        FrontDone(t);
        FrontDoneConsistent(t);
        DrainConsistent(Front(t).0);
      } else {
        FrontBlockedConsistent(t);
      }
    }
  }

  // ---- Whole runs ----

  /** One step of a run: a write from outside, or the socket reported writable. `net` answers the send calls. */
  datatype Step = Application(write: Write, net: seq<nat>) | Writable(net: seq<nat>)

  function Next(t: Tx, s: Step): (r: Tx)
    requires SentWithin(t.jobs)
  {
    match s
    case Application(w, net) => Submit(t.(net := net), w)
    case Writable(net) => Drain(t.(net := net))
  }

  lemma NextConsistent(t: Tx, s: Step)
    requires Consistent(t) && SentWithin(t.jobs)
    ensures Consistent(Next(t, s))
  {
    hide Drain, Submit;
    match s
    case Application(w, net) => SubmitConsistent(t.(net := net), w);
    case Writable(net) => DrainConsistent(t.(net := net));
  }

  ghost function Run(t: Tx, steps: seq<Step>): (r: Tx)
    requires Consistent(t)
    ensures Consistent(r)
    decreases |steps|
  {
    ConsistentSentWithin(t);
    if steps == [] then t
    else
      NextConsistent(t, steps[0]);
      Run(Next(t, steps[0]), steps[1..])
  }

  /** The unsent parts of the queue, in order. */
  function Unsent(jobs: seq<Job>): (r: Bytes)
    requires SentWithin(jobs)
  {
    if jobs == [] then [] else jobs[0].buf[jobs[0].sent..] + Unsent(jobs[1..])
  }

  lemma {:induction false} BufsAppend(a: seq<Write>, b: seq<Write>)
    ensures Bufs(a + b) == Bufs(a) + Bufs(b)
    decreases |b|
  {
    if b == [] {
      assert a + b == a;
    } else {
      var front, last := b[..|b| - 1], b[|b| - 1];
      assert a + b == (a + front) + [last] && b == front + [last];
      BufsNext(a + front, last);
      BufsNext(front, last);
      BufsAppend(a, front);
      Associative(Bufs(a), Bufs(front), last.buf);
    }
  }

  lemma BufsFirst(ws: seq<Write>)
    requires ws != []
    ensures Bufs(ws) == ws[0].buf + Bufs(ws[1..])
  {
    assert ws == [ws[0]] + ws[1..] && [] + [ws[0]] == [ws[0]];
    BufsAppend([ws[0]], ws[1..]);
    BufsNext([], ws[0]);
  }

  lemma NoBufs()
    ensures Bufs([]) == []
  {
  }

  lemma {:induction false} UnsentOfFresh(jobs: seq<Job>, ws: seq<Write>)
    requires SentWithin(jobs) && |jobs| == |ws|
    requires forall i :: 0 <= i < |jobs| ==> jobs[i].buf == ws[i].buf && jobs[i].sent == 0
    ensures Unsent(jobs) == Bufs(ws)
  {
    hide Bufs;
    if jobs == [] {
      NoBufs();
    } else {
      UnsentOfFresh(jobs[1..], ws[1..]);
      BufsFirst(ws);
      assert jobs[0].buf[0..] == ws[0].buf;
    }
  }

  lemma {:induction false} UnsentLength(jobs: seq<Job>)
    requires SentWithin(jobs)
    ensures Remaining(jobs) == |Unsent(jobs)|
  {
    if jobs != [] {
      UnsentLength(jobs[1..]);
    }
  }

  /** What is on the wire, followed by what waits, is everything written, in lock order. */
  lemma Conservation(t: Tx)
    requires Consistent(t) && SentWithin(t.jobs)
    ensures t.wire + Unsent(t.jobs) == Bufs(t.log)
    ensures t.counter == |Unsent(t.jobs)| == |Bufs(t.log)| - |t.wire|
  {
    hide Bufs, Receipts, Remaining, Consistent;
    UnsentLength(t.jobs);
    if t.jobs == [] {
      Flushed(t);
      assert t.wire + [] == t.wire;
      ConsistentCounter(t);
    } else {
      ConsistentCounter(t);
      var n := |t.log| - |t.jobs|;
      var waiting := t.log[n..];
      ConsistentParts(t, n);
      var j := t.jobs[0];
      assert Unsent(t.jobs) == j.buf[j.sent..] + Unsent(t.jobs[1..]);
      UnsentOfFresh(t.jobs[1..], waiting[1..]);
      BufsFirst(waiting);
      assert j.buf == j.buf[..j.sent] + j.buf[j.sent..];
      BufsAppend(t.log[..n], waiting);
      assert t.log == t.log[..n] + waiting;
      Regroup(Bufs(t.log[..n]), j.buf[..j.sent], j.buf[j.sent..], Bufs(waiting[1..]));
    }
  }

  lemma Regroup(a: Bytes, b: Bytes, c: Bytes, d: Bytes)
    ensures (a + b) + (c + d) == a + ((b + c) + d)
  {
  }

  lemma ConsistentCounter(t: Tx)
    requires Consistent(t)
    ensures t.counter == Remaining(t.jobs) && |t.jobs| <= |t.log|
  {
  }

  lemma ConsistentParts(t: Tx, n: nat)
    requires Consistent(t) && t.jobs != [] && n == |t.log| - |t.jobs|
    ensures t.wire == Bufs(t.log[..n]) + t.jobs[0].buf[..t.jobs[0].sent]
    ensures t.jobs[0].sent <= |t.jobs[0].buf| && t.jobs[0].buf == t.log[n..][0].buf
    ensures forall i :: 0 <= i < |t.jobs| - 1 ==>
              t.jobs[1..][i].buf == t.log[n..][1..][i].buf && t.jobs[1..][i].sent == 0
    ensures SentWithin(t.jobs[1..])
  {
    hide Bufs, Receipts, Remaining;
    ConsistentSentWithin(t);
  }

  /** All of it, for every run from a consistent state, such as that of a fresh connection. */
  lemma EveryRun(t: Tx, steps: seq<Step>)
    requires Consistent(t)
    ensures var u := Run(t, steps);
            && SentWithin(u.jobs)
            && u.wire + Unsent(u.jobs) == Bufs(u.log)
            && u.counter == |Unsent(u.jobs)|
            && |u.jobs| <= |u.log|
            && u.fired == Receipts(u.log[..|u.log| - |u.jobs|])
  {
    hide Bufs, Receipts, Run;
    var u := Run(t, steps);
    ConsistentSentWithin(u);
    Conservation(u);
  }

  lemma InitialConsistent()
    ensures Consistent(INITIAL)
  {
  }

  // ---- Lock order: a write is logged before everything its own callback writes ----

  lemma {:induction false} SubmitLogs(t: Tx, w: Write)
    ensures t.log + [w] <= Submit(t, w).log
    decreases w, 0
  {
    var u := t.(log := t.log + [w]);
    if u.jobs == [] {
      var p := Push(w.buf, 0, u.wire, u.net);
      if p.sent == |w.buf| {
        CompleteLogs(u.(wire := p.wire, net := p.net), w.done);
      }
    }
  }

  lemma {:induction false} CompleteLogs(t: Tx, done: Callback)
    ensures t.log <= Complete(t, done).log
    decreases done, 1
  {
    if done.Callback? {
      SubmitAllLogs(t.(fired := t.fired + [Receipt(done.id, |t.wire|)]), done.writes);
    }
  }

  lemma {:induction false} SubmitAllLogs(t: Tx, ws: seq<Write>)
    ensures t.log <= SubmitAll(t, ws).log
    decreases ws, 0
  {
    hide Submit;
    if ws != [] {
      SubmitLogs(t, ws[0]);
      SubmitAllLogs(Submit(t, ws[0]), ws[1..]);
    }
  }

  /** The drain adds the writes of the callbacks it runs behind everything written before. */
  lemma {:induction false} DrainLogs(t: Tx)
    requires SentWithin(t.jobs)
    ensures t.log <= Drain(t).log
    decreases QueueWeight(t.jobs)
  {
    hide Front, QueueWeight, SentWithin;
    if t.jobs != [] {
      assert t.jobs[0].sent <= |t.jobs[0].buf| by { FrontWithin(t.jobs); }
      if Front(t).1 {
        FrontDone(t);
        DrainLogs(Front(t).0);
      } else {
        FrontBlockedLog(t);
      }
    }
  }

  lemma FrontWithin(jobs: seq<Job>)
    requires jobs != [] && SentWithin(jobs)
    ensures jobs[0].sent <= |jobs[0].buf|
  {
  }

  lemma FrontBlockedLog(t: Tx)
    requires t.jobs != [] && t.jobs[0].sent <= |t.jobs[0].buf| && !Front(t).1
    ensures Front(t).0.log == t.log
  {
  }

  // ---- Every write made enters the log once ----

  /** The writes of the callbacks of `ws`. */
  ghost function CallbackWrites(ws: seq<Write>): (m: multiset<Write>) {
    if ws == [] then multiset{} else CallbackWrites(ws[..|ws| - 1]) + multiset(Writes(ws[|ws| - 1].done))
  }

  /** The writes whose bytes are all on the wire. */
  ghost function Completed(t: Tx): (ws: seq<Write>)
    requires |t.jobs| <= |t.log|
  {
    t.log[..|t.log| - |t.jobs|]
  }

  /** Of the writes `made` from outside and by the callbacks that ran, all but `ws` are in the log, each once. */
  ghost predicate Owed(t: Tx, ws: seq<Write>, made: multiset<Write>) {
    |t.jobs| <= |t.log| && multiset(t.log) + multiset(ws) == made + CallbackWrites(Completed(t))
  }

  lemma CallbackWritesNext(ws: seq<Write>, w: Write)
    ensures CallbackWrites(ws + [w]) == CallbackWrites(ws) + multiset(Writes(w.done))
  {
    assert (ws + [w])[..|ws|] == ws;
  }

  lemma MultisetAppend(a: seq<Write>, b: seq<Write>)
    ensures multiset(a + b) == multiset(a) + multiset(b)
  {
  }

  lemma Regrouped(log: multiset<Write>, w: multiset<Write>, ws: multiset<Write>, more: multiset<Write>,
             made: multiset<Write>, done: multiset<Write>)
    requires log + (w + ws) == made + done
    ensures (log + w) + (more + ws) == made + (done + more)
  {
    forall x: Write
      ensures ((log + w) + (more + ws))[x] == (made + (done + more))[x]
    {
      assert (log + (w + ws))[x] == (made + done)[x];
    }
  }

  lemma SentOwed(t: Tx, v: Tx, w: Write, ws: seq<Write>, made: multiset<Write>)
    requires Owed(t, [w] + ws, made) && t.jobs == [] && v.jobs == [] && v.log == t.log + [w]
    ensures Owed(v, Writes(w.done) + ws, made)
  {
    hide CallbackWrites, Writes;
    assert Completed(t) == t.log && Completed(v) == t.log + [w];
    CallbackWritesNext(t.log, w);
    MultisetAppend([w], ws);
    MultisetAppend(t.log, [w]);
    MultisetAppend(Writes(w.done), ws);
    Regrouped(multiset(t.log), multiset([w]), multiset(ws), multiset(Writes(w.done)), made, CallbackWrites(t.log));
  }

  lemma QueuedOwed(t: Tx, u: Tx, w: Write, ws: seq<Write>, made: multiset<Write>)
    requires Owed(t, [w] + ws, made) && |u.jobs| == |t.jobs| + 1 && u.log == t.log + [w]
    ensures Owed(u, ws, made)
  {
    hide CallbackWrites;
    assert Completed(u) == Completed(t);
    MultisetAppend([w], ws);
    MultisetAppend(t.log, [w]);
  }

  lemma {:induction false} SubmitOwed(t: Tx, w: Write, ws: seq<Write>, made: multiset<Write>)
    requires Owed(t, [w] + ws, made)
    ensures Owed(Submit(t, w), ws, made)
    decreases w, 0
  {
    hide Owed, Push;
    var p := Push(w.buf, 0, t.wire, t.net);
    if t.jobs == [] && p.sent == |w.buf| {
      var v := t.(log := t.log + [w], wire := p.wire, net := p.net);
      SentOwed(t, v, w, ws, made);
      CompleteOwed(v, w.done, ws, made);
    } else {
      QueuedOwed(t, Submit(t, w), w, ws, made);
    }
  }

  lemma {:induction false} CompleteOwed(t: Tx, done: Callback, ws: seq<Write>, made: multiset<Write>)
    requires Owed(t, Writes(done) + ws, made)
    ensures Owed(Complete(t, done), ws, made)
    decreases done, 1
  {
    match done
    case NoCallback =>
      assert [] + ws == ws;
    case Callback(id, writes) =>
      SubmitAllOwed(t.(fired := t.fired + [Receipt(id, |t.wire|)]), writes, ws, made);
  }

  lemma {:induction false} SubmitAllOwed(t: Tx, first: seq<Write>, ws: seq<Write>, made: multiset<Write>)
    requires Owed(t, first + ws, made)
    ensures Owed(SubmitAll(t, first), ws, made)
    decreases first, 0
  {
    hide Submit, Owed;
    if first == [] {
      assert first + ws == ws;
    } else {
      assert first + ws == [first[0]] + (first[1..] + ws);
      SubmitOwed(t, first[0], first[1..] + ws, made);
      SubmitAllOwed(Submit(t, first[0]), first[1..], ws, made);
    }
  }

  lemma {:induction false} DrainOwed(t: Tx, made: multiset<Write>)
    requires Consistent(t) && SentWithin(t.jobs) && Owed(t, [], made)
    ensures Owed(Drain(t), [], made)
    decreases QueueWeight(t.jobs)
  {
    hide Consistent, Front, QueueWeight, SentWithin, Owed;
    if t.jobs != [] {
      ConsistentSentWithin(t);
      if Front(t).1 {
        FrontDone(t);
        FrontDoneConsistent(t);
        FrontDoneOwed(t, made);
        DrainOwed(Front(t).0, made);
      } else {
        FrontBlocked(t);
        FrontBlockedLog(t);
        FrontBlockedOwed(t, made);
      }
    }
  }

  lemma FrontDoneOwed(t: Tx, made: multiset<Write>)
    requires Consistent(t) && SentWithin(t.jobs) && t.jobs != [] && t.jobs[0].sent <= |t.jobs[0].buf| && Front(t).1
    requires Owed(t, [], made)
    ensures Owed(Front(t).0, [], made)
  {
    hide Consistent, Front, CallbackWrites, SentWithin, QueueWeight, Remaining, ReceiptsOf;
    var u, n, ws := Front(t).0, |t.log| - |t.jobs|, Writes(t.jobs[0].done);
    FrontDone(t);
    FrontWrite(t);
    assert Completed(u) == t.log[..n] + [t.log[n]];
    CallbackWritesNext(t.log[..n], t.log[n]);
    MultisetAppend(t.log, ws);
    Regrouped(multiset(t.log), multiset{}, multiset{}, multiset(ws), made, CallbackWrites(Completed(t)));
    assert multiset(u.log) + multiset{} == (multiset(t.log) + multiset{}) + (multiset(ws) + multiset{});
  }

  lemma FrontBlockedOwed(t: Tx, made: multiset<Write>)
    requires Owed(t, [], made) && t.jobs != [] && t.jobs[0].sent <= |t.jobs[0].buf|
    requires Front(t).0.log == t.log && |Front(t).0.jobs| == |t.jobs|
    ensures Owed(Front(t).0, [], made)
  {
    hide Front, CallbackWrites;
  }

  /** The writes that come from outside in a run. */
  function Applied(steps: seq<Step>): (ws: seq<Write>) {
    if steps == [] then []
    else (if steps[0].Application? then [steps[0].write] else []) + Applied(steps[1..])
  }

  lemma NextOwed(t: Tx, s: Step, made: multiset<Write>)
    requires Consistent(t) && SentWithin(t.jobs) && Owed(t, [], made)
    ensures Owed(Next(t, s), [], made + multiset(Applied([s])))
  {
    hide Drain, Submit, Consistent, CallbackWrites;
    assert [s][1..] == [] && Applied([]) == [];
    match s
    case Application(w, net) =>
      assert [w] + [] == [w] && multiset([w]) == multiset{w};
      var u := t.(net := net);
      assert Completed(u) == Completed(t);
      Regrouped(multiset(t.log), multiset{}, multiset{}, multiset{w}, made, CallbackWrites(Completed(t)));
      assert multiset(u.log) + multiset([w]) == (made + multiset{w}) + CallbackWrites(Completed(u)) by {
        assert made + (CallbackWrites(Completed(t)) + multiset{w}) == (made + multiset{w}) + CallbackWrites(Completed(t));
      }
      SubmitOwed(u, w, [], made + multiset{w});
    case Writable(net) =>
      var u := t.(net := net);
      assert Completed(u) == Completed(t);
      ConsistentNet(t, net);
      DrainOwed(u, made);
  }

  lemma NothingApplied()
    ensures Applied([]) == []
  {
  }

  lemma AppliedFirst(steps: seq<Step>)
    requires steps != []
    ensures Applied(steps) == Applied([steps[0]]) + Applied(steps[1..])
    ensures multiset(Applied(steps)) == multiset(Applied([steps[0]])) + multiset(Applied(steps[1..]))
  {
    assert [steps[0]][1..] == [];
    MultisetAppend(Applied([steps[0]]), Applied(steps[1..]));
  }

  lemma {:induction false} RunOwed(t: Tx, steps: seq<Step>, made: multiset<Write>)
    requires Consistent(t) && Owed(t, [], made)
    ensures Owed(Run(t, steps), [], made + multiset(Applied(steps)))
    decreases |steps|
  {
    hide Consistent, Next, Owed, Applied;
    if steps != [] {
      var s := steps[0];
      ConsistentSentWithin(t);
      NextOwed(t, s, made);
      NextConsistent(t, s);
      RunOwed(Next(t, s), steps[1..], made + multiset(Applied([s])));
      AppliedFirst(steps);
      assert made + multiset(Applied([s])) + multiset(Applied(steps[1..])) == made + multiset(Applied(steps));
    } else {
      NothingApplied();
      assert made + multiset([]) == made;
    }
  }

  /**
   In every run the log holds each write once that was made from outside, and each that was made by a callback
   which ran, and nothing else.
   */
  lemma EveryWriteLogged(steps: seq<Step>)
    ensures Consistent(INITIAL)
    ensures var t := Run(INITIAL, steps);
            && |t.jobs| <= |t.log|
            && multiset(t.log) == multiset(Applied(steps)) + CallbackWrites(Completed(t))
  {
    hide Run, Consistent;
    InitialConsistent();
    assert Completed(INITIAL) == [] && INITIAL.log == [];
    RunOwed(INITIAL, steps, multiset{});
    assert multiset{} + multiset(Applied(steps)) == multiset(Applied(steps));
  }

  // ---- The interest ----

  lemma SubmitKeepsQueue(t: Tx, w: Write)
    requires t.jobs != []
    ensures Submit(t, w).jobs != [] && Submit(t, w).armed
  {
  }

  /** A write arms exactly when it leaves something waiting. */
  lemma {:induction false} SubmitInterest(t: Tx, w: Write)
    ensures Submit(t, w).armed <==> t.armed || Submit(t, w).jobs != []
    decreases w, 0
  {
    var u := t.(log := t.log + [w]);
    if u.jobs == [] {
      var p := Push(w.buf, 0, u.wire, u.net);
      if p.sent == |w.buf| && w.done.Callback? {
        var v := u.(wire := p.wire, net := p.net);
        SubmitAllInterest(v.(fired := v.fired + [Receipt(w.done.id, |v.wire|)]), w.done.writes);
      }
    }
  }

  lemma {:induction false} SubmitAllInterest(t: Tx, ws: seq<Write>)
    requires t.jobs != [] ==> t.armed
    ensures SubmitAll(t, ws).armed <==> t.armed || SubmitAll(t, ws).jobs != []
    decreases ws, 0
  {
    hide Submit;
    if ws != [] {
      var u := Submit(t, ws[0]);
      SubmitInterest(t, ws[0]);
      SubmitAllInterest(u, ws[1..]);
      if u.jobs != [] {
        SubmitAllQueued(u, ws[1..]);
      }
    }
  }

  // ---- Where a drain stops ----

  lemma RemainingNothing()
    ensures Remaining([]) == 0
  {
  }

  lemma {:induction false} RemainingNonneg(jobs: seq<Job>)
    requires SentWithin(jobs)
    ensures Remaining(jobs) >= 0
  {
    if jobs != [] {
      RemainingNonneg(jobs[1..]);
    }
  }

  lemma FrontKeepsNet(t: Tx)
    requires t.jobs != [] && t.jobs[0].sent == |t.jobs[0].buf|
    ensures Front(t).0.net == t.net
  {
    hide Weight, WeightAll, Complete;
    var j := t.jobs[0];
    CompleteQueued(t.(jobs := t.jobs[0 := j.(sent := j.sent)]), j.done);
  }

  lemma FrontBlocked(t: Tx)
    requires t.jobs != [] && SentWithin(t.jobs) && !Front(t).1
    ensures var u, j := Front(t).0, t.jobs[0];
            && |u.jobs| == |t.jobs| && u.jobs[1..] == t.jobs[1..]
            && u.jobs[0].buf == j.buf && u.jobs[0].done == j.done
            && j.sent <= u.jobs[0].sent < |j.buf|
            && (t.net != [] && t.net[0] > 0 ==> j.sent < u.jobs[0].sent)
            && (forall k :: k in u.jobs ==> k == u.jobs[0] || k in t.jobs)
            && SentWithin(u.jobs[1..])
  {
    hide Complete, Push;
  }

  lemma ConsistentArmed(t: Tx, armed: bool)
    requires Consistent(t)
    ensures Consistent(t.(armed := armed))
  {
  }

  lemma ConsistentNet(t: Tx, net: seq<nat>)
    requires Consistent(t)
    ensures Consistent(t.(net := net))
  {
  }

  /** The drain only stops on an empty queue or on unsent bytes. */
  lemma DrainStops(t: Tx)
    requires Consistent(t) && SentWithin(t.jobs)
    ensures Drain(t).jobs == [] <==> Drain(t).counter == 0
  {
    hide Consistent, Drain;
    DrainConsistent(t);
    DrainLeaves(t);
    ConsistentCounter(Drain(t));
    RemainingNothing();
  }

  lemma {:induction false} DrainLeaves(t: Tx)
    requires Consistent(t) && SentWithin(t.jobs)
    ensures Drain(t).jobs != [] ==> Remaining(Drain(t).jobs) > 0
    decreases QueueWeight(t.jobs)
  {
    hide Consistent, Front, QueueWeight, Remaining;
    if t.jobs != [] {
      ConsistentSentWithin(t);
      if Front(t).1 {
        FrontDone(t);
        FrontDoneConsistent(t);
        DrainLeaves(Front(t).0);
      } else {
        FrontBlocked(t);
        RemainingFront(Front(t).0.jobs);
        RemainingNonneg(Front(t).0.jobs[1..]);
      }
    }
  }
}
