/** From requests that come in to responses that go out: what the client reads, whatever the socket takes when. */
module HttpEndToEnd {
  import opened Bytes
  import opened Text
  import opened Requests
  import opened Responses
  import opened Transmit
  import opened TransmitRuns
  import H = Http
  import R = HttpRuns

  // ---- What is written ----

  /** The serialized responses that are no handler's: to an error, and to an upgrade. */
  datatype Pages = Pages(error: nat -> Bytes, switching: H.Request -> Bytes)

  /** The buffers that the events of the protocol write, in order. */
  function Buffers(events: seq<H.Event>, pages: Pages): (r: seq<Bytes>)
    ensures |r| == R.ResponseCount(events)
  {
    if events == [] then []
    else
      (match events[0]
       case Routed(_) => []
       case Sent(b) => [b]
       case Refused(code) => [pages.error(code)]
       case Upgraded(q) => [pages.switching(q)]) + Buffers(events[1..], pages)
  }

  /** Writes without a callback. */
  function Uncalled(bufs: seq<Bytes>): (ws: seq<Write>)
    ensures |ws| == |bufs| && forall i :: 0 <= i < |bufs| ==> ws[i] == Write(bufs[i], NoCallback)
  {
    seq(|bufs|, i requires 0 <= i < |bufs| => Write(bufs[i], NoCallback))
  }

  ghost predicate Silent(jobs: seq<Job>) {
    forall j :: j in jobs ==> j.done == NoCallback
  }

  lemma {:induction false} DrainSilent(t: Tx)
    requires SentWithin(t.jobs) && Silent(t.jobs)
    ensures Drain(t).log == t.log && Silent(Drain(t).jobs)
    decreases QueueWeight(t.jobs)
  {
    hide Front, QueueWeight;
    if t.jobs != [] {
      var u := Front(t).0;
      assert t.jobs[0] in t.jobs;
      FrontWithin(t.jobs);
      if Front(t).1 {
        FrontDone(t);
        assert t.jobs[1..] + Fresh([]) == t.jobs[1..] && t.log + [] == t.log;
        assert forall j :: j in t.jobs[1..] ==> j in t.jobs;
        DrainSilent(u);
      } else {
        FrontBlocked(t);
        FrontBlockedLog(t);
      }
    }
  }

  lemma SubmitSilent(t: Tx, w: Write)
    requires Silent(t.jobs) && w.done == NoCallback
    ensures Submit(t, w).log == t.log + [w] && Silent(Submit(t, w).jobs)
  {
    hide Push;
    var v := t.(log := t.log + [w]);
    assert Complete(v, NoCallback) == v;
  }

  lemma NextSilent(t: Tx, s: Step)
    requires SentWithin(t.jobs) && Silent(t.jobs) && forall w :: w in Applied([s]) ==> w.done == NoCallback
    ensures Next(t, s).log == t.log + Applied([s]) && Silent(Next(t, s).jobs)
  {
    hide Drain, Submit;
    assert [s][1..] == [];
    match s
    case Application(w, net) =>
      assert Applied([s]) == [w] && w in Applied([s]);
      SubmitSilent(t.(net := net), w);
    case Writable(net) =>
      assert Applied([s]) == [] && t.log + [] == t.log;
      DrainSilent(t.(net := net));
  }

  /** Without callbacks the log is what was written from outside, in that order. */
  lemma {:induction false} RunSilent(t: Tx, steps: seq<Step>)
    requires Consistent(t) && Silent(t.jobs) && forall w :: w in Applied(steps) ==> w.done == NoCallback
    ensures Run(t, steps).log == t.log + Applied(steps)
    decreases |steps|
  {
    hide Consistent, Next, Applied, Silent;
    if steps == [] {
      NothingApplied();
      assert t.log + [] == t.log;
    } else {
      ConsistentSentWithin(t);
      AppliedFirst(steps);
      NextSilent(t, steps[0]);
      NextConsistent(t, steps[0]);
      RunSilent(Next(t, steps[0]), steps[1..]);
      Associative(t.log, Applied([steps[0]]), Applied(steps[1..]));
    }
  }

  // ---- What is read ----

  /** A response cut short is not a response yet. */
  lemma PartIsNone(r: Response, p: Bytes)
    requires CleanResponse(r) && p <= Printed(r) && |p| < |Printed(r)|
    ensures R.Split(p) == ([], p)
  {
    hide CleanResponse, ReadHeader, ReadBack, Head, BodyOf, Find, R.ValidMsg, R.MsgBytes;
    var m := R.Msg(Head(r), ReadBack(r), BodyOf(r));
    R.PrintedIsMessage(r);
    R.MsgSize(m);
    if |p| < |m.head| + 2 {
      R.NoHeaderYet(m, p);
    } else {
      R.FindInPart(m, p);
      CutBody(m, p);
    }
  }

  lemma CutBody(m: R.Msg, p: Bytes)
    requires R.ValidMsg(m) && p <= R.MsgBytes(m) && |m.head| + 2 <= |p| < |R.MsgBytes(m)|
    ensures p[..|m.head|] == m.head && |p[|m.head| + 2..]| < m.header.contentLength
  {
    hide ReadHeader, Find;
    R.PartOfBody(m, p);
    R.MsgSize(m);
  }

  /** Whole responses and a part of the next one are cut apart where they should be. */
  lemma {:induction false} ResponsesAndPart(rs: seq<Response>, part: Bytes)
    requires forall r :: r in rs ==> CleanResponse(r)
    requires R.Split(part) == ([], part)
    ensures R.Split(R.PrintedAll(rs) + part) == (R.Contents(rs), part)
    decreases |rs|
  {
    hide Printed, ReadHeader, ReadBack, CleanResponse, Find, R.Split;
    if rs == [] {
      assert [] + part == part;
    } else {
      var r, rest := rs[0], R.PrintedAll(rs[1..]) + part;
      ParsePrinted(r, rest);
      R.ReadBackLength(r);
      ResponsesAndPart(rs[1..], part);
      Associative(Printed(r), R.PrintedAll(rs[1..]), part);
      R.SplitFirst(Printed(r) + rest, |Head(r)|, ReadBack(r), BodyOf(r), rest);
    }
  }

  lemma {:induction false} PrintedAppend(a: seq<Response>, b: seq<Response>)
    ensures R.PrintedAll(a + b) == R.PrintedAll(a) + R.PrintedAll(b)
  {
    hide Printed;
    if a == [] {
      assert a + b == b;
    } else {
      assert (a + b)[1..] == a[1..] + b;
      PrintedAppend(a[1..], b);
      Associative(Printed(a[0]), R.PrintedAll(a[1..]), R.PrintedAll(b));
    }
  }

  /** The writes are the printed responses. */
  ghost predicate Prints(log: seq<Write>, rs: seq<Response>) {
    |log| <= |rs| && forall i :: 0 <= i < |log| ==> log[i].buf == Printed(rs[i])
  }

  lemma {:induction false} BufsArePrinted(log: seq<Write>, rs: seq<Response>, n: nat)
    requires Prints(log, rs) && n <= |log|
    ensures Bufs(log[..n]) == R.PrintedAll(rs[..n])
  {
    hide Printed;
    if n > 0 {
      BufsArePrinted(log, rs, n - 1);
      assert log[..n] == log[..n - 1] + [log[n - 1]] && rs[..n] == rs[..n - 1] + [rs[n - 1]];
      BufsNext(log[..n - 1], log[n - 1]);
      PrintedAppend(rs[..n - 1], [rs[n - 1]]);
      assert R.PrintedAll([rs[n - 1]]) == Printed(rs[n - 1]) + [];
    }
  }

  /**
   At every moment of every run the wire is a prefix of the responses, and a client that reads it by their own lengths
   finds exactly those that were completed, and the part of the next one behind them.
   */
  lemma ClientReadsPrefix(t: Tx, rs: seq<Response>)
    requires Consistent(t) && Prints(t.log, rs) && forall r :: r in rs ==> CleanResponse(r)
    ensures |t.jobs| <= |t.log|
    ensures t.wire <= R.PrintedAll(rs)
    ensures R.Split(t.wire) == (R.Contents(rs[..|t.log| - |t.jobs|]), SentOfFront(t.jobs))
  {
    hide CleanResponse, Printed, R.Split, Consistent, R.PrintedAll;
    ConsistentCounter(t);
    var n, part := |t.log| - |t.jobs|, SentOfFront(t.jobs);
    WireParts(t, rs);
    PartStarts(t, rs[n..]);
    PrintedAppend(rs[..n], rs[n..]);
    assert rs == rs[..n] + rs[n..];
    assert forall r :: r in rs[..n] ==> r in rs;
    ResponsesAndPart(rs[..n], part);
  }

  lemma WireParts(t: Tx, rs: seq<Response>)
    requires Consistent(t) && Prints(t.log, rs)
    ensures |t.jobs| <= |t.log| && t.wire == R.PrintedAll(rs[..|t.log| - |t.jobs|]) + SentOfFront(t.jobs)
  {
    hide Printed, Bufs, Receipts, Remaining, R.PrintedAll, Queued, SentOfFront;
    BufsArePrinted(t.log, rs, |t.log| - |t.jobs|);
  }

  /** What was sent of the first job is the start of a response, and none yet. */
  lemma PartStarts(t: Tx, rs: seq<Response>)
    requires Consistent(t) && |t.jobs| <= |rs| && forall r :: r in rs ==> CleanResponse(r)
    requires t.jobs != [] ==> |t.jobs| <= |t.log| && t.log[|t.log| - |t.jobs|].buf == Printed(rs[0])
    ensures SentOfFront(t.jobs) <= R.PrintedAll(rs) && R.Split(SentOfFront(t.jobs)) == ([], SentOfFront(t.jobs))
  {
    hide CleanResponse, Printed, R.Split, Consistent, R.PrintedAll;
    if t.jobs == [] {
      NothingIsNone();
      assert [] <= R.PrintedAll(rs);
    } else {
      FrontWrite(t);
      FrontIsPart(t, rs[0]);
      PrintedFirst(rs);
    }
  }

  lemma FrontIsPart(t: Tx, r: Response)
    requires Consistent(t) && t.jobs != [] && t.jobs[0].buf == Printed(r) && CleanResponse(r)
    ensures SentOfFront(t.jobs) <= Printed(r) && R.Split(SentOfFront(t.jobs)) == ([], SentOfFront(t.jobs))
  {
    hide Bufs, Receipts, Remaining, CleanResponse, Printed, R.Split;
    PrintedLong(r);
    PartIsNone(r, SentOfFront(t.jobs));
  }

  lemma PrintedLong(r: Response)
    ensures |Printed(r)| >= 2
  {
    hide Head;
  }

  lemma PrintedFirst(rs: seq<Response>)
    requires rs != []
    ensures Printed(rs[0]) <= R.PrintedAll(rs)
  {
  }

  lemma NothingIsNone()
    ensures R.Split([]) == ([], [])
  {
    R.NothingFound();
  }

  // ---- Both directions ----

  /**
   Requests come in, each in reads of its own; what the protocol writes upon them goes out, as far as it was written,
   through any schedule of the socket. There is one response to each request that was handled, and the wire is at every
   moment a prefix of the responses in the order of the requests, which the client cuts into exactly those completed.
   */
  lemma RequestsToResponses(env: H.Env, pages: Pages, ms: seq<R.Msg>, parts: seq<seq<Bytes>>, rs: seq<Response>, steps: seq<Step>)
    requires R.Carry(parts, ms)
    requires var bufs := Buffers(R.DeliverAll(env, H.RunningTotal, R.START, R.Reads(parts)).events, pages);
             && |bufs| == |rs| && (forall i :: 0 <= i < |rs| ==> CleanResponse(rs[i]) && bufs[i] == Printed(rs[i]))
             && Applied(steps) <= Uncalled(bufs)
    requires Consistent(INITIAL)
    ensures |rs| == R.Serve(env, [], ms).served
    ensures var t := Run(INITIAL, steps);
            && |t.jobs| <= |t.log| && t.log == Applied(steps)
            && t.wire <= R.PrintedAll(rs)
            && R.Split(t.wire) == (R.Contents(rs[..|t.log| - |t.jobs|]), SentOfFront(t.jobs))
  {
    hide R.Serve, R.ValidMsg, R.MsgBytes, R.DeliverAll, R.Split, R.Contents, R.PrintedAll, CleanResponse, Printed, Consistent,
      Run, Applied, Buffers, R.ResponseCount;
    var s := R.Serve(env, [], ms);
    var bufs := Buffers(s.events, pages);
    R.OneAfterTheOther(env, H.RunningTotal, [], ms, parts);
    assert [] + s.events == s.events;
    R.OneResponseEach(env, [], ms);
    forall w | w in Applied(steps)
      ensures w.done == NoCallback
    {
      var i :| 0 <= i < |Applied(steps)| && Applied(steps)[i] == w;
      assert w == Uncalled(bufs)[i];
    }
    RunSilent(INITIAL, steps);
    assert [] + Applied(steps) == Applied(steps);
    var t := Run(INITIAL, steps);
    forall i | 0 <= i < |t.log|
      ensures t.log[i].buf == Printed(rs[i])
    {
      assert t.log[i] == Uncalled(bufs)[i];
    }
    ClientReadsPrefix(t, rs);
  }
}
