/** The end of an HTTP/1.0 connection (HttpProtocol.cpp:157-169). */
module HttpVersions {
  import opened Bytes
  import opened Text
  import opened Requests
  import opened Responses
  import opened Http
  import opened HttpRuns
  import opened HttpSlicing

  /**
   The version is compared after the header it belongs to was moved from, so what decides is what a moved-from string
   reads as. Here: they read empty.
   */
  ghost predicate ReadsEmpty(env: Env) {
    forall r: Request :: env.movedVersion(r) == []
  }

  /** Moved-from strings keep their value. */
  ghost predicate ReadsKept(env: Env) {
    forall r: Request :: env.movedVersion(r) == r.header.version
  }

  /** Every request that reaches the dispatcher is answered. */
  ghost predicate Answers(env: Env) {
    forall seen: seq<Event>, r: Request :: env.route(seen, r).Some?
  }

  /** A request that reaches the dispatcher. */
  predicate Dispatched(m: Msg) {
    Prepare(m.header, m.body).Ok? && WantsUpgrade(Prepare(m.header, m.body).value) == Ok(false)
  }

  predicate EndsInRefusal(events: seq<Event>) {
    events != [] && var e := events[|events| - 1]; e.Refused? && e.code >= 500
  }

  lemma HandleEnds(env: Env, seen: seq<Event>, h: Header, body: Bytes)
    requires ReadsEmpty(env)
    ensures var r := Handle(env, seen, h, body);
            r.events != [] && (r.change == Drop <==> EndsInRefusal(r.events))
  {
    hide Prepare, WantsUpgrade;
    NotHttp10();
  }

  /**
   With moved-from strings that read empty no answer ever ends the protocol, whatever version was asked for: it is
   dropped if and only if the last thing it wrote was a refusal with 500 or more.
   */
  lemma {:induction false} OnlyRefusalsEnd(env: Env, seen: seq<Event>, ms: seq<Msg>)
    requires ReadsEmpty(env)
    ensures var s := Serve(env, seen, ms); s.end == Dropped <==> EndsInRefusal(s.events)
    decreases |ms|
  {
    hide Handle;
    if ms != [] {
      var r := Handle(env, seen, ms[0].header, ms[0].body);
      HandleEnds(env, seen, ms[0].header, ms[0].body);
      if r.change == Keep {
        var s := Serve(env, seen + r.events, ms[1..]);
        OnlyRefusalsEnd(env, seen + r.events, ms[1..]);
        assert s.events == [] ==> r.events + s.events == r.events;
      }
    }
  }

  /** How many requests there are up to the first of version HTTP/1.0, and that one. */
  function UpToOld(ms: seq<Msg>): (n: nat)
    ensures n <= |ms|
    ensures forall i :: 0 <= i < n - 1 ==> ms[i].header.version != HTTP_1_0
    ensures n < |ms| ==> n > 0 && ms[n - 1].header.version == HTTP_1_0
  {
    if ms == [] then 0 else if ms[0].header.version == HTTP_1_0 then 1 else 1 + UpToOld(ms[1..])
  }

  lemma HandleDispatched(env: Env, seen: seq<Event>, m: Msg)
    requires Answers(env) && Dispatched(m)
    ensures ReadsEmpty(env) ==> Handle(env, seen, m.header, m.body).change == Keep
    ensures ReadsKept(env) ==> (Handle(env, seen, m.header, m.body).change ==
                                if m.header.version == HTTP_1_0 then Drop else Keep)
  {
    hide WantsUpgrade;
    PrepareKeepsVersion(m.header, m.body);
    NotHttp10();
  }

  lemma PrepareKeepsVersion(h: Header, body: Bytes)
    ensures Prepare(h, body).Ok? ==> Prepare(h, body).value.version == h.version
  {
    hide FieldVals;
  }

  lemma {:induction false} ServeOld(env: Env, seen: seq<Event>, ms: seq<Msg>)
    requires Answers(env) && forall m :: m in ms ==> Dispatched(m)
    ensures ReadsEmpty(env) ==> Serve(env, seen, ms).end == Kept && Serve(env, seen, ms).served == |ms|
    ensures ReadsKept(env) ==>
              && Serve(env, seen, ms).served == UpToOld(ms)
              && Serve(env, seen, ms).end == if exists m :: m in ms && m.header.version == HTTP_1_0 then Dropped else Kept
    decreases |ms|
  {
    hide Handle, Dispatched;
    if ms != [] {
      assert ms[0] in ms;
      HandleDispatched(env, seen, ms[0]);
      ServeOld(env, seen + Handle(env, seen, ms[0].header, ms[0].body).events, ms[1..]);
      assert forall m :: m in ms <==> m == ms[0] || m in ms[1..];
    }
  }

  /**
   From the bytes, as written: answered requests, each in reads of its own. If moved-from strings read empty the
   protocol outlives all of them, and every one gets its response, HTTP/1.0 or not. If they kept their value it would
   end exactly behind the response to the first HTTP/1.0 request.
   */
  lemma OldClients(env: Env, ms: seq<Msg>, parts: seq<seq<Bytes>>)
    requires Carry(parts, ms)
    requires Answers(env) && forall m :: m in ms ==> Dispatched(m)
    ensures var l := DeliverAll(env, RunningTotal, START, Reads(parts));
            && (ReadsEmpty(env) ==> l.end == Kept && ResponseCount(l.events) == |ms|)
            && (ReadsKept(env) ==>
                  && ResponseCount(l.events) == UpToOld(ms)
                  && l.end == if exists m :: m in ms && m.header.version == HTTP_1_0 then Dropped else Kept)
  {
    hide Handle, ValidMsg, DeliverAll, MsgBytes, Dispatched, UpToOld;
    OneAfterTheOther(env, RunningTotal, [], ms, parts);
    assert [] + Serve(env, [], ms).events == Serve(env, [], ms).events;
    ServeOld(env, [], ms);
    OneResponseEach(env, [], ms);
  }

  // ---- An input ----

  const KEEPING := ANSWERING.(movedVersion := (r: Request) => r.header.version)

  /** A GET request of version HTTP/1.0: answered, and the protocol kept; it would end if the string kept its value. */
  lemma OldGet()
    ensures var get := GetText(HTTP_1_0);
            var empty, kept := Call(ANSWERING, [], RunningTotal, 0, None, get), Call(KEEPING, [], RunningTotal, 0, None, get);
            && ReadsEmpty(ANSWERING) && ReadsKept(KEEPING)
            && |empty.events| == 2 && empty.events[1] == Sent([]) && empty.end == Kept && empty.consumed == |get|
            && kept.events == empty.events && kept.end == Dropped && kept.consumed == |get|
  {
    hide Call, Head, ReadBack, BodyOf, ValidMsg, ReadHeader, Find;
    var r := Get(HTTP_1_0);
    var m := Msg(Head(r), ReadBack(r), BodyOf(r));
    OldIsOneLine();
    GetIsMessage(HTTP_1_0);
    NotHttp10();
    PlainRequestIsAnswered(ANSWERING, [], m.header, m.body);
    PlainRequestIsAnswered(KEEPING, [], m.header, m.body);
    WholeMessage(ANSWERING, m);
    WholeMessage(KEEPING, m);
  }

  lemma OldIsOneLine()
    ensures OneLine(HTTP_1_0)
  {
    assert HTTP_1_0 == [72, 84, 84, 80, 47, 49, 46, 48];
  }

  lemma WholeMessage(env: Env, m: Msg)
    requires ValidMsg(m)
    ensures var r := Handle(env, [], m.header, m.body);
            Call(env, [], RunningTotal, 0, None, MsgBytes(m)) == Outcome(None, |MsgBytes(m)|, r.events, EndOf(r.change))
  {
    hide Handle, MsgBytes, ValidMsg, Call, PartLink;
    var w := MsgBytes(m);
    MsgSize(m);
    StartLink(m);
    assert [] + w == w;
    DeliverPart(env, RunningTotal, m, [], [], w);
    var o := Call(env, [], RunningTotal, 0, None, w);
    assert [] + o.events == o.events;
    assert [] + Handle(env, [], m.header, m.body).events == Handle(env, [], m.header, m.body).events;
    assert w[o.consumed..] == [];
  }

  lemma StartLink(m: Msg)
    ensures PartLink(m, [], []) == START
  {
  }
}
