/**
 HttpProtocol.cpp: cutting the stream into requests and handing them on. `Scan` and `AtBody` are the loop of
 one onDataReceived call; the class runs it over the `header` field.
 */
module Http {
  import opened Bytes
  import opened Text
  import opened Requests
  import opened Multipart

  datatype Request = Request(header: Header, body: Bytes)

  /** What the protocol does, in order: a call of the dispatcher, a response, an error response, an upgrade. */
  datatype Event =
    | Routed(request: Request)
    | Sent(response: Bytes)
    | Refused(code: nat)
    | Upgraded(request: Request)

  /**
   The parts of the program behind the protocol. They may depend on everything that happened before.
   `route`: the serialized response, None when serializing it throws. `upgrade`: None when the connection
   switches, else the code of the error. `movedVersion`: what the version of a moved-from header reads as.
   */
  datatype Env = Env(route: (seq<Event>, Request) -> Option<Bytes>,
                     upgrade: (seq<Event>, Request) -> Option<nat>,
                     movedVersion: Request -> Bytes)

  datatype Change = Keep | Drop | Switch

  datatype Handled = Handled(events: seq<Event>, change: Change)

  const CONTENT_TYPE: Bytes := Ascii("content-type")
  const CONNECTION: Bytes := Ascii("connection")
  const MULTIPART: Bytes := Ascii("multipart/")
  const BOUNDARY: Bytes := Ascii("boundary")
  const UPGRADE: Bytes := Ascii("upgrade")
  const HTTP_1_0: Bytes := Ascii("HTTP/1.0")
  const COMMA_SEMI: Bytes := [44, 59]

  function BoundaryOf(vals: seq<FieldVal>): (r: Option<Bytes>) {
    if vals == [] then None
    else if vals[0].Pair? && vals[0].key == BOUNDARY then Some(vals[0].val)
    else BoundaryOf(vals[1..])
  }

  /** Taking a multipart body apart. */
  function Prepare(h: Header, body: Bytes): (r: Result<Header>) {
    match Lookup(h.fields, CONTENT_TYPE)
    case None => Ok(h)
    case Some(ct) =>
      match FieldVals(ct, SEMI_COMMA)
      case Fail(e) => Fail(e)
      case Ok(vals) =>
        if vals == [] then Fail(BadRequest)
        else if vals[0].Single? && StartsWith(vals[0].text, MULTIPART) then
          if |vals| < 2 then Fail(BadRequest)
          else
            match BoundaryOf(vals)
            case None => Fail(BadRequest)
            case Some(b) =>
              match ReadBody(body, b)
              case Fail(e) => Fail(e)
              case Ok(args) => Ok(h.(bodyArgs := args))
        else Ok(h)
  }

  predicate MentionsUpgrade(vals: seq<FieldVal>) {
    exists i :: 0 <= i < |vals| && vals[i].Single? && ToLower(vals[i].text) == ToLower(UPGRADE)
  }

  function WantsUpgrade(h: Header): (r: Result<bool>) {
    match Lookup(h.fields, CONNECTION)
    case None => Ok(false)
    case Some(c) =>
      match FieldVals(c, COMMA_SEMI)
      case Fail(e) => Fail(e)
      case Ok(vals) => Ok(MentionsUpgrade(vals))
  }

  /** The catch blocks: a 4xx keeps the protocol, everything else ends it. */
  function RefuseCode(code: nat): Handled {
    Handled([Refused(code)], if code >= 500 then Drop else Keep)
  }

  function Refuse(e: Error): Handled {
    RefuseCode(if e == BadRequest then 400 else 500)
  }

  /** What a complete request leads to. */
  function Handle(env: Env, seen: seq<Event>, h: Header, body: Bytes): (r: Handled) {
    match Prepare(h, body)
    case Fail(e) => Refuse(e)
    case Ok(prepared) =>
      match WantsUpgrade(prepared)
      case Fail(e) => Refuse(e)
      case Ok(upgrade) => Answer(env, seen, Request(prepared, body), upgrade)
  }

  function Answer(env: Env, seen: seq<Event>, request: Request, upgrade: bool): (r: Handled) {
    if upgrade then
      match env.upgrade(seen, request)
      case None => Handled([Upgraded(request)], Switch)
      case Some(code) => RefuseCode(code)
    else
      match env.route(seen, request)
      case None => Handled([Routed(request), Refused(500)], Drop)
      case Some(response) =>
        Handled([Routed(request), Sent(response)], if env.movedVersion(request) == HTTP_1_0 then Drop else Keep)
  }

  /** How a call ends. Stuck: it writes 400 responses without end. */
  datatype End = Kept | Dropped | Switched | Stuck

  function EndOf(c: Change): End {
    match c
    case Keep => Kept
    case Drop => Dropped
    case Switch => Switched
  }

  /** Line 103 drops the running total of the call; what has to go is the header that was just read. */
  datatype Rule = RunningTotal | HeaderOnly

  datatype Outcome = Outcome(pending: Option<Header>, consumed: nat, events: seq<Event>, end: End)

  /** Without a pending header: find one and go on with its body. `done` bytes were consumed before in this call. */
  function Scan(env: Env, seen: seq<Event>, rule: Rule, done: nat, view: Bytes): (o: Outcome)
    ensures o.consumed <= |view|
    decreases |view|, 0
  {
    var idx := Find(view, CRLFCRLF, 0);
    if idx == -1 then Outcome(None, 0, [], Kept)
    else
      match ReadHeader(view[..idx + 2])
      case Fail(e) => Outcome(None, 0, [Refused(if e == BadRequest then 400 else 500)], if e == BadRequest then Stuck else Dropped)
      case Ok(h) =>
        var skip := if rule == HeaderOnly then idx + 4 else done + idx + 4;
        if skip > |view| then Outcome(Some(h), idx + 4, [Refused(500)], Dropped)
        else
          var o := AtBody(env, seen, rule, done + idx + 4, h, view[skip..]);
          o.(consumed := idx + 4 + o.consumed)
  }

  /** With a header: wait for its body, handle the request, go on. */
  function AtBody(env: Env, seen: seq<Event>, rule: Rule, done: nat, h: Header, view: Bytes): (o: Outcome)
    ensures o.consumed <= |view|
    decreases |view|, 1
  {
    if |view| < h.contentLength then Outcome(Some(h), 0, [], Kept)
    else
      var n := h.contentLength;
      var r := Handle(env, seen, h, view[..n]);
      if r.change != Keep then Outcome(None, n, r.events, EndOf(r.change))
      else
        var o := Scan(env, seen + r.events, rule, done + n, view[n..]);
        Outcome(o.pending, n + o.consumed, r.events + o.events, o.end)
  }

  /** One call. */
  function Call(env: Env, seen: seq<Event>, rule: Rule, done: nat, pending: Option<Header>, view: Bytes): (o: Outcome)
    ensures o.consumed <= |view|
  {
    match pending
    case None => Scan(env, seen, rule, done, view)
    case Some(h) => AtBody(env, seen, rule, done, h, view)
  }

  /** The outcome of a call, given what it did so far and the outcome for the bytes ahead. */
  ghost predicate Ahead(o: Outcome, events: seq<Event>, done: nat, rest: Outcome) {
    o == Outcome(rest.pending, done + rest.consumed, events + rest.events, rest.end)
  }

  lemma Untouched(o: Outcome)
    ensures Ahead(o, [], 0, o)
  {
  }

  lemma AheadStep(o: Outcome, events: seq<Event>, done: nat, mid: Outcome, more: seq<Event>, n: nat, rest: Outcome)
    requires Ahead(o, events, done, mid)
    requires mid == Outcome(rest.pending, n + rest.consumed, more + rest.events, rest.end)
    ensures Ahead(o, events + more, done + n, rest)
  {
    Associative(events, more, rest.events);
  }

  lemma AheadEnd(o: Outcome, events: seq<Event>, done: nat, mid: Outcome)
    requires Ahead(o, events, done, mid)
    ensures o == Outcome(mid.pending, done + mid.consumed, events + mid.events, mid.end)
  {
  }

  /** The values that were read can be indexed with 32 bits. */
  ghost predicate Short(h: Header) {
    forall f :: f in h.fields ==> |f.val| < 0xffff_ffff
  }

  lemma HeaderShort(request: Bytes)
    requires |request| < 0xffff_ffff && ReadHeader(request).Ok?
    ensures Short(ReadHeader(request).value)
  {
    hide ReadFields, Unescape, UrlArgs, Find, FindAny, Lookup, Cookies, ContentLength;
    FieldsShort(request[Find(request, CRLF, 0) + 2..]);
  }

  class HttpProtocol {
    const env: Env
    var header: Option<Header>
    // everything the protocol did
    var events: seq<Event>

    constructor (env: Env)
      ensures this.env == env && header == None && events == [] && Valid()
    {
      this.env, header, events := env, None, [];
    }

    ghost predicate Valid()
      reads this
    {
      header.Some? ==> Short(header.value)
    }

    /** The reported count is an `int`, so views stay below 2^31 bytes. */
    method OnDataReceived(view: Bytes) returns (consumed: nat, end: End)
      requires |view| < 0x8000_0000 && Valid()
      modifies this
      ensures Valid()
      ensures var o := Call(env, old(events), RunningTotal, 0, old(header), view);
              && header == o.pending && events == old(events) + o.events
              && consumed == o.consumed && end == o.end
    {
      hide Call, Ahead, Short, Find, Ascii;
      consumed := 0;
      var received := view;
      ghost var whole := Call(env, events, RunningTotal, 0, header, view);
      ghost var more: seq<Event> := [];
      Untouched(whole);
      while true
        invariant consumed + |received| <= |view| && Valid()
        invariant events == old(events) + more
        invariant Ahead(whole, more, consumed, Call(env, events, RunningTotal, consumed, header, received))
        decreases |received|, if header.Some? then 1 else 0
      {
        if header.None? {
          ghost var now := Call(env, events, RunningTotal, consumed, None, received);
          AheadEnd(whole, more, consumed, now);
          var n, stop := TakeHeader(consumed, received);
          Associative(old(events), more, now.events);
          consumed := consumed + n;
          if stop.Some? {
            return consumed, stop.value;
          }
          received := received[consumed..];
          AheadHeader(whole, more, consumed - n, now, n,
                      Call(env, events, RunningTotal, consumed, header, received));
        }
        ghost var now := Call(env, events, RunningTotal, consumed, header, received);
        AheadEnd(whole, more, consumed, now);
        var n, stop, done := TakeRequest(consumed, received);
        Associative(old(events), more, done);
        consumed := consumed + n;
        if stop.Some? {
          return consumed, stop.value;
        }
        received := received[n..];
        AheadStep(whole, more, consumed - n, now, done, n,
                  Call(env, events, RunningTotal, consumed, header, received));
        more := more + done;
      }
    }

    /** The body of the pending header and what it leads to. */
    method TakeRequest(consumed: nat, received: Bytes) returns (n: nat, stop: Option<End>, ghost done: seq<Event>)
      requires |received| < 0x8000_0000 && header.Some? && Valid()
      modifies this
      ensures n <= |received| && Valid() && events == old(events) + done
      ensures var now := Call(env, old(events), RunningTotal, consumed, old(header), received);
              && (stop.Some? ==> now == Outcome(header, n, done, stop.value))
              && (stop.None? ==>
                    && header.None?
                    && var rest := Call(env, events, RunningTotal, consumed + n, None, received[n..]);
                       now == Outcome(rest.pending, n + rest.consumed, done + rest.events, rest.end))
    {
      hide Call, Handle, Short;
      var h := header.value;
      BodyUnfolds(env, events, consumed, h, received);
      if |received| < h.contentLength {
        return 0, Some(Kept), [];
      }
      n := h.contentLength;
      header := None;
      var r := Dispatch(h, received[..n]);
      done := r.events;
      stop := if r.change == Keep then None else Some(EndOf(r.change));
    }

    /** The search for a header: how many bytes it takes, and whether the call ends there. */
    method TakeHeader(consumed: nat, received: Bytes) returns (n: nat, stop: Option<End>)
      requires |received| < 0x8000_0000 && header.None?
      modifies this
      ensures n <= |received| && Valid()
      ensures var now := Call(env, old(events), RunningTotal, consumed, None, received);
              && (stop.Some? ==>
                    now.pending == header && now.consumed == n && now.end == stop.value
                    && events == old(events) + now.events)
              && (stop.None? ==>
                    && header.Some? && n >= 4 && consumed + n <= |received| && events == old(events)
                    && var rest := Call(env, events, RunningTotal, consumed + n, header, received[consumed + n..]);
                       now == rest.(consumed := n + rest.consumed))
    {
      hide Call, ReadHeader, Short, Find;
      ScanUnfolds(env, events, consumed, received);
      var headerEndIdx := Find(received, CRLFCRLF, 0);
      if headerEndIdx == -1 {
        return 0, Some(Kept);
      }
      FoundWithin(received, CRLFCRLF);
      var parsed := ParseHeader(received[..headerEndIdx + 2]);
      if parsed.Fail? {
        events := events + [Refused(if parsed.error == BadRequest then 400 else 500)];
        return 0, Some(if parsed.error == BadRequest then Stuck else Dropped);
      }
      HeaderShort(received[..headerEndIdx + 2]);
      header := Some(parsed.value);
      n := headerEndIdx + 4;
      if consumed + n > |received| {
        events := events + [Refused(500)];
        return n, Some(Dropped);
      }
      stop := None;
    }

    /** The part of the loop behind the body, with its catch blocks. */
    method Dispatch(h: Header, message: Bytes) returns (r: Handled)
      requires |message| < 0x8000_0000 && Short(h)
      modifies this`events
      ensures r == Handle(env, old(events), h, message)
      ensures events == old(events) + r.events
    {
      hide FieldVals, ReadBody, Short, Answer;
      var prepared := PrepareHeader(h, message);
      if prepared.Fail? {
        r := Refuse(prepared.error);
      } else {
        PrepareKeepsFields(h, message);
        var upgrade := FindUpgrade(prepared.value);
        if upgrade.Fail? {
          r := Refuse(upgrade.error);
        } else {
          r := Answer(env, events, Request(prepared.value, message), upgrade.value);
        }
      }
      events := events + r.events;
    }
  }

  lemma PrepareKeepsFields(h: Header, body: Bytes)
    ensures Prepare(h, body).Ok? ==> Prepare(h, body).value.fields == h.fields
    ensures Short(h) && Prepare(h, body).Ok? ==> Short(Prepare(h, body).value)
  {
    hide FieldVals, ReadBody;
  }

  lemma ShortLookup(h: Header, name: Bytes)
    requires Short(h)
    ensures Lookup(h.fields, name).Some? ==> |Lookup(h.fields, name).value| < 0xffff_ffff
  {
    LookupIn(h.fields, name);
  }

  method PrepareHeader(h: Header, message: Bytes) returns (r: Result<Header>)
    requires |message| < 0x8000_0000 && Short(h)
    ensures r == Prepare(h, message)
  {
    hide FieldVals, ReadBody, Lookup, Short;
    var enctype := Lookup(h.fields, CONTENT_TYPE);
    if enctype.None? {
      return Ok(h);
    }
    ShortLookup(h, CONTENT_TYPE);
    var split := ExtractFieldVals(enctype.value, SEMI_COMMA);
    if split.Fail? {
      return Fail(split.error);
    }
    if split.value == [] {
      return Fail(BadRequest);
    }
    if split.value[0].Single? && StartsWith(split.value[0].text, MULTIPART) {
      if |split.value| < 2 {
        return Fail(BadRequest);
      }
      var boundary := BoundaryOf(split.value);
      if boundary.None? {
        return Fail(BadRequest);
      }
      var args := ReadMultipartBody(message, boundary.value);
      if args.Fail? {
        return Fail(args.error);
      }
      return Ok(h.(bodyArgs := args.value));
    }
    r := Ok(h);
  }

  method FindUpgrade(h: Header) returns (r: Result<bool>)
    requires Short(h)
    ensures r == WantsUpgrade(h)
  {
    hide FieldVals, Lookup, Short;
    var conField := Lookup(h.fields, CONNECTION);
    if conField.None? {
      return Ok(false);
    }
    ShortLookup(h, CONNECTION);
    var split := ExtractFieldVals(conField.value, COMMA_SEMI);
    if split.Fail? {
      return Fail(split.error);
    }
    r := Ok(MentionsUpgrade(split.value));
  }

  lemma AheadHeader(o: Outcome, events: seq<Event>, done: nat, mid: Outcome, n: nat, rest: Outcome)
    requires Ahead(o, events, done, mid)
    requires mid == rest.(consumed := n + rest.consumed)
    ensures Ahead(o, events, done + n, rest)
  {
  }

  /** One turn of the loop without a pending header. */
  lemma ScanUnfolds(env: Env, seen: seq<Event>, done: nat, view: Bytes)
    ensures var idx, o := Find(view, CRLFCRLF, 0), Call(env, seen, RunningTotal, done, None, view);
            if idx == -1 then o == Outcome(None, 0, [], Kept)
            else
              match ReadHeader(view[..idx + 2])
              case Fail(e) => o == Outcome(None, 0, [Refused(if e == BadRequest then 400 else 500)],
                                           if e == BadRequest then Stuck else Dropped)
              case Ok(h) =>
                if done + idx + 4 > |view| then o == Outcome(Some(h), idx + 4, [Refused(500)], Dropped)
                else
                  var rest := Call(env, seen, RunningTotal, done + idx + 4, Some(h), view[done + idx + 4..]);
                  o == rest.(consumed := idx + 4 + rest.consumed)
  {
    hide ReadHeader, Handle, Find, At;
  }

  /** One turn with a header. */
  lemma BodyUnfolds(env: Env, seen: seq<Event>, done: nat, h: Header, view: Bytes)
    ensures var o := Call(env, seen, RunningTotal, done, Some(h), view);
            if |view| < h.contentLength then o == Outcome(Some(h), 0, [], Kept)
            else
              var n := h.contentLength;
              var r := Handle(env, seen, h, view[..n]);
              if r.change != Keep then o == Outcome(None, n, r.events, EndOf(r.change))
              else
                var rest := Call(env, seen + r.events, RunningTotal, done + n, None, view[n..]);
                o == Outcome(rest.pending, n + rest.consumed, r.events + rest.events, rest.end)
  {
    hide ReadHeader, Handle, Find, At;
  }
}
