/** What reaches a handler: form posts taken apart, and the choice between dispatching and upgrading. */
module HttpForms {
  import opened Bytes
  import opened Text
  import opened Requests
  import opened FieldRoundTrips
  import opened Responses
  import opened Parameters
  import opened Multipart
  import opened Http

  // ---- The content type ----

  /** The names that the protocol looks for, byte by byte. */
  lemma NamesAre()
    ensures CONTENT_TYPE == [99, 111, 110, 116, 101, 110, 116, 45, 116, 121, 112, 101]
    ensures MULTIPART == [109, 117, 108, 116, 105, 112, 97, 114, 116, 47]
    ensures BOUNDARY == [98, 111, 117, 110, 100, 97, 114, 121]
    ensures CONNECTION == [99, 111, 110, 110, 101, 99, 116, 105, 111, 110]
    ensures UPGRADE == [117, 112, 103, 114, 97, 100, 101]
    ensures SEMI_COMMA == [59, 44] && COMMA_SEMI == [44, 59]
  {
  }

  /** The first pair with a key. */
  ghost predicate FirstPair(vals: seq<FieldVal>, key: Bytes, i: int) {
    0 <= i < |vals| && vals[i].Pair? && vals[i].key == key && forall j :: 0 <= j < i && vals[j].Pair? ==> vals[j].key != key
  }

  lemma {:induction false} BoundaryIs(vals: seq<FieldVal>)
    ensures BoundaryOf(vals).None? <==> forall v :: v in vals && v.Pair? ==> v.key != BOUNDARY
    ensures forall i :: FirstPair(vals, BOUNDARY, i) ==> BoundaryOf(vals) == Some(vals[i].val)
  {
    if vals != [] {
      BoundaryIs(vals[1..]);
      assert forall v :: v in vals <==> v == vals[0] || v in vals[1..];
      forall i | FirstPair(vals, BOUNDARY, i)
        ensures BoundaryOf(vals) == Some(vals[i].val)
      {
        if i > 0 {
          assert FirstPair(vals[1..], BOUNDARY, i - 1);
        }
      }
    }
  }

  /** A first value "multipart/", whatever kind of it. */
  ghost predicate SaysMultipart(vals: seq<FieldVal>) {
    vals != [] && vals[0].Single? && [109, 117, 108, 116, 105, 112, 97, 114, 116, 47] <= vals[0].text
  }

  /**
   What becomes of a content type: an empty one is refused, and so is a multipart one without a pair "boundary"; the first
   such pair has the body taken apart; the body of any other type is left alone.
   */
  lemma ContentTypeIs(h: Header, body: Bytes, vals: seq<FieldVal>)
    requires Lookup(h.fields, [99, 111, 110, 116, 101, 110, 116, 45, 116, 121, 112, 101]).Some?
    requires FieldVals(Lookup(h.fields, [99, 111, 110, 116, 101, 110, 116, 45, 116, 121, 112, 101]).value, [59, 44]) == Ok(vals)
    ensures vals == [] ==> Prepare(h, body) == Fail(BadRequest)
    ensures vals != [] && !SaysMultipart(vals) ==> Prepare(h, body) == Ok(h)
    ensures SaysMultipart(vals) && (forall v :: v in vals && v.Pair? ==> v.key != [98, 111, 117, 110, 100, 97, 114, 121]) ==>
              Prepare(h, body) == Fail(BadRequest)
    ensures forall i :: SaysMultipart(vals) && FirstPair(vals, [98, 111, 117, 110, 100, 97, 114, 121], i) ==>
              Prepare(h, body) == match ReadBody(body, vals[i].val)
                                  case Fail(e) => Fail(e)
                                  case Ok(args) => Ok(h.(bodyArgs := args))
  {
    hide ReadBody, FieldVals, BoundaryOf, Lookup;
    NamesAre();
    BoundaryIs(vals);
    assert SaysMultipart(vals) <==> vals != [] && vals[0].Single? && StartsWith(vals[0].text, MULTIPART);
  }

  /** A multipart post without a boundary is refused with 400, and the protocol stays. */
  lemma NoBoundaryIsRefused(env: Env, seen: seq<Event>, h: Header, body: Bytes, vals: seq<FieldVal>)
    requires Lookup(h.fields, [99, 111, 110, 116, 101, 110, 116, 45, 116, 121, 112, 101]).Some?
    requires FieldVals(Lookup(h.fields, [99, 111, 110, 116, 101, 110, 116, 45, 116, 121, 112, 101]).value, [59, 44]) == Ok(vals)
    requires SaysMultipart(vals) && forall v :: v in vals && v.Pair? ==> v.key != [98, 111, 117, 110, 100, 97, 114, 121]
    ensures Handle(env, seen, h, body) == Handled([Refused(400)], Keep)
  {
    hide Prepare, FieldVals;
    ContentTypeIs(h, body, vals);
  }

  /** Behind a complete body, a bad request is answered with 400 and the protocol kept; out of range is a 500 that ends it. */
  lemma FailureIsAnswered(env: Env, seen: seq<Event>, h: Header, body: Bytes)
    ensures Prepare(h, body) == Fail(BadRequest) ==> Handle(env, seen, h, body) == Handled([Refused(400)], Keep)
    ensures Prepare(h, body) == Fail(OutOfRange) ==> Handle(env, seen, h, body) == Handled([Refused(500)], Drop)
    ensures Prepare(h, body).Ok? && WantsUpgrade(Prepare(h, body).value) == Fail(BadRequest) ==>
              Handle(env, seen, h, body) == Handled([Refused(400)], Keep)
    ensures Prepare(h, body).Ok? && WantsUpgrade(Prepare(h, body).value) == Fail(OutOfRange) ==>
              Handle(env, seen, h, body) == Handled([Refused(500)], Drop)
  {
    hide Prepare, WantsUpgrade;
  }

  /**
   A well-formed form post that asks for no upgrade is dispatched once, with every part under its name and
   every byte of its content, and with the body as it was sent.
   */
  lemma FormPostIsDispatched(env: Env, seen: seq<Event>, h: Header, vals: seq<FieldVal>, i: nat,
                             preamble: Bytes, parts: seq<Part>, ms: seq<Meaning>, epilogue: Bytes)
    requires Lookup(h.fields, [99, 111, 110, 116, 101, 110, 116, 45, 116, 121, 112, 101]).Some?
    requires FieldVals(Lookup(h.fields, [99, 111, 110, 116, 101, 110, 116, 45, 116, 121, 112, 101]).value, [59, 44]) == Ok(vals)
    requires SaysMultipart(vals) && FirstPair(vals, [98, 111, 117, 110, 100, 97, 114, 121], i)
    requires WantsUpgrade(h) == Ok(false)
    requires |parts| == |ms| && Separated(parts, vals[i].val, epilogue)
    requires forall k :: 0 <= k < |parts| ==> Described(parts[k], ms[k].fields, ms[k].vals, ms[k].name)
    requires Find(BodyText(preamble, parts, vals[i].val, epilogue), vals[i].val, 0) == |preamble| + 2
    ensures var body := BodyText(preamble, parts, vals[i].val, epilogue);
            var request := Request(h.(bodyArgs := Args(parts, ms)), body);
            Handle(env, seen, h, body).events ==
            [Routed(request), match env.route(seen, request) case None => Refused(500) case Some(r) => Sent(r)]
  {
    hide Separated, Described, BodyText, ReadBody, FieldVals, Find, Args, WantsUpgrade, Prepare, SaysMultipart, FirstPair, Lookup;
    assert i < |vals| && vals[i].Pair? by {
      PairThere(vals, [98, 111, 117, 110, 100, 97, 114, 121], i);
    }
    BodyRoundTrip(preamble, parts, ms, vals[i].val, epilogue);
    ContentTypeIs(h, BodyText(preamble, parts, vals[i].val, epilogue), vals);
    UpgradeLooksAtFields(h, Args(parts, ms));
  }

  lemma PairThere(vals: seq<FieldVal>, key: Bytes, i: nat)
    requires FirstPair(vals, key, i)
    ensures i < |vals| && vals[i].Pair?
  {
  }

  /** The first parameter with a key is the first pair with it. */
  lemma FirstParam(v: Value, key: Bytes, at: nat)
    requires at < |v.params| && v.params[at].key == key && forall j :: 0 <= j < at ==> v.params[j].key != key
    ensures FirstPair(Parts(v), key, at + 1) && Parts(v)[at + 1] == Pair(key, v.params[at].val)
  {
    hide Parts;
    var vals := Parts(v);
    assert vals[at + 1] == Pair(v.params[at].key, v.params[at].val);
    forall j | 0 <= j < at + 1 && vals[j].Pair?
      ensures vals[j].key != key
    {
      if j > 0 {
        assert vals[j - 1 + 1] == Pair(v.params[j - 1].key, v.params[j - 1].val);
      }
    }
  }

  /**
   From the text of the content type: a post of any form parts under a plain boundary that occurs in none of them, which
   asks for no upgrade, reaches the dispatcher with all parts, every parameter, header field and byte of content.
   */
  lemma FormPostArrives(env: Env, seen: seq<Event>, h: Header, kind: Value, at: nat,
                        preamble: Bytes, ps: seq<FormPart>, epilogue: Bytes)
    requires Lookup(h.fields, [99, 111, 110, 116, 101, 110, 116, 45, 116, 121, 112, 101]) == Some(ValueText(kind))
    requires PlainValue(kind) && [109, 117, 108, 116, 105, 112, 97, 114, 116, 47] <= kind.word && at < |kind.params|
    requires kind.params[at].key == [98, 111, 117, 110, 100, 97, 114, 121]
    requires forall j :: 0 <= j < at ==> kind.params[j].key != [98, 111, 117, 110, 100, 97, 114, 121]
    requires WantsUpgrade(h) == Ok(false)
    requires (forall p :: p in ps ==> ValidForm(p)) && PlainBoundary(kind.params[at].val)
    requires forall p :: p in ps ==> Absent(Lines(FieldLines(AllFields(p))) + CRLF + p.content, kind.params[at].val)
    requires Find(preamble + DASHES + kind.params[at].val, kind.params[at].val, 0) == |preamble| + 2
    ensures var body := BodyText(preamble, FormParts(ps), kind.params[at].val, epilogue);
            var request := Request(h.(bodyArgs := FormArgs(ps)), body);
            Handle(env, seen, h, body).events ==
            [Routed(request), match env.route(seen, request) case None => Refused(500) case Some(r) => Sent(r)]
  {
    hide BodyText, ReadBody, FieldVals, Find, WantsUpgrade, Prepare, FirstPair, Lookup, PlainValue, ValueText, Parts, FormArgs,
      Absent, PlainBoundary, ValidForm, AllFields;
    var body := BodyText(preamble, FormParts(ps), kind.params[at].val, epilogue);
    ReadValue(kind);
    FirstParam(kind, [98, 111, 117, 110, 100, 97, 114, 121], at);
    PlainBoundaryArrives(preamble, ps, kind.params[at].val, epilogue);
    ContentTypeIs(h, body, Parts(kind));
    UpgradeLooksAtFields(h, FormArgs(ps));
  }

  lemma UpgradeLooksAtFields(h: Header, args: seq<NamedArg>)
    ensures WantsUpgrade(h.(bodyArgs := args)) == WantsUpgrade(h)
  {
    hide FieldVals;
  }

  // ---- The connection field ----

  /** A word of a comma-separated list. */
  ghost predicate Word(w: Bytes) {
    CleanChunk(w, [44, 59]) && forall c :: c in w ==> c !in {PERCENT, QUOTE, EQUALS}
  }

  function Singles(ws: seq<Bytes>): (vals: seq<FieldVal>)
    ensures |vals| == |ws|
    ensures forall i :: 0 <= i < |ws| ==> vals[i] == Single(ws[i])
  {
    seq(|ws|, i requires 0 <= i < |ws| => Single(ws[i]))
  }

  lemma ReadWord(w: Bytes)
    requires Word(w)
    ensures ReadChunk(w) == Ok(Single(w))
  {
    hide Unescape, FindAny;
    FindByteNone(w, EQUALS);
    UnquotePlain(w);
    UnescapePlain(w);
  }

  /** Two texts that differ in the case of letters at most, the second in lower case. */
  ghost predicate SameLetters(w: Bytes, letters: Bytes) {
    |w| == |letters| && forall i :: 0 <= i < |w| ==> w[i] == letters[i] || w[i] as int + 32 == letters[i]
  }

  lemma LowerIff(w: Bytes)
    ensures ToLower(w) == ToLower(UPGRADE) <==> SameLetters(w, [117, 112, 103, 114, 97, 100, 101])
  {
    NamesAre();
    var u, v := ToLower(w), ToLower(UPGRADE);
    assert v == UPGRADE;
    if SameLetters(w, UPGRADE) {
      assert u == v;
    }
    if u == v {
      forall i | 0 <= i < |w|
        ensures w[i] == UPGRADE[i] || w[i] as int + 32 == UPGRADE[i]
      {
        assert u[i] == LowerByte(w[i]);
      }
    }
  }

  /** A request is an upgrade exactly when one word of its connection field is "upgrade", in any letter case. */
  lemma UpgradeIff(h: Header, ws: seq<Bytes>, seps: seq<Sep>)
    requires |ws| == |seps| + 1 && (forall w :: w in ws ==> Word(w))
    requires forall s :: s in seps ==> ValidSep(s, [44, 59])
    requires Lookup(h.fields, [99, 111, 110, 110, 101, 99, 116, 105, 111, 110]) == Some(ListText(ws, seps, []))
    ensures WantsUpgrade(h).Ok?
    ensures WantsUpgrade(h).value <==> exists w :: w in ws && SameLetters(w, [117, 112, 103, 114, 97, 100, 101])
  {
    hide ReadChunk, FieldVals, ListText, ToLower, SameLetters;
    NamesAre();
    forall i | 0 <= i < |ws|
      ensures CleanChunk(ws[i], COMMA_SEMI) && ReadChunk(ws[i]) == Ok(Singles(ws)[i])
    {
      assert Word(ws[i]);
      ReadWord(ws[i]);
    }
    var text := ListText(ws, seps, []);
    assert [] + text == text;
    ReadList([], ws, Singles(ws), seps, COMMA_SEMI, []);
    WordsMention(ws);
  }

  lemma WordsMention(ws: seq<Bytes>)
    ensures MentionsUpgrade(Singles(ws)) <==> exists w :: w in ws && SameLetters(w, [117, 112, 103, 114, 97, 100, 101])
  {
    hide ToLower, SameLetters;
    var vals := Singles(ws);
    if w :| w in ws && SameLetters(w, [117, 112, 103, 114, 97, 100, 101]) {
      var i :| 0 <= i < |ws| && ws[i] == w;
      LowerIff(w);
      assert vals[i].Single? && ToLower(vals[i].text) == ToLower(UPGRADE);
    }
    if MentionsUpgrade(vals) {
      var i :| 0 <= i < |vals| && vals[i].Single? && ToLower(vals[i].text) == ToLower(UPGRADE);
      LowerIff(ws[i]);
      assert ws[i] in ws;
    }
  }
}
