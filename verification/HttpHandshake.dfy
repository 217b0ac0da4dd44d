/** From the bytes of a request with a connection field to the switch of the protocol (HttpProtocol.cpp:149-164). */
module HttpHandshake {
  import opened Bytes
  import opened Text
  import opened Requests
  import opened FieldRoundTrips
  import opened Responses
  import opened RequestRoundTrips
  import opened Http
  import opened HttpForms
  import opened HttpRuns
  import opened HttpSlicing
  import opened HttpVersions

  /** A request without body whose connection field is a list of words, with any other clean fields. */
  datatype Handshake = Handshake(httpMethod: Bytes, path: Bytes, version: Bytes, name: Bytes, ws: seq<Bytes>, seps: seq<Sep>,
                                 fs: seq<Field>)

  ghost predicate ValidHandshake(k: Handshake) {
    && OneLine(k.httpMethod) && SP !in k.httpMethod && OneLine(k.version)
    && CleanName(k.name) && SameLetters(k.name, [99, 111, 110, 110, 101, 99, 116, 105, 111, 110])
    && |k.ws| == |k.seps| + 1 && (forall w :: w in k.ws ==> Word(w) && OneLine(w))
    && (forall s :: s in k.seps ==> ValidSep(s, [44, 59]))
    && forall f :: f in k.fs ==> CleanField(f) && ToLower(f.name) !in {CONTENT_TYPE, CONTENT_LENGTH, COOKIE}
  }

  function FieldsOf(k: Handshake): (fs: seq<Field>)
    requires |k.ws| == |k.seps| + 1
  {
    [Field(k.name, ListText(k.ws, k.seps, []))] + k.fs
  }

  /** Its bytes up to the empty line. */
  function HeadBytes(k: Handshake): (head: Bytes)
    requires |k.ws| == |k.seps| + 1
  {
    RequestHead(k.httpMethod, Escape(k.path, PATH_RESERVED), k.version, FieldsOf(k))
  }

  /** What it is read as. */
  function HeaderRead(k: Handshake): (h: Header)
    requires |k.ws| == |k.seps| + 1
  {
    Header(k.httpMethod, Before(k.path, FindByte(k.path, QUESTION, 0)), k.path, k.version, map[], Lowered(FieldsOf(k)), [], [], 0)
  }

  lemma WordsClean(k: Handshake)
    requires ValidHandshake(k)
    ensures CleanValue(ListText(k.ws, k.seps, []))
  {
    hide ListText, CleanName, SameLetters;
    assert k.ws[0] in k.ws && k.ws[|k.ws| - 1] in k.ws;
    forall i | 0 <= i < |k.ws|
      ensures k.ws[i] != []
    {
      assert k.ws[i] in k.ws;
    }
    ListEnds(k.ws, k.seps);
    forall s | s in k.seps
      ensures s.delim in [44, 59] && forall b :: b in s.blanks ==> b in BLANKS
    {
      assert ValidSep(s, [44, 59]);
    }
    ListAvoids(k.ws, k.seps, CR);
    ListAvoids(k.ws, k.seps, LF);
    ListAvoids(k.ws, k.seps, PERCENT);
  }

  lemma NameIsConnection(n: Bytes)
    requires CleanName(n) && SameLetters(n, [99, 111, 110, 110, 101, 99, 116, 105, 111, 110])
    ensures ToLower(n) == [99, 111, 110, 110, 101, 99, 116, 105, 111, 110] == CONNECTION
  {
    NamesAre();
    var t := ToLower(n);
    forall i | 0 <= i < |n|
      ensures t[i] == CONNECTION[i]
    {
      assert t[i] == LowerByte(n[i]);
    }
  }

  lemma NamesDiffer()
    ensures CONNECTION !in {CONTENT_TYPE, CONTENT_LENGTH, COOKIE}
  {
    assert |CONNECTION| == 10 && |CONTENT_TYPE| == 12 && |CONTENT_LENGTH| == 14 && |COOKIE| == 6;
  }

  lemma FieldsAre(k: Handshake)
    requires ValidHandshake(k)
    ensures var fs := FieldsOf(k);
            && (forall f :: f in fs ==> CleanField(f))
            && Lookup(Lowered(fs), [99, 111, 110, 110, 101, 99, 116, 105, 111, 110]) == Some(ListText(k.ws, k.seps, []))
            && Lookup(Lowered(fs), CONTENT_TYPE) == None && Lookup(Lowered(fs), CONTENT_LENGTH) == None
            && Cookies(Lowered(fs), map[]) == Ok(map[])
  {
    hide ListText, CleanField, ToLower, Lookup, Word, SameLetters;
    var fs := FieldsOf(k);
    WordsClean(k);
    NameIsConnection(k.name);
    NamesDiffer();
    FirstLooked(fs, CONNECTION);
    assert CleanField(fs[0]) by {
      FieldIsClean(fs[0]);
    }
    LookupLowered(fs, CONTENT_TYPE);
    LookupLowered(fs, CONTENT_LENGTH);
    LoweredNames(fs, COOKIE);
    NoCookies(Lowered(fs), map[]);
  }

  lemma FieldIsClean(f: Field)
    requires CleanName(f.name) && CleanValue(f.val)
    ensures CleanField(f)
  {
  }

  lemma FirstLooked(fs: seq<Field>, name: Bytes)
    requires fs != [] && ToLower(fs[0].name) == name
    ensures Lookup(Lowered(fs), name) == Some(fs[0].val)
  {
    hide ToLower;
  }

  lemma HandshakeReads(k: Handshake)
    requires ValidHandshake(k)
    ensures ValidMsg(Msg(HeadBytes(k), HeaderRead(k), []))
  {
    hide ReadHeader, Lines, FieldLines, CleanField, Lookup, Cookies, Escape, FindAny, Find, Lowered, FieldsOf, ListText, ToLower;
    var fs, target := FieldsOf(k), Escape(k.path, PATH_RESERVED);
    FieldsAre(k);
    ReadPathRequest(k.httpMethod, k.path, k.version, fs, 0);
    var line := k.httpMethod + [SP] + target + [SP] + k.version;
    TargetIsOneLine(k.path);
    CleanLines(fs);
    FirstEmptyLine(line, FieldLines(fs), []);
    assert HeadBytes(k) + CRLF == line + CRLF + Lines(FieldLines(fs)) + CRLF + [];
  }

  lemma TargetIsOneLine(path: Bytes)
    ensures OneLine(Escape(path, PATH_RESERVED))
  {
    hide Escape;
    EscapeAvoids(path, PATH_RESERVED, CR);
    EscapeAvoids(path, PATH_RESERVED, LF);
  }

  /**
   From the bytes: a request switches the protocol, if the handshake behind it succeeds, if and only if a word of its
   connection field is "upgrade" in any letter case; otherwise it goes to the dispatcher.
   */
  lemma HandshakeSwitchesIff(env: Env, k: Handshake)
    requires ValidHandshake(k) && env.upgrade([], Request(HeaderRead(k), [])) == None
    ensures var o, request := Call(env, [], RunningTotal, 0, None, HeadBytes(k) + CRLF), Request(HeaderRead(k), []);
            && o.pending == None && o.consumed == |HeadBytes(k)| + 2 && o.events != []
            && (o.end == Switched <==> exists w :: w in k.ws && SameLetters(w, [117, 112, 103, 114, 97, 100, 101]))
            && (o.end == Switched ==> o.events == [Upgraded(request)])
            && (o.end != Switched ==> o.events[0] == Routed(request))
  {
    hide Call, HeadBytes, WantsUpgrade, Lookup, Lowered, FieldsOf, ListText, SameLetters, CleanName, Word, ToLower, ValidMsg;
    var m := Msg(HeadBytes(k), HeaderRead(k), []);
    HandshakeReads(k);
    WholeMessage(env, m);
    assert MsgBytes(m) == HeadBytes(k) + CRLF;
    FieldsAre(k);
    UpgradeIff(m.header, k.ws, k.seps);
  }

  // ---- An input ----

  /** "GET / HTTP/1.1" and "Connection: Upgrade": the protocol is switched. */
  lemma GetUpgrade()
    ensures var o := Call(ANSWERING, [], RunningTotal, 0, None,
                          [71, 69, 84, 32, 47, 32, 72, 84, 84, 80, 47, 49, 46, 49] + [13, 10]
                          + [67, 111, 110, 110, 101, 99, 116, 105, 111, 110, 58, 32, 85, 112, 103, 114, 97, 100, 101]
                          + [13, 10] + [13, 10]);
            o.end == Switched && o.pending == None && o.consumed == 39 && |o.events| == 1 && o.events[0].Upgraded?
  {
    hide Call, HeadBytes, ValidHandshake;
    var k := Handshake([71, 69, 84], [47], [72, 84, 84, 80, 47, 49, 46, 49],
                       [67, 111, 110, 110, 101, 99, 116, 105, 111, 110], [[85, 112, 103, 114, 97, 100, 101]], [], []);
    GetIsHandshake(k);
    HandshakeSwitchesIff(ANSWERING, k);
    assert k.ws[0] in k.ws;
  }

  lemma GetIsHandshake(k: Handshake)
    requires k == Handshake([71, 69, 84], [47], [72, 84, 84, 80, 47, 49, 46, 49],
                            [67, 111, 110, 110, 101, 99, 116, 105, 111, 110], [[85, 112, 103, 114, 97, 100, 101]], [], [])
    ensures ValidHandshake(k) && SameLetters(k.ws[0], [117, 112, 103, 114, 97, 100, 101])
    ensures HeadBytes(k) == [71, 69, 84, 32, 47, 32, 72, 84, 84, 80, 47, 49, 46, 49] + [13, 10]
                            + [67, 111, 110, 110, 101, 99, 116, 105, 111, 110, 58, 32, 85, 112, 103, 114, 97, 100, 101] + [13, 10]
  {
    hide Escape, FieldLines, Lines, ListText, ValidHandshake, SameLetters;
    OneWord(k.ws[0]);
    ConnectionLine();
    GetLine();
    GetIsValid(k);
    assert FieldsOf(k) == [Field(k.name, k.ws[0])];
    var more := Lines(FieldLines(FieldsOf(k)));
    Associative([71, 69, 84, 32, 47, 32, 72, 84, 84, 80, 47, 49, 46, 49], CRLF, more);
  }

  lemma GetIsValid(k: Handshake)
    requires k == Handshake([71, 69, 84], [47], [72, 84, 84, 80, 47, 49, 46, 49],
                            [67, 111, 110, 110, 101, 99, 116, 105, 111, 110], [[85, 112, 103, 114, 97, 100, 101]], [], [])
    ensures ValidHandshake(k) && SameLetters(k.ws[0], [117, 112, 103, 114, 97, 100, 101])
  {
    hide OneLine, CleanName, SameLetters, Word, ToLower;
    PlainLine(k.httpMethod);
    PlainLine(k.version);
    NameIsPlain();
    WordIsPlain();
  }

  lemma PlainLine(s: Bytes)
    requires forall c :: c in s ==> c > 32
    ensures OneLine(s) && SP !in s
  {
  }

  lemma NameIsPlain()
    ensures CleanName([67, 111, 110, 110, 101, 99, 116, 105, 111, 110])
    ensures SameLetters([67, 111, 110, 110, 101, 99, 116, 105, 111, 110], [99, 111, 110, 110, 101, 99, 116, 105, 111, 110])
  {
  }

  lemma WordIsPlain()
    ensures Word([85, 112, 103, 114, 97, 100, 101]) && OneLine([85, 112, 103, 114, 97, 100, 101])
    ensures SameLetters([85, 112, 103, 114, 97, 100, 101], [117, 112, 103, 114, 97, 100, 101])
  {
  }

  lemma OneWord(w: Bytes)
    ensures ListText([w], [], []) == w
  {
    assert w + [] == w;
  }

  lemma ConnectionLine()
    ensures Lines(FieldLines([Field([67, 111, 110, 110, 101, 99, 116, 105, 111, 110], [85, 112, 103, 114, 97, 100, 101])])) ==
            [67, 111, 110, 110, 101, 99, 116, 105, 111, 110, 58, 32, 85, 112, 103, 114, 97, 100, 101] + [13, 10]
  {
    var f := Field([67, 111, 110, 110, 101, 99, 116, 105, 111, 110], [85, 112, 103, 114, 97, 100, 101]);
    assert FieldLines([f]) == [FieldLine(f)] + FieldLines([]);
    assert Lines([FieldLine(f)]) == FieldLine(f) + CRLF + Lines([]);
    assert FieldLine(f) == [67, 111, 110, 110, 101, 99, 116, 105, 111, 110, 58, 32, 85, 112, 103, 114, 97, 100, 101];
  }

  lemma GetLine()
    ensures Escape([47], PATH_RESERVED) == [47]
    ensures [71, 69, 84] + [SP] + [47] + [SP] + [72, 84, 84, 80, 47, 49, 46, 49] ==
            [71, 69, 84, 32, 47, 32, 72, 84, 84, 80, 47, 49, 46, 49]
  {
    assert [47][1..] == [];
    assert Escape([47], PATH_RESERVED) == [47] + Escape([], PATH_RESERVED);
  }
}
