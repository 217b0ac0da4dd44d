/** Whole request heads and cookie fields, printed and read back. */
module RequestRoundTrips {
  import opened Bytes
  import opened Text
  import opened Requests
  import opened FieldRoundTrips
  import opened Responses
  import opened UrlArguments

  /** The bytes that are escaped in the path of a printed request. */
  const PATH_RESERVED: set<byte> := {PERCENT, SP, QUESTION, HASH, CR, LF}

  /** The bytes that are escaped in its arguments, besides those an entry always escapes. */
  const ARGS_RESERVED: Bytes := [AMPERSAND, HASH, CR, LF]

  /** The request target: escaped path, '?', escaped arguments, and a fragment if there is one. */
  function Target(path: Bytes, args: seq<Arg>, seps: seq<Sep>, fragment: Option<Bytes>): (t: Bytes)
    requires |args| == |seps| + 1
  {
    Escape(path, PATH_RESERVED) + [QUESTION] + ListText(ArgTexts(args, ARGS_RESERVED), seps, []) + FragmentText(fragment)
  }

  function FragmentText(fragment: Option<Bytes>): (t: Bytes) {
    if fragment.None? then [] else [HASH] + Escape(fragment.value, PATH_RESERVED)
  }

  function PlainText(e: Entry): (t: Bytes) {
    e.key + [EQUALS] + e.val
  }

  function PlainTexts(es: seq<Entry>): (r: seq<Bytes>)
    ensures |r| == |es|
    ensures forall i :: 0 <= i < |es| ==> r[i] == PlainText(es[i])
  {
    seq(|es|, i requires 0 <= i < |es| => PlainText(es[i]))
  }

  /** A list of entries as a text without escapes. */
  function PlainList(es: seq<Entry>, seps: seq<Sep>): (t: Bytes)
    requires |es| == |seps| + 1
  {
    ListText(PlainTexts(es), seps, [])
  }

  lemma {:induction false} UnescapeLiterals(a: Bytes, z: Bytes)
    requires PERCENT !in a
    ensures Unescape(a + z) == Prepend(a, Unescape(z))
    decreases |a|
  {
    hide Unescape;
    if a == [] {
      assert a + z == z;
      PrependNothing(Unescape(z));
    } else {
      UnescapeLiterals(a[1..], z);
      assert a + z == [a[0]] + (a[1..] + z);
      UnescapeLiteral(a[0], a[1..] + z);
      PrependTwice([a[0]], a[1..], Unescape(z));
      assert [a[0]] + a[1..] == a;
    }
  }

  /** `e` is a way to write `p`, whatever follows it. */
  ghost predicate Writes(e: Bytes, p: Bytes) {
    forall z: Bytes :: Unescape(e + z) == Prepend(p, Unescape(z))
  }

  lemma WritesApply(e: Bytes, p: Bytes, z: Bytes)
    requires Writes(e, p)
    ensures Unescape(e + z) == Prepend(p, Unescape(z))
  {
    hide Unescape;
  }

  lemma EscapeWrites(x: Bytes, reserved: set<byte>)
    requires PERCENT in reserved
    ensures Writes(Escape(x, reserved), x)
  {
    hide Unescape, Escape;
    forall z: Bytes
      ensures Unescape(Escape(x, reserved) + z) == Prepend(x, Unescape(z))
    {
      UnescapeEscape(x, reserved, z);
    }
  }

  lemma LiteralWrites(a: Bytes)
    requires PERCENT !in a
    ensures Writes(a, a)
  {
    hide Unescape;
    forall z: Bytes
      ensures Unescape(a + z) == Prepend(a, Unescape(z))
    {
      UnescapeLiterals(a, z);
    }
  }

  lemma WritesBoth(e: Bytes, p: Bytes, f: Bytes, q: Bytes)
    requires Writes(e, p) && Writes(f, q)
    ensures Writes(e + f, p + q)
  {
    hide Unescape;
    forall z: Bytes
      ensures Unescape((e + f) + z) == Prepend(p + q, Unescape(z))
    {
      Associative(e, f, z);
      WritesApply(e, p, f + z);
      WritesApply(f, q, z);
      PrependTwice(p, q, Unescape(z));
    }
  }

  lemma WritesAll(e: Bytes, p: Bytes)
    requires Writes(e, p)
    ensures Unescape(e) == Ok(p)
  {
    hide Unescape, Writes;
    WritesApply(e, p, []);
    UnescapePlain([]);
    assert e + [] == e && p + [] == p;
  }

  lemma EntryWrites(e: Entry, reserved: Bytes)
    ensures Writes(EntryText(e, reserved), PlainText(e))
  {
    hide Writes, Escape;
    var r := Reserved(reserved);
    EscapeWrites(e.key, r);
    EscapeWrites(e.val, r);
    LiteralWrites([EQUALS]);
    WritesBoth(Escape(e.key, r), e.key, [EQUALS], [EQUALS]);
    WritesBoth(Escape(e.key, r) + [EQUALS], e.key + [EQUALS], Escape(e.val, r), e.val);
  }

  /** Separators that hold no escape. */
  ghost predicate PlainSep(s: Sep) {
    s.delim != PERCENT && forall c :: c in s.blanks ==> c in BLANKS
  }

  /** Unescaping a list takes the escapes of its chunks away, wherever they stood for a separator. */
  lemma {:induction false} ListWrites(es: seq<Bytes>, ps: seq<Bytes>, seps: seq<Sep>)
    requires |es| == |ps| == |seps| + 1 && forall s :: s in seps ==> PlainSep(s)
    requires forall i :: 0 <= i < |es| ==> Writes(es[i], ps[i])
    ensures Writes(ListText(es, seps, []), ListText(ps, seps, []))
    decreases |es|
  {
    hide Writes;
    if |es| == 1 {
      assert es[0] + [] == es[0] && ps[0] + [] == ps[0];
    } else {
      var sep := seps[0];
      var tail := [sep.delim] + sep.blanks;
      assert PlainSep(sep);
      LiteralWrites(tail);
      ListWrites(es[1..], ps[1..], seps[1..]);
      var e, p := ListText(es[1..], seps[1..], []), ListText(ps[1..], seps[1..], []);
      WritesBoth(tail, tail, e, p);
      WritesBoth(es[0], ps[0], tail + e, tail + p);
    }
  }

  lemma {:induction false} EntryTextsAre(es: seq<Entry>, reserved: Bytes)
    ensures forall i :: 0 <= i < |es| ==> EntryTexts(es, reserved)[i] == EntryText(es[i], reserved)
  {
    hide EntryText;
    if es != [] {
      EntryTextsAre(es[1..], reserved);
    }
  }

  lemma UnescapeList(es: seq<Entry>, seps: seq<Sep>, reserved: Bytes)
    requires |es| == |seps| + 1 && forall s :: s in seps ==> PlainSep(s)
    ensures Unescape(ListText(EntryTexts(es, reserved), seps, [])) == Ok(PlainList(es, seps))
  {
    hide Unescape, EntryText, PlainText, ListText, Writes, EntryTexts;
    EntryTextsAre(es, reserved);
    forall i | 0 <= i < |es|
      ensures Writes(EntryTexts(es, reserved)[i], PlainTexts(es)[i])
    {
      EntryWrites(es[i], reserved);
    }
    ListWrites(EntryTexts(es, reserved), PlainTexts(es), seps);
    WritesAll(ListText(EntryTexts(es, reserved), seps, []), PlainList(es, seps));
  }

  // ---- The target ----

  function PlainArg(a: Arg): (t: Bytes) {
    match a
    case KeyVal(key, val) => PlainText(Entry(key, val))
    case Flag(text) => text
  }

  function PlainArgs(args: seq<Arg>, seps: seq<Sep>): (t: Bytes)
    requires |args| == |seps| + 1
  {
    ListText(seq(|args|, i requires 0 <= i < |args| => PlainArg(args[i])), seps, [])
  }

  /** The URL of a request: its target without the escapes. */
  function PlainUrl(path: Bytes, args: seq<Arg>, seps: seq<Sep>, fragment: Option<Bytes>): (t: Bytes)
    requires |args| == |seps| + 1
  {
    path + ([QUESTION] + (PlainArgs(args, seps) + if fragment.None? then [] else [HASH] + fragment.value))
  }

  lemma ArgsWrite(args: seq<Arg>, seps: seq<Sep>)
    requires |args| == |seps| + 1 && forall s :: s in seps ==> PlainSep(s)
    ensures Writes(ListText(ArgTexts(args, ARGS_RESERVED), seps, []), PlainArgs(args, seps))
  {
    hide EntryText, PlainText, ListText, Writes, Escape;
    var ps := seq(|args|, i requires 0 <= i < |args| => PlainArg(args[i]));
    forall i | 0 <= i < |args|
      ensures Writes(ArgTexts(args, ARGS_RESERVED)[i], ps[i])
    {
      match args[i]
      case KeyVal(key, val) => EntryWrites(Entry(key, val), ARGS_RESERVED);
      case Flag(text) => EscapeWrites(text, Reserved(ARGS_RESERVED));
    }
    ListWrites(ArgTexts(args, ARGS_RESERVED), ps, seps);
  }

  lemma FragmentWrites(fragment: Option<Bytes>)
    ensures Writes(FragmentText(fragment), if fragment.None? then [] else [HASH] + fragment.value)
  {
    hide Writes, Escape;
    if fragment.None? {
      LiteralWrites([]);
    } else {
      LiteralWrites([HASH]);
      EscapeWrites(fragment.value, PATH_RESERVED);
      WritesBoth([HASH], [HASH], Escape(fragment.value, PATH_RESERVED), fragment.value);
    }
  }

  lemma UnescapeTarget(path: Bytes, args: seq<Arg>, seps: seq<Sep>, fragment: Option<Bytes>)
    requires |args| == |seps| + 1 && forall s :: s in seps ==> PlainSep(s)
    ensures Unescape(Target(path, args, seps, fragment)) == Ok(PlainUrl(path, args, seps, fragment))
  {
    hide Unescape, Escape, ListText, ArgTexts, PlainArgs, Writes, FragmentText;
    var e, query, tail := Escape(path, PATH_RESERVED), ListText(ArgTexts(args, ARGS_RESERVED), seps, []), FragmentText(fragment);
    var p, q, t := path, PlainArgs(args, seps), if fragment.None? then [] else [HASH] + fragment.value;
    EscapeWrites(path, PATH_RESERVED);
    LiteralWrites([QUESTION]);
    ArgsWrite(args, seps);
    FragmentWrites(fragment);
    WritesBoth(query, q, tail, t);
    WritesBoth([QUESTION], [QUESTION], query + tail, q + t);
    WritesBoth(e, p, [QUESTION] + (query + tail), [QUESTION] + (q + t));
    assert Target(path, args, seps, fragment) == e + ([QUESTION] + (query + tail));
    WritesAll(e + ([QUESTION] + (query + tail)), p + ([QUESTION] + (q + t)));
  }

  /** The target fits on a line and between two spaces, and its path ends at its first '?'. */
  lemma TargetClean(path: Bytes, args: seq<Arg>, seps: seq<Sep>, fragment: Option<Bytes>)
    requires |args| == |seps| + 1
    requires forall s :: s in seps ==> s.delim == AMPERSAND && s.blanks == []
    ensures OneLine(Target(path, args, seps, fragment)) && SP !in Target(path, args, seps, fragment)
    ensures QUESTION !in Escape(path, PATH_RESERVED)
    ensures Separators(ARGS_RESERVED)
  {
    hide ListText, ArgTexts, Escape;
    forall c | c in {SP, CR, LF}
      ensures c !in Target(path, args, seps, fragment)
    {
      EscapeAvoids(path, PATH_RESERVED, c);
      QueryIsClean(args, seps, c);
      if fragment.Some? {
        EscapeAvoids(fragment.value, PATH_RESERVED, c);
      }
    }
    EscapeAvoids(path, PATH_RESERVED, QUESTION);
  }

  lemma QueryIsClean(args: seq<Arg>, seps: seq<Sep>, c: byte)
    requires |args| == |seps| + 1 && c in {SP, CR, LF}
    requires forall s :: s in seps ==> s.delim == AMPERSAND && s.blanks == []
    ensures c !in ListText(ArgTexts(args, ARGS_RESERVED), seps, [])
  {
    hide ListText, ArgText;
    forall x | x in ArgTexts(args, ARGS_RESERVED)
      ensures c !in x
    {
      var i :| 0 <= i < |args| && ArgTexts(args, ARGS_RESERVED)[i] == x;
      ArgAvoids(args[i], ARGS_RESERVED, c);
    }
    ListAvoids(ArgTexts(args, ARGS_RESERVED), seps, c);
  }

  /** The resource is what stands before the first '?' of the unescaped URL: the path, unless that holds a '?' itself. */
  lemma ResourceRightIff(path: Bytes, args: Bytes)
    ensures var url := path + ([QUESTION] + args);
            Before(url, FindByte(url, QUESTION, 0)) == path <==> QUESTION !in path
  {
    hide FindAny;
    var url := path + ([QUESTION] + args);
    var r := FindByte(url, QUESTION, 0);
    assert url[|path|] == QUESTION;
    if QUESTION !in path {
      assert url == path + [QUESTION] + args;
      FindByteAfter(path, QUESTION, args);
      assert url[..|path|] == path;
    } else {
      var i :| 0 <= i < |path| && path[i] == QUESTION;
      assert url[i] == QUESTION;
      FindByteFirst(url, QUESTION, i);
    }
  }

  lemma FindByteFirst(s: Bytes, c: byte, i: nat)
    requires i < |s| && s[i] == c
    ensures 0 <= FindByte(s, c, 0) <= i
  {
  }

  /** A printed request head. */
  function RequestHead(httpMethod: Bytes, target: Bytes, version: Bytes, fs: seq<Field>): (h: Bytes) {
    httpMethod + [SP] + target + [SP] + version + CRLF + Lines(FieldLines(fs))
  }

  /** What the content-length field says, 0 if there is none. */
  ghost predicate HasLength(fs: seq<Field>, n: nat) {
    var v := Lookup(Lowered(fs), CONTENT_LENGTH);
    if v.None? then n == 0 else ContentLength(v.value) == Ok(n)
  }

  /** The header of a request whose parts arrive as they are, given what becomes of its cookie fields. */
  function Complete(httpMethod: Bytes, url: Bytes, version: Bytes, fs: seq<Field>, args: seq<Field>, n: nat): (r: Result<Header>) {
    match Cookies(fs, map[])
    case Fail(e) => Fail(e)
    case Ok(cookies) =>
      Ok(Header(httpMethod, Before(url, FindByte(url, QUESTION, 0)), url, version, cookies, fs, args, [], n))
  }

  /**
   parse_header on a printed request with arguments and a fragment: method, URL, version and fields come back; the
   arguments come back if and only if none of them holds a percent sign, the resource is the path if and only if that holds
   no '?'.
   */
  lemma ReadRequest(httpMethod: Bytes, path: Bytes, args: seq<Arg>, seps: seq<Sep>, fragment: Option<Bytes>, version: Bytes,
                    fs: seq<Field>, n: nat)
    requires OneLine(httpMethod) && SP !in httpMethod && OneLine(version)
    requires |args| == |seps| + 1 && (forall s :: s in seps ==> s.delim == AMPERSAND && s.blanks == [])
    requires forall a :: a in args ==> Whole(a)
    requires (forall f :: f in fs ==> CleanField(f)) && HasLength(fs, n)
    ensures var url := PlainUrl(path, args, seps, fragment);
            && ReadHeader(RequestHead(httpMethod, Target(path, args, seps, fragment), version, fs)) ==
               (match ArgsOf(ArgVals(args))
                case Fail(e) => Fail(e)
                case Ok(urlArgs) => Complete(httpMethod, url, version, Lowered(fs), urlArgs, n))
            && (ArgsOf(ArgVals(args)) == Ok(ArgFields(args)) <==> forall a :: a in args ==> NoPercent(a))
            && (Before(url, FindByte(url, QUESTION, 0)) == path <==> QUESTION !in path)
  {
    hide ReadHeader, Lines, FieldLines, Unescape, UrlArgs, CleanField, ToLower, Lookup, ContentLength, Cookies, FragmentText,
      PlainArgs, ListText, ArgTexts, Escape, FindAny, Lowered, ArgVals, ArgFields, ArgsOf, ReadFields, NoPercent, Whole;
    forall s | s in seps
      ensures ValidSep(s, [38]) && PlainSep(s)
    {
    }
    var target := Target(path, args, seps, fragment);
    TargetClean(path, args, seps, fragment);
    UnescapeTarget(path, args, seps, fragment);
    FragmentStarts(fragment);
    UrlArgsRightIff(Escape(path, PATH_RESERVED), args, seps, ARGS_RESERVED, FragmentText(fragment));
    ReadThreeParts(httpMethod, target, version, Lines(FieldLines(fs)));
    ReadPrintedFields(fs);
    ResourceRightIff(path, PlainArgs(args, seps) + if fragment.None? then [] else [HASH] + fragment.value);
  }

  lemma FragmentStarts(fragment: Option<Bytes>)
    ensures FragmentText(fragment) == [] || FragmentText(fragment)[0] == 35
  {
  }

  /** The same without arguments. */
  lemma ReadPathRequest(httpMethod: Bytes, path: Bytes, version: Bytes, fs: seq<Field>, n: nat)
    requires OneLine(httpMethod) && SP !in httpMethod && OneLine(version)
    requires (forall f :: f in fs ==> CleanField(f)) && HasLength(fs, n)
    ensures ReadHeader(RequestHead(httpMethod, Escape(path, PATH_RESERVED), version, fs)) ==
            Complete(httpMethod, path, version, Lowered(fs), [], n)
    ensures Before(path, FindByte(path, QUESTION, 0)) == path <==> QUESTION !in path
  {
    hide ReadHeader, Lines, FieldLines, Unescape, CleanField, ToLower, Lookup, ContentLength, Cookies,
      Escape, FindAny, Lowered, ReadFields;
    var target := Escape(path, PATH_RESERVED);
    forall c | c in {SP, CR, LF, QUESTION}
      ensures c !in target
    {
      EscapeAvoids(path, PATH_RESERVED, c);
    }
    FindByteNone(target, QUESTION);
    assert FieldVals([], [AMPERSAND]) == Ok([]);
    UnescapeAll(path, PATH_RESERVED);
    ReadThreeParts(httpMethod, target, version, Lines(FieldLines(fs)));
    ReadPrintedFields(fs);
  }
}
