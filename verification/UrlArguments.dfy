/** The arguments of a URL, written behind its path and read by parse_header (Request.cpp:150-170). */
module UrlArguments {
  import opened Bytes
  import opened Text
  import opened Requests
  import opened FieldRoundTrips

  // ---- Where they stand ----

  /** The arguments stand behind the first '?', up to a '#' or the end; without a '?' there are none. */
  lemma ArgsTextIs(path: Bytes, query: Bytes, tail: Bytes)
    requires 63 !in path && 35 !in query && (tail == [] || tail[0] == 35)
    ensures UrlArgsText(path) == []
    ensures UrlArgsText(path + [63] + query + tail) == query
  {
    hide FindAny;
    assert QUESTION == 63 && HASH == 35;
    FindByteNone(path, QUESTION);
    var url, rest := path + [63] + query + tail, query + tail;
    assert url == path + [QUESTION] + rest;
    FindByteAfter(path, QUESTION, rest);
    assert url[|path| + 1..] == rest;
    if tail == [] {
      assert rest == query;
      FindByteNone(query, HASH);
    } else {
      assert rest == query + [HASH] + tail[1..];
      FindByteAfter(query, HASH, tail[1..]);
      assert rest[..|query|] == query;
    }
  }

  // ---- One argument ----

  /** A key with its value, or a text without an equals sign. */
  datatype Arg = KeyVal(key: Bytes, val: Bytes) | Flag(text: Bytes)

  function ArgText(a: Arg, reserved: Bytes): (t: Bytes) {
    match a
    case KeyVal(key, val) => EntryText(Entry(key, val), reserved)
    case Flag(text) => Escape(text, Reserved(reserved))
  }

  function ArgVal(a: Arg): (v: FieldVal) {
    match a
    case KeyVal(key, val) => Pair(key, val)
    case Flag(text) => Single(text)
  }

  /** What an argument must arrive as: a flag has an empty value. */
  function ArgField(a: Arg): (f: Field) {
    match a
    case KeyVal(key, val) => Field(key, val)
    case Flag(text) => Field(text, [])
  }

  predicate Whole(a: Arg) {
    a.Flag? ==> a.text != []
  }

  predicate NoPercent(a: Arg) {
    match a
    case KeyVal(key, val) => 37 !in key && 37 !in val
    case Flag(text) => 37 !in text
  }

  lemma EscapeKeeps(x: Bytes, reserved: set<byte>)
    requires x != []
    ensures Escape(x, reserved) != []
  {
  }

  lemma ReadArg(a: Arg, reserved: Bytes, delimiters: Bytes)
    requires Whole(a) && Separators(reserved) && forall c :: c in delimiters ==> c in reserved
    ensures CleanChunk(ArgText(a, reserved), delimiters) && ReadChunk(ArgText(a, reserved)) == Ok(ArgVal(a))
  {
    hide Escape, Unescape, EntryText, ReadChunk, CleanChunk;
    match a
    case KeyVal(key, val) =>
      EntryClean(Entry(key, val), reserved, delimiters);
      ReadEntry(Entry(key, val), reserved);
    case Flag(text) =>
      FlagClean(text, reserved, delimiters);
      ReadFlag(text, reserved);
  }

  lemma FlagClean(text: Bytes, reserved: Bytes, delimiters: Bytes)
    requires text != [] && Separators(reserved) && forall c :: c in delimiters ==> c in reserved
    ensures CleanChunk(Escape(text, Reserved(reserved)), delimiters)
  {
    hide Escape;
    EscapeKeeps(text, Reserved(reserved));
    EscapeAvoids(text, Reserved(reserved), SP);
    EscapeAvoids(text, Reserved(reserved), TAB);
    forall c | c in delimiters
      ensures c !in Escape(text, Reserved(reserved))
    {
      EscapeAvoids(text, Reserved(reserved), c);
    }
  }

  lemma ReadFlag(text: Bytes, reserved: Bytes)
    ensures ReadChunk(Escape(text, Reserved(reserved))) == Ok(Single(text))
  {
    hide Escape, Unescape, FindAny;
    var r := Reserved(reserved);
    EscapeAvoids(text, r, EQUALS);
    EscapeAvoids(text, r, QUOTE);
    FindByteNone(Escape(text, r), EQUALS);
    UnquotePlain(Escape(text, r));
    UnescapeAll(text, r);
  }

  // ---- All of them ----

  function ArgTexts(args: seq<Arg>, reserved: Bytes): (r: seq<Bytes>)
    ensures |r| == |args| && forall i :: 0 <= i < |args| ==> r[i] == ArgText(args[i], reserved)
  {
    seq(|args|, i requires 0 <= i < |args| => ArgText(args[i], reserved))
  }

  function ArgVals(args: seq<Arg>): (r: seq<FieldVal>)
    ensures |r| == |args| && forall i :: 0 <= i < |args| ==> r[i] == ArgVal(args[i])
  {
    seq(|args|, i requires 0 <= i < |args| => ArgVal(args[i]))
  }

  function ArgFields(args: seq<Arg>): (r: seq<Field>)
    ensures |r| == |args| && forall i :: 0 <= i < |args| ==> r[i] == ArgField(args[i])
  {
    seq(|args|, i requires 0 <= i < |args| => ArgField(args[i]))
  }

  /** One argument, unescaped a second time. */
  lemma ArgsHead(a: Arg, vals: seq<FieldVal>, fs: seq<Field>)
    ensures ArgsOf([ArgVal(a)] + vals) == Ok([ArgField(a)] + fs) <==> NoPercent(a) && ArgsOf(vals) == Ok(fs)
  {
    hide Unescape;
    var all := [ArgVal(a)] + vals;
    assert all[1..] == vals;
    var key, val := ArgField(a).name, ArgField(a).val;
    UnescapeFixedIff(key);
    UnescapeFixedIff(val);
    UnescapePlain([]);
    if ArgsOf(all).Ok? {
      var more := ArgsOf(vals).value;
      assert ArgsOf(all).value == [Field(Unescape(key).value, Unescape(val).value)] + more;
      assert ([Field(Unescape(key).value, Unescape(val).value)] + more)[1..] == more && ([ArgField(a)] + fs)[1..] == fs;
      assert ArgsOf(all).value == [ArgField(a)] + fs ==> ArgsOf(all).value[0] == ArgField(a);
    }
  }

  /** The second unescaping of the arguments does no harm exactly when there is nothing to unescape. */
  lemma {:induction false} ArgsRightIff(args: seq<Arg>)
    ensures ArgsOf(ArgVals(args)) == Ok(ArgFields(args)) <==> forall a :: a in args ==> NoPercent(a)
  {
    hide ArgsOf, NoPercent, ArgVal, ArgField;
    if args == [] {
      assert ArgVals(args) == [] && ArgFields(args) == [];
      NoArgs();
    } else {
      var rest := args[1..];
      ArgsRightIff(rest);
      assert ArgVals(args) == [ArgVal(args[0])] + ArgVals(rest) && ArgFields(args) == [ArgField(args[0])] + ArgFields(rest);
      ArgsHead(args[0], ArgVals(rest), ArgFields(rest));
      assert forall a :: a in args <==> a == args[0] || a in rest;
    }
  }

  lemma NoArgs()
    ensures ArgsOf([]) == Ok([])
  {
  }

  lemma ArgsRead(args: seq<Arg>, reserved: Bytes, delimiters: Bytes)
    requires Separators(reserved) && forall c :: c in delimiters ==> c in reserved
    requires forall a :: a in args ==> Whole(a)
    ensures forall i :: 0 <= i < |args| ==>
              CleanChunk(ArgTexts(args, reserved)[i], delimiters) && ReadChunk(ArgTexts(args, reserved)[i]) == Ok(ArgVals(args)[i])
  {
    hide ArgText, ArgVal, ReadChunk, CleanChunk, Separators, Whole;
    forall i | 0 <= i < |args|
      ensures CleanChunk(ArgTexts(args, reserved)[i], delimiters) && ReadChunk(ArgTexts(args, reserved)[i]) == Ok(ArgVals(args)[i])
    {
      assert args[i] in args;
      ReadArg(args[i], reserved, delimiters);
    }
  }

  lemma ArgAvoids(a: Arg, reserved: Bytes, c: byte)
    requires c in Reserved(reserved) && c != PERCENT && c != EQUALS && !IsHexDigit(c)
    ensures c !in ArgText(a, reserved)
  {
    match a
    case KeyVal(key, val) => EntryAvoids(Entry(key, val), reserved, c);
    case Flag(text) => EscapeAvoids(text, Reserved(reserved), c);
  }

  /** Neither do all of them together. */
  lemma ArgsAvoid(args: seq<Arg>, seps: seq<Sep>, reserved: Bytes, c: byte)
    requires |args| == |seps| + 1 && c !in BLANKS
    requires c in Reserved(reserved) && c != PERCENT && c != EQUALS && !IsHexDigit(c)
    requires forall s :: s in seps ==> s.delim != c && forall b :: b in s.blanks ==> b in BLANKS
    ensures c !in ListText(ArgTexts(args, reserved), seps, [])
  {
    hide ArgText, ListText;
    forall x | x in ArgTexts(args, reserved)
      ensures c !in x
    {
      var i :| 0 <= i < |args| && ArgTexts(args, reserved)[i] == x;
      ArgAvoids(args[i], reserved, c);
    }
    ListAvoids(ArgTexts(args, reserved), seps, c);
  }

  /**
   Arguments written behind the '?' of a URL, '&' between them, with every reserved byte escaped once, and any fragment
   behind them: they arrive as they were, flags with an empty value, if and only if none of them holds a percent sign.
   */
  lemma UrlArgsRightIff(path: Bytes, args: seq<Arg>, seps: seq<Sep>, reserved: Bytes, tail: Bytes)
    requires 63 !in path && |args| == |seps| + 1 && (forall a :: a in args ==> Whole(a))
    requires Separators(reserved) && 38 in reserved && 35 in reserved
    requires forall s :: s in seps ==> ValidSep(s, [38])
    requires tail == [] || tail[0] == 35
    ensures UrlArgs(path + [63] + ListText(ArgTexts(args, reserved), seps, []) + tail) == ArgsOf(ArgVals(args))
    ensures ArgsOf(ArgVals(args)) == Ok(ArgFields(args)) <==> forall a :: a in args ==> NoPercent(a)
  {
    hide CleanChunk, ReadChunk, FieldVals, ListText, ArgVals, ArgTexts, ArgFields, ArgsOf, UrlArgsText, NoPercent, Whole;
    var chunks := ArgTexts(args, reserved);
    var query := ListText(chunks, seps, []);
    ArgsRead(args, reserved, [AMPERSAND]);
    forall s | s in seps
      ensures s.delim != HASH && forall b :: b in s.blanks ==> b in BLANKS
    {
      assert ValidSep(s, [AMPERSAND]);
    }
    ArgsAvoid(args, seps, reserved, HASH);
    ArgsTextIs(path, query, tail);
    assert [] + query == query;
    ReadList([], chunks, ArgVals(args), seps, [AMPERSAND], []);
    ArgsRightIff(args);
  }
}
