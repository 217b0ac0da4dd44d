/**
 Response::serialize, and what parse_header reads from its output: lines, fields, numbers and the empty line behind
 them. The printer and the parser share one grammar, in which a status line is read as a request line, so a response
 comes back with version, code and reason in the places of method, URL and version.
 */
module Responses {
  import opened Bytes
  import opened Text
  import opened Requests
  import opened FieldRoundTrips

  /** `reason` is the reason phrase in effect: the one that was set, or the one looked up for the code. */
  datatype Response = Response(version: Bytes, statusCode: int, reason: Bytes, fields: seq<Field>, body: Option<Bytes>)

  /** std::to_string of a non-negative number. */
  function Decimal(n: nat): (r: Bytes)
    ensures r != []
  {
    if n < 10 then [48 + n] else Decimal(n / 10) + [48 + n % 10]
  }

  function DecimalInt(n: int): (r: Bytes)
    ensures r != []
  {
    if n < 0 then [DASH] + Decimal(-n) else Decimal(n)
  }

  const CONTENT_LENGTH_NAME: Bytes := Ascii("Content-Length")

  function FieldLine(f: Field): (r: Bytes) {
    f.name + [COLON, SP] + f.val
  }

  function StatusLine(r: Response): (l: Bytes) {
    r.version + [SP] + DecimalInt(r.statusCode) + [SP] + r.reason
  }

  /** The fields that go out: the length of a body is added unless a field of that very name is there. */
  function SentFields(r: Response): (fs: seq<Field>) {
    if r.body.Some? && Requests.Lookup(r.fields, CONTENT_LENGTH_NAME).None?
    then r.fields + [Field(CONTENT_LENGTH_NAME, Decimal(|r.body.value|))]
    else r.fields
  }

  function Lines(ls: seq<Bytes>): (r: Bytes) {
    if ls == [] then [] else ls[0] + CRLF + Lines(ls[1..])
  }

  function FieldLines(fs: seq<Field>): (r: seq<Bytes>)
    ensures |r| == |fs|
  {
    if fs == [] then [] else [FieldLine(fs[0])] + FieldLines(fs[1..])
  }

  function Head(r: Response): (h: Bytes) {
    StatusLine(r) + CRLF + Lines(FieldLines(SentFields(r)))
  }

  function BodyOf(r: Response): (b: Bytes) {
    if r.body.Some? then r.body.value else []
  }

  /** The bytes of a response. */
  function Printed(r: Response): (s: Bytes) {
    Head(r) + CRLF + BodyOf(r)
  }

  lemma {:induction false} LinesAppend(a: seq<Bytes>, l: Bytes)
    ensures Lines(a + [l]) == Lines(a) + (l + CRLF)
  {
    if a == [] {
      assert a + [l] == [l];
      assert Lines([l]) == l + CRLF + Lines([]);
    } else {
      assert (a + [l])[1..] == a[1..] + [l];
      LinesAppend(a[1..], l);
      Associative(a[0] + CRLF, Lines(a[1..]), l + CRLF);
    }
  }

  lemma {:induction false} FieldLinesAppend(a: seq<Field>, f: Field)
    ensures FieldLines(a + [f]) == FieldLines(a) + [FieldLine(f)]
  {
    hide FieldLine;
    if a == [] {
      assert a + [f] == [f];
    } else {
      assert (a + [f])[1..] == a[1..] + [f];
      FieldLinesAppend(a[1..], f);
    }
  }

  /** serialize: everything is appended in order to one buffer. */
  method Serialize(r: Response) returns (serialized: Bytes)
    ensures serialized == Printed(r)
  {
    hide Decimal, DecimalInt, Lines, FieldLines, FieldLine;
    serialized := [];
    serialized := serialized + r.version;
    serialized := serialized + [SP];
    serialized := serialized + DecimalInt(r.statusCode);
    serialized := serialized + [SP];
    serialized := serialized + r.reason;
    assert serialized == StatusLine(r);
    serialized := serialized + CRLF;
    ghost var first := serialized;
    LinesOfNothing();
    assert first + [] == first;
    for i := 0 to |r.fields|
      invariant serialized == first + Lines(FieldLines(r.fields[..i]))
    {
      serialized := AppendField(serialized, r.fields[i], first, r.fields[..i]);
      assert r.fields[..i + 1] == r.fields[..i] + [r.fields[i]];
    }
    assert r.fields[..|r.fields|] == r.fields;
    if r.body.Some? && Requests.Lookup(r.fields, CONTENT_LENGTH_NAME).None? {
      serialized := AppendField(serialized, Field(CONTENT_LENGTH_NAME, Decimal(|r.body.value|)), first, r.fields);
    }
    serialized := serialized + CRLF;
    if r.body.Some? {
      serialized := serialized + r.body.value;
    } else {
      assert serialized + [] == serialized;
    }
  }

  lemma LinesOfNothing()
    ensures Lines(FieldLines([])) == []
  {
  }

  method AppendField(s: Bytes, f: Field, ghost first: Bytes, ghost before: seq<Field>) returns (t: Bytes)
    requires s == first + Lines(FieldLines(before))
    ensures t == first + Lines(FieldLines(before + [f]))
  {
    hide Lines, FieldLines;
    t := s;
    t := t + f.name;
    t := t + [COLON, SP];
    t := t + f.val;
    t := t + CRLF;
    assert t == s + (FieldLine(f) + CRLF);
    FieldLinesAppend(before, f);
    LinesAppend(FieldLines(before), FieldLine(f));
    Associative(first, Lines(FieldLines(before)), FieldLine(f) + CRLF);
  }

  // ---- Clean text ----

  /** No line break inside. */
  predicate OneLine(s: Bytes) {
    CR !in s && LF !in s
  }

  ghost predicate CleanLine(l: Bytes) {
    l != [] && OneLine(l)
  }

  /** A field name the parser takes as a whole, in any case of letters. */
  ghost predicate CleanName(n: Bytes) {
    n != [] && OneLine(n) && SP !in n && TAB !in n && COLON !in n && PERCENT !in n
  }

  /** A field value without blanks at its ends. */
  ghost predicate Trimmed(v: Bytes) {
    v != [] && OneLine(v) && v[0] !in BLANKS && v[|v| - 1] !in BLANKS
  }

  ghost predicate CleanValue(v: Bytes) {
    Trimmed(v) && PERCENT !in v
  }

  ghost predicate CleanField(f: Field) {
    CleanName(f.name) && CleanValue(f.val)
  }

  /** A response whose parts avoid line breaks, escapes and the separators of the parser. */
  ghost predicate CleanParts(r: Response) {
    && OneLine(r.version) && SP !in r.version
    && OneLine(r.reason)
    && (forall f :: f in r.fields ==> CleanField(f) && ToLower(f.name) != COOKIE)
    && |BodyOf(r)| < SIZE_LIMIT
  }

  /** And that leaves its length to serialize. */
  ghost predicate CleanResponse(r: Response) {
    CleanParts(r) && forall f :: f in r.fields ==> ToLower(f.name) != CONTENT_LENGTH
  }

  // ---- Lines and the empty line behind them ----

  lemma LineBreak(l: Bytes, rest: Bytes)
    requires OneLine(l)
    ensures Find(l + CRLF + rest, CRLF, 0) == |l|
  {
    var s := l + CRLF + rest;
    assert s[|l|..|l| + 2] == CRLF;
    assert At(s, CRLF, |l|);
    var p := Find(s, CRLF, 0);
    assert s[p..p + 2][0] == s[p];
    assert forall i :: 0 <= i < |l| ==> s[i] == l[i];
  }

  /** No empty line starts inside a clean line or its break, unless the next text starts with one. */
  lemma NoEmptyLine(l: Bytes, rest: Bytes, i: nat)
    requires OneLine(l) && i < |l| + 2
    requires rest != [] && (i == |l| ==> rest[0] != CR)
    ensures !At(l + CRLF + rest, CRLFCRLF, i)
  {
    var s := l + CRLF + rest;
    EmptyLineChars(s, i);
    assert forall k :: 0 <= k < |l| ==> s[k] == l[k];
    assert s[|l|] == CR && s[|l| + 1] == LF && s[|l| + 2] == rest[0];
  }

  lemma EmptyLineChars(s: Bytes, i: nat)
    ensures At(s, CRLFCRLF, i) ==> s[i] == CR && s[i + 2] == CR
  {
    if At(s, CRLFCRLF, i) {
      var t := s[i..i + 4];
      assert t[0] == s[i] && t[2] == s[i + 2];
    }
  }

  lemma EmptyLineShift(l: Bytes, rest: Bytes, i: int)
    ensures At(l + CRLF + rest, CRLFCRLF, |l| + 2 + i) && i >= 0 <==> At(rest, CRLFCRLF, i)
  {
    var a := l + CRLF;
    assert (a + rest)[|a|..] == rest;
    if i >= 0 {
      AtSuffix(a + rest, CRLFCRLF, |a|, i);
    }
  }

  lemma LinesFirst(ls: seq<Bytes>)
    ensures Lines(ls) == if ls == [] then [] else ls[0] + CRLF + Lines(ls[1..])
  {
  }

  lemma EndsHere(l: Bytes, rest: Bytes)
    ensures At(l + CRLF + (CRLF + rest), CRLFCRLF, |l|)
  {
    var s := l + CRLF + (CRLF + rest);
    assert s[|l|..|l| + 4] == CRLFCRLF;
  }

  lemma CleanIsOneLine(l: Bytes)
    requires CleanLine(l)
    ensures l != [] && OneLine(l) && l[0] != CR
  {
  }

  /** The first empty line behind clean lines is the one that ends them. */
  lemma {:induction false} FirstEmptyLine(l: Bytes, ls: seq<Bytes>, rest: Bytes)
    requires OneLine(l) && forall x :: x in ls ==> CleanLine(x)
    ensures Find(l + CRLF + Lines(ls) + CRLF + rest, CRLFCRLF, 0) == |l + CRLF + Lines(ls)| - 2
    decreases |ls|
  {
    hide Lines, CleanLine, OneLine, At;
    LinesFirst(ls);
    var more := Lines(ls) + CRLF + rest;
    var s := l + CRLF + more;
    assert l + CRLF + Lines(ls) + CRLF + rest == s;
    if ls == [] {
      assert more == CRLF + rest;
      EndsHere(l, rest);
      forall i | 0 <= i < |l|
        ensures !At(s, CRLFCRLF, i)
      {
        NoEmptyLine(l, more, i);
      }
    } else {
      CleanIsOneLine(ls[0]);
      assert more == ls[0] + CRLF + Lines(ls[1..]) + CRLF + rest;
      assert more[0] == ls[0][0];
      FirstEmptyLine(ls[0], ls[1..], rest);
      var q := Find(more, CRLFCRLF, 0);
      EmptyLineShift(l, more, q);
      forall i | 0 <= i < |l| + 2 + q
        ensures !At(s, CRLFCRLF, i)
      {
        if i < |l| + 2 {
          NoEmptyLine(l, more, i);
        } else {
          EmptyLineShift(l, more, i - |l| - 2);
        }
      }
    }
  }

  // ---- Reading back ----

  lemma LowerAvoids(n: Bytes, c: byte)
    requires c !in n && !(97 <= c <= 122)
    ensures c !in ToLower(n)
  {
    var t := ToLower(n);
    forall i | 0 <= i < |t|
      ensures t[i] != c
    {
      assert t[i] == LowerByte(n[i]);
    }
  }

  /** A printed field line is read back, the name in lower case, the value without its escapes. */
  lemma ReadEscapedLine(f: Field)
    requires CleanName(f.name) && Trimmed(f.val)
    ensures ReadLine(FieldLine(f)) ==
            match Unescape(f.val)
            case Fail(e) => Fail(e)
            case Ok(v) => Ok(Field(ToLower(f.name), v))
  {
    hide Unescape, FindAny, FindNot, FindLastNot, ToLower;
    var line, n, v := FieldLine(f), f.name, f.val;
    assert line == n + [COLON] + ([SP] + v);
    FindByteAfter(n, COLON, [SP] + v);
    assert line[..|n|] == n;
    NameIsLegal(n);
    ValueSpan(n, v);
    LowerAvoids(n, PERCENT);
    UnescapePlain(ToLower(n));
    assert line[|n| + 2..|line| - 1 + 1] == v;
  }

  lemma ReadFieldLine(f: Field)
    requires CleanField(f)
    ensures ReadLine(FieldLine(f)) == Ok(Field(ToLower(f.name), f.val))
  {
    hide Unescape, ToLower, FieldLine, ReadLine;
    ReadEscapedLine(f);
    UnescapePlain(f.val);
  }

  lemma NameIsLegal(n: Bytes)
    requires CleanName(n)
    ensures !HasAny(ToLower(n), ILLEGAL)
  {
    hide ToLower;
    LowerAvoids(n, SP);
    LowerAvoids(n, TAB);
    LowerAvoids(n, CR);
    LowerAvoids(n, LF);
  }

  lemma ValueSpan(n: Bytes, v: Bytes)
    requires Trimmed(v)
    ensures var line := n + [COLON, SP] + v;
            FindNot(line, ILLEGAL, |n| + 1) == |n| + 2 && FindLastNot(line, ILLEGAL) == |line| - 1
  {
    var line := n + [COLON, SP] + v;
    assert line[|n| + 1] == SP && line[|n| + 2] == v[0] && line[|line| - 1] == v[|v| - 1];
  }

  function Lowered(fs: seq<Field>): (r: seq<Field>)
    ensures |r| == |fs|
  {
    if fs == [] then [] else [Field(ToLower(fs[0].name), fs[0].val)] + Lowered(fs[1..])
  }

  lemma CleanFieldLine(f: Field)
    requires CleanField(f)
    ensures CleanLine(FieldLine(f))
  {
  }

  /** parse_fields on printed fields gives them all, in order. */
  lemma {:induction false} ReadPrintedFields(fs: seq<Field>)
    requires forall f :: f in fs ==> CleanField(f)
    ensures ReadFields(Lines(FieldLines(fs))) == Ok(Lowered(fs))
  {
    hide ReadLine, FieldLine, CleanField, ToLower;
    if fs == [] {
      assert Find([], CRLF, 0) == -1;
    } else {
      var line, rest := FieldLine(fs[0]), Lines(FieldLines(fs[1..]));
      var s := line + CRLF + rest;
      assert FieldLines(fs)[1..] == FieldLines(fs[1..]);
      CleanFieldLine(fs[0]);
      ReadFieldLine(fs[0]);
      LineBreak(line, rest);
      assert s[..|line|] == line && s[|line| + 2..] == rest;
      ReadPrintedFields(fs[1..]);
    }
  }

  lemma {:induction false} DecimalDigits(n: nat)
    ensures forall c :: c in Decimal(n) ==> IsDigit(c)
  {
    if n >= 10 {
      DecimalDigits(n / 10);
    }
  }

  lemma {:induction false} LeadingNumberAppend(a: Bytes, d: byte, acc: nat)
    requires (forall c :: c in a ==> IsDigit(c)) && IsDigit(d)
    ensures LeadingNumber(a + [d], acc) == 10 * LeadingNumber(a, acc) + (d - 48)
    decreases |a|
  {
    if a == [] {
      assert [] + [d] == [d];
      assert LeadingNumber([d][1..], 10 * acc + (d - 48)) == 10 * acc + (d - 48);
    } else {
      assert (a + [d])[1..] == a[1..] + [d];
      assert IsDigit(a[0]);
      LeadingNumberAppend(a[1..], d, 10 * acc + (a[0] as int - 48));
    }
  }

  /** A printed number is read back. */
  lemma {:induction false} ReadDecimal(n: nat)
    ensures LeadingNumber(Decimal(n), 0) == n
  {
    if n < 10 {
      assert Decimal(n)[1..] == [];
    } else {
      DecimalDigits(n / 10);
      ReadDecimal(n / 10);
      LeadingNumberAppend(Decimal(n / 10), 48 + n % 10, 0);
    }
  }

  /** Different numbers are printed differently. */
  lemma DecimalIntInjective(m: int, n: int)
    requires DecimalInt(m) == DecimalInt(n)
    ensures m == n
  {
    var a, b := if m < 0 then -m else m, if n < 0 then -n else n;
    DecimalDigits(a);
    DecimalDigits(b);
    ReadDecimal(a);
    ReadDecimal(b);
    assert Decimal(a)[0] in Decimal(a) && Decimal(b)[0] in Decimal(b);
    assert m < 0 ==> DecimalInt(m)[1..] == Decimal(a);
    assert n < 0 ==> DecimalInt(n)[1..] == Decimal(b);
  }

  /** A printed length is taken as it is if and only if it fits in 64 bits; a longer one is taken as 0. */
  lemma ContentLengthRightIff(n: nat)
    ensures ContentLength(Decimal(n)) == Ok(n) <==> n < 18446744073709551616
    ensures n >= 18446744073709551616 ==> ContentLength(Decimal(n)) == Ok(0)
  {
    DecimalDigits(n);
    ReadDecimal(n);
  }

  lemma DecimalClean(n: int)
    ensures forall c :: c in DecimalInt(n) ==> IsDigit(c) || c == DASH
  {
    DecimalDigits(if n < 0 then -n else n);
  }

  lemma ContentLengthField(n: nat)
    ensures CleanField(Field(CONTENT_LENGTH_NAME, Decimal(n)))
    ensures ToLower(CONTENT_LENGTH_NAME) == CONTENT_LENGTH
  {
    DecimalDigits(n);
    var v := Decimal(n);
    assert v[0] in v && v[|v| - 1] in v;
  }

  lemma {:induction false} LookupLowered(fs: seq<Field>, name: Bytes)
    requires forall f :: f in fs ==> ToLower(f.name) != name
    ensures Lookup(Lowered(fs), name) == None
  {
    if fs != [] {
      LookupLowered(fs[1..], name);
    }
  }

  lemma {:induction false} LookupAppend(a: seq<Field>, b: seq<Field>, name: Bytes)
    requires Lookup(a, name) == None
    ensures Lookup(a + b, name) == Lookup(b, name)
  {
    if a == [] {
      assert a + b == b;
    } else {
      assert (a + b)[1..] == a[1..] + b;
      LookupAppend(a[1..], b, name);
    }
  }

  lemma {:induction false} LoweredAppend(a: seq<Field>, f: Field)
    ensures Lowered(a + [f]) == Lowered(a) + [Field(ToLower(f.name), f.val)]
  {
    hide ToLower;
    if a == [] {
      assert a + [f] == [f];
    } else {
      assert (a + [f])[1..] == a[1..] + [f];
      LoweredAppend(a[1..], f);
    }
  }

  lemma {:induction false} NoCookies(fs: seq<Field>, cookies: map<Bytes, Bytes>)
    requires forall f :: f in fs ==> f.name != COOKIE
    ensures Cookies(fs, cookies) == Ok(cookies)
  {
    if fs != [] {
      NoCookies(fs[1..], cookies);
    }
  }

  lemma {:induction false} LoweredNames(fs: seq<Field>, name: Bytes)
    requires forall f :: f in fs ==> ToLower(f.name) != name
    ensures forall f :: f in Lowered(fs) ==> f.name != name
  {
    hide ToLower;
    if fs != [] {
      LoweredNames(fs[1..], name);
    }
  }

  /** The header that parse_header makes of a printed response: status line and all in the request's places. */
  function ReadBack(r: Response): (h: Header) {
    Header(r.version, DecimalInt(r.statusCode), DecimalInt(r.statusCode), r.reason, map[],
           Lowered(SentFields(r)), [], [], |BodyOf(r)|)
  }

  lemma {:induction false} LookupSome(fs: seq<Field>, name: Bytes)
    requires Lookup(fs, name).Some?
    ensures exists f :: f in fs && f.name == name
  {
    if fs[0].name != name {
      LookupSome(fs[1..], name);
    } else {
      assert fs[0] in fs;
    }
  }

  /** The fields that a response sends are clean. */
  lemma SentFieldsClean(r: Response)
    requires CleanParts(r)
    ensures forall f :: f in SentFields(r) ==> CleanField(f)
    ensures forall f :: f in Lowered(SentFields(r)) ==> f.name != COOKIE
  {
    hide CleanField, ToLower, Decimal, Lookup;
    ContentLengthField(|BodyOf(r)|);
    CookieIsNotLength();
    LoweredNames(SentFields(r), COOKIE);
  }

  /** The length that is sent when it is left to serialize. */
  lemma SentLength(r: Response)
    requires CleanResponse(r)
    ensures Lookup(Lowered(SentFields(r)), CONTENT_LENGTH) ==
            if r.body.Some? then Some(Decimal(|r.body.value|)) else None
  {
    hide CleanField, ToLower, Decimal;
    ContentLengthField(|BodyOf(r)|);
    if Lookup(r.fields, CONTENT_LENGTH_NAME).Some? {
      LookupSome(r.fields, CONTENT_LENGTH_NAME);
    }
    LookupLowered(r.fields, CONTENT_LENGTH);
    if r.body.Some? {
      var f := Field(CONTENT_LENGTH_NAME, Decimal(|r.body.value|));
      LoweredAppend(r.fields, f);
      LookupAppend(Lowered(r.fields), [Field(CONTENT_LENGTH, f.val)], CONTENT_LENGTH);
    }
  }

  lemma CookieIsNotLength()
    ensures CONTENT_LENGTH != COOKIE
  {
    assert |CONTENT_LENGTH| == 14 && |COOKIE| == 6;
  }

  /** The first two spaces of a text that starts with a line of three parts. */
  lemma LineSpaces(first: Bytes, second: Bytes, third: Bytes, rest: Bytes)
    requires SP !in first && SP !in second
    ensures var s := first + [SP] + second + [SP] + third + CRLF + rest;
            && FindByte(s, SP, 0) == |first|
            && FindByte(s, SP, |first| + 1) == |first| + 1 + |second|
            && s[..|first|] == first
            && s[|first| + 1..|first| + 1 + |second|] == second
            && s[|first| + 2 + |second|..|first| + 2 + |second| + |third|] == third
  {
    hide FindAny;
    var tail := third + CRLF + rest;
    var s, u := first + [SP] + second + [SP] + third + CRLF + rest, second + [SP] + tail;
    assert s == first + [SP] + u;
    FindByteAfter(first, SP, u);
    assert s[|first| + 1..] == u;
    FindByteAfter(second, SP, tail);
    FindByteSuffix(s, SP, |first| + 1);
  }

  /** parse_header on a first line of three parts: every part lands in its place, whatever lines follow. */
  lemma ReadThreeParts(first: Bytes, second: Bytes, third: Bytes, lines: Bytes)
    requires OneLine(first) && SP !in first && OneLine(second) && SP !in second && OneLine(third)
    ensures ReadHeader(first + [SP] + second + [SP] + third + CRLF + lines) ==
            match Unescape(second)
            case Fail(e) => Fail(e)
            case Ok(url) =>
              match UrlArgs(second)
              case Fail(e) => Fail(e)
              case Ok(args) =>
                match ReadFields(lines)
                case Fail(e) => Fail(e)
                case Ok(fields) => Finish(first, url, third, args, fields)
  {
    hide Unescape, UrlArgs, ReadFields, Finish, FindAny, Find;
    var line := first + [SP] + second + [SP] + third;
    LineSpaces(first, second, third, lines);
    LineBreak(line, lines);
    var s := line + CRLF + lines;
    assert s[|line| + 2..] == lines;
  }

  lemma CodeIsPlain(r: Response)
    ensures Unescape(DecimalInt(r.statusCode)) == Ok(DecimalInt(r.statusCode))
    ensures UrlArgs(DecimalInt(r.statusCode)) == Ok([])
    ensures FindByte(DecimalInt(r.statusCode), QUESTION, 0) == -1
  {
    hide DecimalInt, FindAny, ReadVals;
    var c := DecimalInt(r.statusCode);
    DecimalClean(r.statusCode);
    FindByteNone(c, QUESTION);
    assert UrlArgsText(c) == [];
    assert FieldVals([], [AMPERSAND]) == Ok([]);
    UnescapePlain(DecimalInt(r.statusCode));
  }

  /** parse_header on a printed response, up to the length it announces. */
  lemma ReadPrintedHead(r: Response, rest: Bytes)
    requires CleanParts(r)
    ensures Find(Printed(r) + rest, CRLFCRLF, 0) == |Head(r)| - 2
    ensures (Printed(r) + rest)[..|Head(r)|] == Head(r)
    ensures (Printed(r) + rest)[|Head(r)| + 2..] == BodyOf(r) + rest
    ensures ReadHeader(Head(r)) == Finish(r.version, DecimalInt(r.statusCode), r.reason, [], Lowered(SentFields(r)))
    ensures Cookies(Lowered(SentFields(r)), map[]) == Ok(map[])
    ensures FindByte(DecimalInt(r.statusCode), QUESTION, 0) == -1
  {
    hide DecimalInt, CleanField, Lines, FieldLines, Unescape, UrlArgs, Lookup, ReadHeader, Finish,
      Cookies, FindAny, ContentLength, Lowered, SentFields, Find, ReadFields;
    var fs, c := SentFields(r), DecimalInt(r.statusCode);
    var lines := Lines(FieldLines(fs));
    SentFieldsClean(r);
    DecimalClean(r.statusCode);
    CleanLines(fs);
    var all := Printed(r) + rest;
    assert all == StatusLine(r) + CRLF + lines + CRLF + (BodyOf(r) + rest);
    FirstEmptyLine(StatusLine(r), FieldLines(fs), BodyOf(r) + rest);
    CodeIsPlain(r);
    ReadThreeParts(r.version, c, r.reason, lines);
    ReadPrintedFields(fs);
    NoCookies(Lowered(fs), map[]);
  }

  /**
   parse_header on a printed response, cut at its first empty line: version, code, reason, every field in
   order with its name in lower case, and the length of the body.
   */
  lemma ParsePrinted(r: Response, rest: Bytes)
    requires CleanResponse(r)
    ensures Find(Printed(r) + rest, CRLFCRLF, 0) == |Head(r)| - 2
    ensures (Printed(r) + rest)[..|Head(r)|] == Head(r)
    ensures (Printed(r) + rest)[|Head(r)| + 2..] == BodyOf(r) + rest
    ensures ReadHeader(Head(r)) == Ok(ReadBack(r))
  {
    hide DecimalInt, Decimal, ReadHeader, Lookup, Cookies, FindAny, Lowered, SentFields, Find, Head, Printed, ContentLength, CleanParts;
    ReadPrintedHead(r, rest);
    SentLength(r);
    ContentLengthRightIff(|BodyOf(r)|);
    BodyFits(r);
  }

  lemma BodyFits(r: Response)
    requires CleanParts(r)
    ensures |BodyOf(r)| < SIZE_LIMIT
  {
  }

  // ---- A length of the handler's own ----

  /** A length is sent with a body unless a field of exactly that name is set; nothing else is added. */
  lemma LengthIsAdded(r: Response)
    ensures var own := exists f :: f in r.fields && f.name == [67, 111, 110, 116, 101, 110, 116, 45, 76, 101, 110, 103, 116, 104];
            Printed(r) == StatusLine(r) + [13, 10]
              + Lines(FieldLines(r.fields + if r.body.None? || own then [] else [Field([67, 111, 110, 116, 101, 110, 116, 45, 76, 101, 110, 103, 116, 104], Decimal(|r.body.value|))]))
              + [13, 10] + if r.body.None? then [] else r.body.value
  {
    hide Decimal, StatusLine, Lines, FieldLines;
    LengthName();
    LookupIff(r.fields, CONTENT_LENGTH_NAME);
    assert r.fields + [] == r.fields;
  }

  lemma LengthName()
    ensures CONTENT_LENGTH_NAME == [67, 111, 110, 116, 101, 110, 116, 45, 76, 101, 110, 103, 116, 104]
    ensures CONTENT_LENGTH == [99, 111, 110, 116, 101, 110, 116, 45, 108, 101, 110, 103, 116, 104]
  {
  }

  lemma {:induction false} LookupIff(fs: seq<Field>, name: Bytes)
    ensures Lookup(fs, name).Some? <==> exists f :: f in fs && f.name == name
  {
    if fs != [] {
      LookupIff(fs[1..], name);
      assert forall f :: f in fs <==> f == fs[0] || f in fs[1..];
    }
  }

  lemma HeadEnds(r: Response)
    ensures |Head(r)| >= 2
  {
  }

  /** The length of a message as its reader takes it. */
  function LengthOr(v: Option<Bytes>): (r: Result<nat>) {
    if v.None? then Ok(0) else ContentLength(v.value)
  }

  /**
   A response with a length of its own is read back with that length, whatever its body is: the body is cut off in the
   right place if and only if the field says so.
   */
  lemma OwnLengthRightIff(r: Response, rest: Bytes, n: nat)
    requires CleanParts(r) && LengthOr(Lookup(Lowered(r.fields), CONTENT_LENGTH)) == Ok(n)
    requires r.body.None? || exists f :: f in r.fields && f.name == [67, 111, 110, 116, 101, 110, 116, 45, 76, 101, 110, 103, 116, 104]
    ensures var s, k := Printed(r) + rest, Find(Printed(r) + rest, CRLFCRLF, 0);
            && 0 <= k && k + 4 <= |s|
            && ReadHeader(s[..k + 2]) == Ok(Header(r.version, DecimalInt(r.statusCode), DecimalInt(r.statusCode), r.reason, map[],
                                                   Lowered(r.fields), [], [], n))
            && (n <= |s| - k - 4 ==> (s[k + 4..k + 4 + n] == BodyOf(r) <==> n == |BodyOf(r)|))
  {
    hide DecimalInt, Decimal, ReadHeader, Cookies, FindAny, Lowered, Find, Lookup, Head, Printed, ContentLength, CleanParts;
    LengthName();
    LookupIff(r.fields, CONTENT_LENGTH_NAME);
    ReadPrintedHead(r, rest);
    HeadEnds(r);
    FoundWithin(Printed(r) + rest, CRLFCRLF);
    var s, k := Printed(r) + rest, Find(Printed(r) + rest, CRLFCRLF, 0);
    var tail := s[k + 4..];
    assert tail == BodyOf(r) + rest;
    if n <= |tail| {
      assert s[k + 4..k + 4 + n] == tail[..n];
    }
  }

  lemma {:induction false} CleanLines(fs: seq<Field>)
    requires forall f :: f in fs ==> CleanField(f)
    ensures forall x :: x in FieldLines(fs) ==> CleanLine(x)
  {
    hide CleanField, FieldLine, CleanLine;
    if fs != [] {
      CleanFieldLine(fs[0]);
      CleanLines(fs[1..]);
    }
  }
}
