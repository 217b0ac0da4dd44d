/** readMultipartBody, and bodies put together as section 5.1.1 of RFC 2046 describes. */
module Multipart {
  import opened Bytes
  import opened Text
  import opened Requests
  import opened Responses
  import opened Parameters

  const DASHES: Bytes := [45, 45]
  const BREAK_DASHES: Bytes := [13, 10, 45, 45]
  const CONTENT_DISPOSITION: Bytes := Ascii("content-disposition")
  const NAME: Bytes := Ascii("name")

  /** The value of the first pair with key "name". */
  function NameOf(vals: seq<FieldVal>): (r: Option<Bytes>) {
    if vals == [] then None
    else if vals[0].Pair? && vals[0].key == NAME then Some(vals[0].val)
    else NameOf(vals[1..])
  }

  /** The parameters of the disposition as fields of the part. */
  function ValFields(vals: seq<FieldVal>): (r: seq<Field>) {
    if vals == [] then []
    else [if vals[0].Pair? then Field(vals[0].key, vals[0].val) else Field(vals[0].text, [])] + ValFields(vals[1..])
  }

  /** One part: its header up to the first empty line, its name, its content. */
  function ReadPart(content: Bytes): (r: Result<NamedArg>) {
    var h := Find(content, CRLFCRLF, 0);
    if h == -1 then Fail(BadRequest)
    else
      match ReadFields(content[..h + 2])
      case Fail(e) => Fail(e)
      case Ok(fields) => Describe(fields, content[h + 4..])
  }

  function Describe(fields: seq<Field>, content: Bytes): (r: Result<NamedArg>) {
    match Lookup(fields, CONTENT_DISPOSITION)
    case None => Fail(BadRequest)
    case Some(d) =>
      match FieldVals(d, SEMI_COMMA)
      case Fail(e) => Fail(e)
      case Ok(vals) =>
        match NameOf(vals)
        case None => Fail(BadRequest)
        case Some(name) => Ok(NamedArg(name, BodyArg(ValFields(vals) + fields, content)))
  }

  function JoinedArgs(r: Result<seq<NamedArg>>, before: seq<NamedArg>): Result<seq<NamedArg>> {
    match r
    case Fail(e) => Fail(e)
    case Ok(args) => Ok(before + args)
  }

  predicate StartsWith(s: Bytes, t: Bytes) {
    |s| >= |t| && s[..|t|] == t
  }

  /** The parts behind a boundary line; `s` starts right behind the boundary. */
  function ReadParts(s: Bytes, boundary: Bytes): (r: Result<seq<NamedArg>>)
    decreases |s|
  {
    if StartsWith(s, DASHES) then Ok([])
    else if !StartsWith(s, CRLF) then Fail(BadRequest)
    else
      var t := s[2..];
      var e := Find(t, boundary, 0);
      if e < 4 then Ok([])
      else if t[e - 4..e] != BREAK_DASHES then Fail(BadRequest)
      else
        TakePart(ReadPart(t[..e - 4]), ReadParts(t[e + |boundary|..], boundary))
  }

  function TakePart(part: Result<NamedArg>, rest: Result<seq<NamedArg>>): (r: Result<seq<NamedArg>>) {
    match part
    case Fail(e) => Fail(e)
    case Ok(arg) => JoinedArgs(rest, [arg])
  }

  function ReadBody(body: Bytes, boundary: Bytes): (r: Result<seq<NamedArg>>) {
    var p := Find(body, boundary, 0);
    if p == -1 then Ok([]) else ReadParts(body[p + |boundary|..], boundary)
  }

  // ---- The loop ----

  lemma JoinedArgsTwice(r: Result<seq<NamedArg>>, a: seq<NamedArg>, b: seq<NamedArg>)
    ensures JoinedArgs(JoinedArgs(r, b), a) == JoinedArgs(r, a + b)
    ensures JoinedArgs(r, []) == r
    ensures JoinedArgs(Ok([]), a) == Ok(a)
  {
    assert a + [] == a;
    if r.Ok? {
      Associative(a, b, r.value);
      assert [] + r.value == r.value;
    }
  }

  /** The body of the loop behind the boundary search. */
  method PartOf(content: Bytes) returns (r: Result<NamedArg>)
    requires |content| < 0xffff_ffff
    ensures r == ReadPart(content)
  {
    hide ReadFields, FieldVals, Lookup, NameOf, ValFields, Find;
    var headerEnd := Find(content, CRLFCRLF, 0);
    if headerEnd == -1 {
      return Fail(BadRequest);
    }
    var fields := ParseFields(content[..headerEnd + 2]);
    if fields.Fail? {
      return Fail(fields.error);
    }
    var cd := Lookup(fields.value, CONTENT_DISPOSITION);
    if cd.None? {
      return Fail(BadRequest);
    }
    FieldsShort(content[..headerEnd + 2]);
    LookupIn(fields.value, CONTENT_DISPOSITION);
    var cdSplit := ExtractFieldVals(cd.value, SEMI_COMMA);
    if cdSplit.Fail? {
      return Fail(cdSplit.error);
    }
    var name := NameOf(cdSplit.value);
    if name.None? {
      return Fail(BadRequest);
    }
    var args := CollectFields(cdSplit.value);
    r := Ok(NamedArg(name.value, BodyArg(args + fields.value, content[headerEnd + 4..])));
  }

  lemma {:induction false} LookupIn(fields: seq<Field>, name: Bytes)
    ensures Lookup(fields, name).Some? ==> exists f :: f in fields && f.val == Lookup(fields, name).value
  {
    if fields != [] {
      assert fields[0] in fields;
      LookupIn(fields[1..], name);
    }
  }

  method CollectFields(vals: seq<FieldVal>) returns (r: seq<Field>)
    ensures r == ValFields(vals)
  {
    r := [];
    assert vals[0..] == vals;
    for i := 0 to |vals|
      invariant ValFields(vals) == r + ValFields(vals[i..])
    {
      assert vals[i..][1..] == vals[i + 1..];
      ghost var before := r;
      var f := match vals[i] case Single(s) => Field(s, []) case Pair(k, v) => Field(k, v);
      Associative(r, [f], ValFields(vals[i + 1..]));
      r := r + [f];
    }
    assert r + [] == r;
  }

  method ReadMultipartBody(body: Bytes, boundary: Bytes) returns (r: Result<seq<NamedArg>>)
    requires |body| < 0xffff_ffff
    ensures r == ReadBody(body, boundary)
  {
    hide ReadPart, ReadParts, Find, JoinedArgs, StartsWith, TakePart;
    var bodyArgs: seq<NamedArg> := [];
    var start := Find(body, boundary, 0);
    if start == -1 {
      return Ok([]);
    }
    JoinedArgsTwice(ReadParts(body[start + |boundary|..], boundary), [], []);
    while true
      invariant 0 <= start && start + |boundary| <= |body|
      invariant ReadBody(body, boundary) == JoinedArgs(ReadParts(body[start + |boundary|..], boundary), bodyArgs)
      decreases |body| - start
    {
      start := start + |boundary|;
      PartsEnd(body[start..], boundary, bodyArgs);
      if StartsWith(body[start..], DASHES) {
        return Ok(bodyArgs);
      }
      if !StartsWith(body[start..], CRLF) {
        return Fail(BadRequest);
      }
      StartsLong(body[start..]);
      start := start + 2;
      var bodyEnd := Find(body, boundary, start);
      if bodyEnd == -1 || bodyEnd < start + 4 {
        PartsStop(body, start - 2, boundary, bodyArgs);
        return Ok(bodyArgs);
      }
      PartsNext(body, start - 2, boundary, bodyArgs, bodyEnd);
      if body[bodyEnd - 4..bodyEnd] != BREAK_DASHES {
        return Fail(BadRequest);
      }
      var part := PartOf(body[start..bodyEnd - 4]);
      JoinedTakePart(part, ReadParts(body[bodyEnd + |boundary|..], boundary), bodyArgs);
      if part.Fail? {
        return Fail(part.error);
      }
      bodyArgs := bodyArgs + [part.value];
      start := bodyEnd;
    }
  }

  /** Behind a boundary without a line break there is nothing more to read. */
  lemma PartsEnd(s: Bytes, boundary: Bytes, before: seq<NamedArg>)
    ensures StartsWith(s, DASHES) ==> JoinedArgs(ReadParts(s, boundary), before) == Ok(before)
    ensures !StartsWith(s, DASHES) && !StartsWith(s, CRLF) ==>
              JoinedArgs(ReadParts(s, boundary), before) == Fail(BadRequest)
  {
    hide ReadParts;
    PartsUnfold(s, boundary, before);
  }

  /** A boundary line behind which no boundary follows in time ends the list. */
  lemma PartsStop(body: Bytes, start: nat, boundary: Bytes, before: seq<NamedArg>)
    requires start + 2 <= |body| && !StartsWith(body[start..], DASHES) && StartsWith(body[start..], CRLF)
    requires var end := Find(body, boundary, start + 2); end == -1 || end < start + 6
    ensures JoinedArgs(ReadParts(body[start..], boundary), before) == Ok(before)
  {
    hide ReadPart, Find, ReadParts, JoinedArgs, TakePart, At, StartsWith;
    PartsUnfold(body[start..], boundary, before);
    assert body[start..][2..] == body[start + 2..];
    FindSuffix(body, boundary, start + 2);
  }

  /** One turn of the loop that finds the next boundary, in positions of the whole body. */
  lemma PartsNext(body: Bytes, start: nat, boundary: Bytes, before: seq<NamedArg>, end: nat)
    requires start + 2 <= |body| && !StartsWith(body[start..], DASHES) && StartsWith(body[start..], CRLF)
    requires end == Find(body, boundary, start + 2) && end >= start + 6
    ensures end + |boundary| <= |body|
    ensures body[end - 4..end] != BREAK_DASHES ==> JoinedArgs(ReadParts(body[start..], boundary), before) == Fail(BadRequest)
    ensures body[end - 4..end] == BREAK_DASHES ==>
              JoinedArgs(ReadParts(body[start..], boundary), before) ==
              JoinedArgs(TakePart(ReadPart(body[start + 2..end - 4]), ReadParts(body[end + |boundary|..], boundary)), before)
  {
    hide ReadPart, Find, ReadParts, JoinedArgs, TakePart, At, StartsWith;
    var s, k := body[start..], start + 2;
    PartsUnfold(s, boundary, before);
    var t := s[2..];
    assert t == body[k..];
    FindSuffix(body, boundary, k);
    var e := end - k;
    assert e == Find(t, boundary, 0);
    FoundWithin(t, boundary);
    SliceOfSuffix(body, k, e - 4, e);
    SliceOfSuffix(body, k, 0, e - 4);
    SliceOfSuffix(body, k, e, e + |boundary|);
  }

  lemma StartsLong(s: Bytes)
    requires StartsWith(s, CRLF)
    ensures |s| >= 2
  {
  }

  lemma JoinedTakePart(part: Result<NamedArg>, rest: Result<seq<NamedArg>>, before: seq<NamedArg>)
    ensures JoinedArgs(TakePart(part, rest), before) ==
            match part
            case Fail(e) => Fail(e)
            case Ok(arg) => JoinedArgs(rest, before + [arg])
  {
    if part.Ok? {
      JoinedArgsTwice(rest, before, [part.value]);
    }
  }

  lemma PartsUnfold(s: Bytes, boundary: Bytes, before: seq<NamedArg>)
    ensures JoinedArgs(Ok([]), before) == Ok(before) && JoinedArgs(Fail(BadRequest), before) == Fail(BadRequest)
    ensures StartsWith(s, DASHES) ==> ReadParts(s, boundary) == Ok([])
    ensures !StartsWith(s, DASHES) && !StartsWith(s, CRLF) ==> ReadParts(s, boundary) == Fail(BadRequest)
    ensures !StartsWith(s, DASHES) && StartsWith(s, CRLF) ==>
              var t := s[2..];
              var e := Find(t, boundary, 0);
              ReadParts(s, boundary) ==
              if e < 4 then Ok([])
              else if t[e - 4..e] != BREAK_DASHES then Fail(BadRequest)
              else TakePart(ReadPart(t[..e - 4]), ReadParts(t[e + |boundary|..], boundary))
  {
    hide ReadPart, Find, TakePart;
    assert before + [] == before;
  }

  // ---- Round trip ----

  /** A part as its sender has it: header lines and content. */
  datatype Part = Part(lines: seq<Bytes>, content: Bytes)

  function PartText(p: Part): (r: Bytes) {
    Lines(p.lines) + CRLF + p.content
  }

  /** What follows a boundary: the remaining parts, each closed by the next boundary, and the epilogue. */
  function Tail(parts: seq<Part>, boundary: Bytes, epilogue: Bytes): (r: Bytes) {
    if parts == [] then DASHES + epilogue
    else CRLF + (PartText(parts[0]) + (BREAK_DASHES + (boundary + Tail(parts[1..], boundary, epilogue))))
  }

  function BodyText(preamble: Bytes, parts: seq<Part>, boundary: Bytes, epilogue: Bytes): (r: Bytes) {
    preamble + (DASHES + (boundary + Tail(parts, boundary, epilogue)))
  }

  /** Behind every delimiter the boundary first occurs where the next delimiter puts it. */
  ghost predicate Separated(parts: seq<Part>, boundary: Bytes, epilogue: Bytes) {
    parts != [] ==>
      && Find(PartText(parts[0]) + (BREAK_DASHES + (boundary + Tail(parts[1..], boundary, epilogue))), boundary, 0)
         == |PartText(parts[0])| + 4
      && Separated(parts[1..], boundary, epilogue)
  }

  /** The header lines of a part are well formed and name it. */
  ghost predicate Described(p: Part, fields: seq<Field>, vals: seq<FieldVal>, name: Bytes) {
    && p.lines != [] && (forall l :: l in p.lines ==> CleanLine(l))
    && ReadFields(Lines(p.lines)) == Ok(fields)
    && Lookup(fields, CONTENT_DISPOSITION).Some?
    && FieldVals(Lookup(fields, CONTENT_DISPOSITION).value, SEMI_COMMA) == Ok(vals)
    && NameOf(vals) == Some(name)
  }

  /** What a part must become. */
  datatype Meaning = Meaning(fields: seq<Field>, vals: seq<FieldVal>, name: Bytes)

  function Arg(p: Part, m: Meaning): NamedArg {
    NamedArg(m.name, BodyArg(ValFields(m.vals) + m.fields, p.content))
  }

  function Args(parts: seq<Part>, ms: seq<Meaning>): (r: seq<NamedArg>)
    requires |parts| == |ms|
    ensures |r| == |parts|
  {
    seq(|parts|, i requires 0 <= i < |parts| => Arg(parts[i], ms[i]))
  }

  /** The first empty line of a part is the one behind its header, whatever its content holds. */
  lemma ReadPartText(p: Part, m: Meaning)
    requires Described(p, m.fields, m.vals, m.name)
    ensures ReadPart(PartText(p)) == Ok(Arg(p, m))
  {
    hide Lines, ReadFields, FieldVals, Lookup, NameOf, ValFields, Find, CleanLine;
    var head := Lines(p.lines);
    LinesFirst(p.lines);
    CleanIsOneLine(p.lines[0]);
    FirstEmptyLine(p.lines[0], p.lines[1..], p.content);
    var s := PartText(p);
    assert s[..|head|] == head;
    assert s[|head| + 2..] == p.content;
  }

  /** The parts behind a boundary are read back, one by one. */
  lemma {:induction false} ReadTail(parts: seq<Part>, ms: seq<Meaning>, boundary: Bytes, epilogue: Bytes)
    requires |parts| == |ms| && Separated(parts, boundary, epilogue)
    requires forall i :: 0 <= i < |parts| ==> Described(parts[i], ms[i].fields, ms[i].vals, ms[i].name)
    ensures ReadParts(Tail(parts, boundary, epilogue), boundary) == Ok(Args(parts, ms))
    decreases |parts|
  {
    hide PartText, ReadPart, Described, Find, Arg, ReadParts;
    var s := Tail(parts, boundary, epilogue);
    PartsUnfold(s, boundary, []);
    if parts == [] {
      assert s[..2] == DASHES;
    } else {
      var p, rest := PartText(parts[0]), Tail(parts[1..], boundary, epilogue);
      TailSlices(p, boundary, rest);
      ReadPartText(parts[0], ms[0]);
      ReadTail(parts[1..], ms[1..], boundary, epilogue);
      assert [Arg(parts[0], ms[0])] + Args(parts[1..], ms[1..]) == Args(parts, ms);
    }
  }

  lemma TailSlices(p: Bytes, boundary: Bytes, rest: Bytes)
    ensures var t := p + (BREAK_DASHES + (boundary + rest));
            var s, e := CRLF + t, |p| + 4;
            && s[..2] == CRLF && s[2..] == t && CRLF != DASHES
            && t[e - 4..e] == BREAK_DASHES && t[..e - 4] == p && t[e + |boundary|..] == rest
  {
  }

  /**
   A multipart body is read back as its parts: every name, every field, every byte of content, in order,
   even when a content holds empty lines, as long as the boundary stands only where a delimiter puts it.
   */
  lemma BodyRoundTrip(preamble: Bytes, parts: seq<Part>, ms: seq<Meaning>, boundary: Bytes, epilogue: Bytes)
    requires |parts| == |ms| && Separated(parts, boundary, epilogue)
    requires forall i :: 0 <= i < |parts| ==> Described(parts[i], ms[i].fields, ms[i].vals, ms[i].name)
    requires Find(BodyText(preamble, parts, boundary, epilogue), boundary, 0) == |preamble| + 2
    ensures ReadBody(BodyText(preamble, parts, boundary, epilogue), boundary) == Ok(Args(parts, ms))
  {
    hide Tail, Find, ReadParts, Described, Separated;
    var tail := Tail(parts, boundary, epilogue);
    var b := BodyText(preamble, parts, boundary, epilogue);
    assert b[|preamble| + 2 + |boundary|..] == tail;
    ReadTail(parts, ms, boundary, epilogue);
  }

  // ---- Separated, from the boundary and each part alone ----

  /** Behind the part, its break and the dashes is where the boundary first occurs. */
  predicate StandsAlone(p: Bytes, boundary: Bytes) {
    Find(p + BREAK_DASHES + boundary, boundary, 0) == |p| + 4
  }

  lemma FirstInPart(p: Bytes, boundary: Bytes, rest: Bytes)
    ensures Find(p + (BREAK_DASHES + (boundary + rest)), boundary, 0) == |p| + 4 <==> StandsAlone(p, boundary)
  {
    hide Find;
    var x := p + BREAK_DASHES + boundary;
    var s := p + (BREAK_DASHES + (boundary + rest));
    assert s == x + rest;
    if Find(s, boundary, 0) == |p| + 4 {
      FindInPrefix(s, boundary, |x|);
      assert s[..|x|] == x;
    }
    if StandsAlone(p, boundary) {
      FindStays(x, boundary, rest);
    }
  }

  /** The parts are separated if and only if each of them, by itself, lets the boundary stand alone. */
  lemma {:induction false} SeparatedIff(parts: seq<Part>, boundary: Bytes, epilogue: Bytes)
    ensures Separated(parts, boundary, epilogue) <==> forall p :: p in parts ==> StandsAlone(PartText(p), boundary)
    decreases |parts|
  {
    hide StandsAlone, PartText, Tail, Find;
    if parts != [] {
      FirstInPart(PartText(parts[0]), boundary, Tail(parts[1..], boundary, epilogue));
      SeparatedIff(parts[1..], boundary, epilogue);
      assert forall p :: p in parts <==> p == parts[0] || p in parts[1..];
    }
  }

  /** `pat` occurs nowhere in `s`. */
  ghost predicate Absent(s: Bytes, pat: Bytes) {
    forall i :: !At(s, pat, i)
  }

  /** A boundary of one line that is not found too early behind its own dashes. */
  ghost predicate PlainBoundary(boundary: Bytes) {
    boundary != [] && OneLine(boundary) && Find(DASHES + boundary, boundary, 0) == 2
  }

  /** A boundary that does not begin with a dash is not found too early. */
  lemma BoundaryWithoutDash(boundary: Bytes)
    requires boundary != [] && OneLine(boundary) && boundary[0] != DASH
    ensures PlainBoundary(boundary)
  {
    var s := DASHES + boundary;
    assert s[2..2 + |boundary|] == boundary;
    assert At(s, boundary, 2);
    forall i | 0 <= i < 2
      ensures At(s, boundary, i) ==> s[i] == boundary[0]
    {
      if i + |boundary| <= |s| {
        assert s[i..i + |boundary|][0] == s[i];
      }
    }
  }

  /** A text in which such a boundary does not occur lets it stand alone: it holds no line break, so it cannot overlap one. */
  lemma AbsentStandsAlone(p: Bytes, boundary: Bytes)
    requires PlainBoundary(boundary) && Absent(p, boundary)
    ensures StandsAlone(p, boundary)
  {
    hide Find;
    var s, n := p + BREAK_DASHES + boundary, |p|;
    assert s[n + 4..n + 4 + |boundary|] == boundary;
    assert At(s, boundary, n + 4);
    forall i | 0 <= i < n + 4
      ensures At(s, boundary, i) ==> At(p, boundary, i) || At(DASHES + boundary, boundary, i - n - 2) || !OneLine(boundary)
    {
      Where(p, boundary, i);
    }
  }

  lemma OverBreak(s: Bytes, pat: Bytes, i: nat, k: nat)
    requires At(s, pat, i) && i <= k < i + |pat| && s[k] in CRLF
    ensures !OneLine(pat)
  {
    assert s[i..i + |pat|][k - i] == s[k];
    assert pat[k - i] in pat;
  }

  /** Where a pattern can stand that is found behind a text and in front of itself. */
  lemma Where(p: Bytes, pat: Bytes, i: nat)
    requires pat != [] && i < |p| + 4
    ensures At(p + BREAK_DASHES + pat, pat, i) ==>
              At(p, pat, i) || (i >= |p| + 2 && At(DASHES + pat, pat, i - |p| - 2)) || !OneLine(pat)
  {
    hide At, OneLine;
    var s, n := p + BREAK_DASHES + pat, |p|;
    if At(s, pat, i) {
      if i >= n + 2 {
        assert s[n + 2..] == DASHES + pat;
        AtSuffix(s, pat, n + 2, i - n - 2);
      } else if i + |pat| > n {
        var k := if i <= n then n else n + 1;
        OverBreak(s, pat, i, k);
      } else {
        Associative(p, BREAK_DASHES, pat);
        AtPrefix(p, BREAK_DASHES + pat, pat, i);
      }
    }
  }

  // ---- What a part is named and what it keeps ----

  /** The names that a part is searched for, byte by byte. */
  lemma PartNamesAre()
    ensures NAME == [110, 97, 109, 101]
    ensures CONTENT_DISPOSITION == [99, 111, 110, 116, 101, 110, 116, 45, 100, 105, 115, 112, 111, 115, 105, 116, 105, 111, 110]
  {
  }

  /** A part is named by its first pair "name". */
  lemma {:induction false} NameIs(vals: seq<FieldVal>, i: nat)
    requires i < |vals| && vals[i].Pair? && vals[i].key == [110, 97, 109, 101]
    requires forall j :: 0 <= j < i && vals[j].Pair? ==> vals[j].key != [110, 97, 109, 101]
    ensures NameOf(vals) == Some(vals[i].val)
  {
    PartNamesAre();
    if i > 0 {
      NameIs(vals[1..], i - 1);
    }
  }

  /** Every value becomes a field: a pair with its key, a single text with nothing behind it. */
  lemma {:induction false} ValFieldsAre(vals: seq<FieldVal>)
    ensures |ValFields(vals)| == |vals|
    ensures forall i :: 0 <= i < |vals| ==>
              ValFields(vals)[i] == match vals[i] case Single(s) => Field(s, []) case Pair(k, v) => Field(k, v)
  {
    if vals != [] {
      ValFieldsAre(vals[1..]);
    }
  }

  // ---- What a part and a body are cut at, and what is refused ----

  /** A part is cut at its first empty line. */
  lemma PartIs(content: Bytes, k: nat)
    requires At(content, [13, 10, 13, 10], k) && forall i :: 0 <= i < k ==> !At(content, [13, 10, 13, 10], i)
    ensures k + 4 <= |content|
    ensures ReadPart(content) == match ReadFields(content[..k + 2])
                                 case Fail(e) => Fail(e)
                                 case Ok(fields) => Describe(fields, content[k + 4..])
  {
    hide ReadFields, Describe, Find;
    FirstFind(content, CRLFCRLF, k);
  }

  /** A part without an empty line is refused with 400. */
  lemma PartIsRefused(content: Bytes)
    requires Absent(content, [13, 10, 13, 10])
    ensures ReadPart(content) == Fail(BadRequest)
  {
    hide Find;
    NeverFound(content, CRLFCRLF);
  }

  /** A part without a disposition, or whose disposition has no pair "name", is refused with 400. */
  lemma DescribeIsRefused(fields: seq<Field>, content: Bytes, d: Option<Bytes>, vals: seq<FieldVal>)
    requires d == Lookup(fields, [99, 111, 110, 116, 101, 110, 116, 45, 100, 105, 115, 112, 111, 115, 105, 116, 105, 111, 110])
    requires d.Some? ==> FieldVals(d.value, [59, 44]) == Ok(vals) && forall v :: v in vals && v.Pair? ==> v.key != [110, 97, 109, 101]
    ensures Describe(fields, content) == Fail(BadRequest)
  {
    hide FieldVals, Lookup;
    PartNamesAre();
    if d.Some? {
      NoName(vals);
    }
  }

  lemma {:induction false} NoName(vals: seq<FieldVal>)
    requires forall v :: v in vals && v.Pair? ==> v.key != NAME
    ensures NameOf(vals) == None
  {
    if vals != [] {
      assert vals[0] in vals;
      NoName(vals[1..]);
    }
  }

  /** A body is read from behind the first place its boundary stands at; where there is none it has no parts. */
  lemma BodyIs(body: Bytes, boundary: Bytes, p: nat)
    ensures Absent(body, boundary) ==> ReadBody(body, boundary) == Ok([])
    ensures At(body, boundary, p) && (forall i :: 0 <= i < p ==> !At(body, boundary, i)) ==>
              ReadBody(body, boundary) == ReadParts(body[p + |boundary|..], boundary)
  {
    hide ReadParts, Find, At;
    if Absent(body, boundary) {
      NeverFound(body, boundary);
    }
    if At(body, boundary, p) && forall i :: 0 <= i < p ==> !At(body, boundary, i) {
      FirstFind(body, boundary, p);
    }
  }

  // ---- Forms ----

  const DISPOSITION_NAME: Bytes := Ascii("Content-Disposition")

  /**
   A form part as its sender has it: its disposition, the place of the parameter that names it, further header fields,
   and content.
   */
  datatype FormPart = FormPart(disposition: Value, at: nat, extra: seq<Field>, content: Bytes)

  /** The disposition is plain, and its first parameter "name" is the one at that place. */
  ghost predicate ValidForm(p: FormPart) {
    && PlainValue(p.disposition) && p.at < |p.disposition.params|
    && p.disposition.params[p.at].key == [110, 97, 109, 101]
    && (forall j :: 0 <= j < p.at ==> p.disposition.params[j].key != [110, 97, 109, 101])
    && forall f :: f in p.extra ==> CleanField(f)
  }

  function AllFields(p: FormPart): (fs: seq<Field>) {
    [Field(DISPOSITION_NAME, ValueText(p.disposition))] + p.extra
  }

  function FormParts(ps: seq<FormPart>): (r: seq<Part>)
    ensures |r| == |ps|
    ensures forall i :: 0 <= i < |ps| ==> r[i] == Part(FieldLines(AllFields(ps[i])), ps[i].content)
  {
    seq(|ps|, i requires 0 <= i < |ps| => Part(FieldLines(AllFields(ps[i])), ps[i].content))
  }

  /** The fields of a disposition: its word, and every parameter with its value. */
  function ParamFields(v: Value): (r: seq<Field>)
    ensures |r| == |v.params| + 1 && r[0] == Field(v.word, [])
    ensures forall i :: 0 <= i < |v.params| ==> r[i + 1] == Field(v.params[i].key, v.params[i].val)
  {
    [Field(v.word, [])] + seq(|v.params|, i requires 0 <= i < |v.params| => Field(v.params[i].key, v.params[i].val))
  }

  /** What a form part must arrive as: its name, all of its disposition and its header fields, and its content. */
  function FormArg(p: FormPart): (r: NamedArg)
    requires ValidForm(p)
  {
    NamedArg(p.disposition.params[p.at].val, BodyArg(ParamFields(p.disposition) + Lowered(AllFields(p)), p.content))
  }

  function FormArgs(ps: seq<FormPart>): (r: seq<NamedArg>)
    requires forall p :: p in ps ==> ValidForm(p)
    ensures |r| == |ps|
    ensures forall i :: 0 <= i < |ps| ==> ps[i] in ps && r[i] == FormArg(ps[i])
  {
    seq(|ps|, i requires 0 <= i < |ps| && ps[i] in ps => FormArg(ps[i]))
  }

  function FormMeaning(p: FormPart): (m: Meaning)
    requires ValidForm(p)
  {
    Meaning(Lowered(AllFields(p)), Parts(p.disposition), p.disposition.params[p.at].val)
  }

  lemma MeaningFields(v: Value)
    ensures ValFields(Parts(v)) == ParamFields(v)
  {
    hide ParamFields, Parts, ValFields;
    var vals, fs := Parts(v), ParamFields(v);
    ValFieldsAre(vals);
    forall i | 0 <= i <= |v.params|
      ensures ValFields(vals)[i] == fs[i]
    {
      if i > 0 {
        assert vals[i - 1 + 1] == Pair(v.params[i - 1].key, v.params[i - 1].val);
        assert fs[i - 1 + 1] == Field(v.params[i - 1].key, v.params[i - 1].val);
      }
    }
  }

  lemma DispositionField(v: Bytes)
    requires CleanValue(v)
    ensures CleanField(Field(DISPOSITION_NAME, v)) && ToLower(DISPOSITION_NAME) == CONTENT_DISPOSITION
  {
  }

  lemma FormName(p: FormPart)
    requires ValidForm(p)
    ensures NameOf(Parts(p.disposition)) == Some(p.disposition.params[p.at].val)
  {
    hide Parts, PlainValue;
    var vals := Parts(p.disposition);
    assert vals[p.at + 1] == Pair(p.disposition.params[p.at].key, p.disposition.params[p.at].val);
    forall j | 0 <= j < p.at + 1 && vals[j].Pair?
      ensures vals[j].key != [110, 97, 109, 101]
    {
      if j > 0 {
        assert vals[j - 1 + 1] == Pair(p.disposition.params[j - 1].key, p.disposition.params[j - 1].val);
      }
    }
    NameIs(vals, p.at + 1);
  }

  /**
   Every form part with a plain disposition, whatever further parameters it has, in front of its name or behind it, and
   any further clean header fields, is described.
   */
  lemma FormPartDescribed(p: FormPart)
    requires ValidForm(p)
    ensures var m := FormMeaning(p); Described(Part(FieldLines(AllFields(p)), p.content), m.fields, m.vals, m.name)
  {
    hide CleanField, ToLower, ValueText, FieldVals, ReadFields, CleanLine, PlainValue, NameOf;
    var all := AllFields(p);
    ReadValue(p.disposition);
    ValueIsClean(p.disposition);
    DispositionField(ValueText(p.disposition));
    assert forall f :: f in all ==> CleanField(f);
    ReadPrintedFields(all);
    CleanLines(all);
    assert all[0] == Field(DISPOSITION_NAME, ValueText(p.disposition));
    FormName(p);
  }

  /**
   Any list of form parts, put together under a boundary that stands only where a delimiter puts it, is read back:
   every name, every header field, every byte of content, in order.
   */
  lemma FormRoundTrip(preamble: Bytes, ps: seq<FormPart>, boundary: Bytes, epilogue: Bytes)
    requires forall p :: p in ps ==> ValidForm(p)
    requires Separated(FormParts(ps), boundary, epilogue)
    requires Find(BodyText(preamble, FormParts(ps), boundary, epilogue), boundary, 0) == |preamble| + 2
    ensures ReadBody(BodyText(preamble, FormParts(ps), boundary, epilogue), boundary) == Ok(FormArgs(ps))
  {
    hide Separated, Described, BodyText, ReadBody, Find, AllFields, Lowered, FieldLines, ValFields, PlainValue, Parts,
      ParamFields;
    var parts := FormParts(ps);
    var ms := seq(|ps|, i requires 0 <= i < |ps| && ps[i] in ps => FormMeaning(ps[i]));
    forall i | 0 <= i < |ps|
      ensures Described(parts[i], ms[i].fields, ms[i].vals, ms[i].name) && Arg(parts[i], ms[i]) == FormArgs(ps)[i]
    {
      assert ps[i] in ps;
      FormPartDescribed(ps[i]);
      MeaningFields(ps[i].disposition);
    }
    BodyRoundTrip(preamble, parts, ms, boundary, epilogue);
    assert Args(parts, ms) == FormArgs(ps);
  }

  /** A plain boundary that occurs in no part, and nowhere before the first delimiter, separates them. */
  lemma PlainBoundaryArrives(preamble: Bytes, ps: seq<FormPart>, boundary: Bytes, epilogue: Bytes)
    requires (forall p :: p in ps ==> ValidForm(p)) && PlainBoundary(boundary)
    requires forall p :: p in ps ==> Absent(Lines(FieldLines(AllFields(p))) + CRLF + p.content, boundary)
    requires Find(preamble + DASHES + boundary, boundary, 0) == |preamble| + 2
    ensures ReadBody(BodyText(preamble, FormParts(ps), boundary, epilogue), boundary) == Ok(FormArgs(ps))
  {
    hide Separated, BodyText, ReadBody, Find, ValidForm, AllFields, FieldLines, Lines, FormArgs, PlainBoundary, Absent,
      StandsAlone, Tail;
    var parts := FormParts(ps);
    forall p | p in parts
      ensures StandsAlone(PartText(p), boundary)
    {
      var i :| 0 <= i < |parts| && parts[i] == p;
      assert ps[i] in ps;
      AbsentStandsAlone(PartText(p), boundary);
    }
    SeparatedIff(parts, boundary, epilogue);
    FirstBoundary(preamble, parts, boundary, epilogue);
    FormRoundTrip(preamble, ps, boundary, epilogue);
  }

  lemma FirstBoundary(preamble: Bytes, parts: seq<Part>, boundary: Bytes, epilogue: Bytes)
    requires Find(preamble + DASHES + boundary, boundary, 0) == |preamble| + 2
    ensures Find(BodyText(preamble, parts, boundary, epilogue), boundary, 0) == |preamble| + 2
  {
    hide Find, Tail;
    var tail := Tail(parts, boundary, epilogue);
    assert BodyText(preamble, parts, boundary, epilogue) == preamble + DASHES + boundary + tail;
    FindStays(preamble + DASHES + boundary, boundary, tail);
  }
}
