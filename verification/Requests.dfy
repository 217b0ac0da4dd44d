/**
 Request.cpp: percent-escapes, field values, header fields, the request line and multipart bodies. Each parser is a
 function of the text that is left to read; the methods run the loops over positions in the whole text and are proved
 to compute those functions, failures included.
 */
module Requests {
  import opened Bytes
  import opened Text

  /** `Error{400}`, or a std::out_of_range that the server answers with 500. */
  datatype Error = BadRequest | OutOfRange

  datatype Result<+T> = Ok(value: T) | Fail(error: Error)

  // ---- url_unescape ----

  function HexValue(c: byte): (v: int)
    ensures v == -1 || 0 <= v < 16
  {
    if 48 <= c <= 57 then c - 48
    else if 65 <= c <= 70 then c - 55
    else if 97 <= c <= 102 then c - 87
    else -1
  }

  /** from_chars in base 16 on two characters, as a char: one digit is enough, and a minus sign is taken. */
  function HexPair(a: byte, b: byte): (r: Option<byte>) {
    var x, y := HexValue(a), HexValue(b);
    if x != -1 then Some(if y != -1 then 16 * x + y else x)
    else if a == DASH && y != -1 then Some((256 - y) % 256)
    else None
  }

  function Prepend(x: Bytes, r: Result<Bytes>): Result<Bytes> {
    match r
    case Ok(y) => Ok(x + y)
    case Fail(e) => Fail(e)
  }

  /**
   An escape cut off after its first digit passes the length check, is read with a byte from behind the
   view (never a hex digit where the repository calls this), and then fails as an out-of-range substr.
   */
  function Unescape(s: Bytes): (r: Result<Bytes>)
    decreases |s|
  {
    var p := FindByte(s, PERCENT, 0);
    if p == -1 then Ok(s)
    else if p == |s| - 1 then Fail(BadRequest)
    else if p == |s| - 2 then Fail(if HexValue(s[p + 1]) != -1 then OutOfRange else BadRequest)
    else
      match HexPair(s[p + 1], s[p + 2])
      case None => Fail(BadRequest)
      case Some(v) => Prepend(s[..p] + [v], Unescape(s[p + 3..]))
  }

  lemma PrependTwice(x: Bytes, y: Bytes, r: Result<Bytes>)
    ensures Prepend(x, Prepend(y, r)) == Prepend(x + y, r)
  {
    if r.Ok? {
      Associative(x, y, r.value);
    }
  }

  method UrlUnescape(str: Bytes) returns (r: Result<Bytes>)
    ensures r == Unescape(str)
  {
    hide HexPair, HexValue, FindByte, Unescape, Prepend;
    var unescaped: Bytes := [];
    var start := 0;
    assert str[0..] == str;
    PrependNothing(Unescape(str));
    while true
      invariant 0 <= start <= |str|
      invariant Unescape(str) == Prepend(unescaped, Unescape(str[start..]))
      decreases |str| - start
    {
      UnescapeTurn(str, start, unescaped);
      var pos := FindByte(str, PERCENT, start);
      if pos == -1 {
        return Ok(unescaped + str[start..]);
      }
      unescaped := unescaped + str[start..pos];
      // str.size() - 2 wraps around for a one-character string, which then fails in from_chars
      if pos == |str| - 1 {
        return Fail(BadRequest);
      }
      if pos + 3 > |str| {
        return Fail(if HexValue(str[pos + 1]) != -1 then OutOfRange else BadRequest);
      }
      var val := HexPair(str[pos + 1], str[pos + 2]);
      if val.None? {
        return Fail(BadRequest);
      }
      unescaped := unescaped + [val.value];
      start := pos + 3;
    }
  }

  /** What the first percent sign of a text leads to. */
  lemma UnescapeCases(s: Bytes)
    ensures var p := FindByte(s, PERCENT, 0);
            if p == -1 then Unescape(s) == Ok(s)
            else if p == |s| - 1 then Unescape(s) == Fail(BadRequest)
            else if p == |s| - 2 then Unescape(s) == Fail(if HexValue(s[p + 1]) != -1 then OutOfRange else BadRequest)
            else
              var v := HexPair(s[p + 1], s[p + 2]);
              Unescape(s) == if v.None? then Fail(BadRequest) else Prepend(s[..p] + [v.value], Unescape(s[p + 3..]))
  {
    hide HexPair, HexValue, FindAny;
  }

  /** One turn of the loop, in positions of the whole text. */
  lemma UnescapeTurn(str: Bytes, start: nat, before: Bytes)
    requires start <= |str| && Unescape(str) == Prepend(before, Unescape(str[start..]))
    ensures var pos := FindByte(str, PERCENT, start);
            if pos == -1 then Unescape(str) == Ok(before + str[start..])
            else if pos == |str| - 1 then Unescape(str) == Fail(BadRequest)
            else if pos == |str| - 2 then Unescape(str) == Fail(if HexValue(str[pos + 1]) != -1 then OutOfRange else BadRequest)
            else
              var v := HexPair(str[pos + 1], str[pos + 2]);
              Unescape(str) == if v.None? then Fail(BadRequest)
                               else Prepend(before + str[start..pos] + [v.value], Unescape(str[pos + 3..]))
  {
    hide HexPair, HexValue, FindAny, Unescape;
    var pos, rest := FindByte(str, PERCENT, start), str[start..];
    FindByteSuffix(str, PERCENT, start);
    UnescapeCases(rest);
    if pos != -1 {
      var p := pos - start;
      SliceOfSuffix(str, start, 0, p);
      if pos + 3 <= |str| {
        SliceOfSuffix(str, start, 0, p + 3);
        var v := HexPair(str[pos + 1], str[pos + 2]);
        if v.Some? {
          PrependTwice(before, str[start..pos] + [v.value], Unescape(str[pos + 3..]));
          Associative(before, str[start..pos], [v.value]);
        }
      }
    }
  }

  lemma PrependNothing(r: Result<Bytes>)
    ensures Prepend([], r) == r
  {
    if r.Ok? {
      assert [] + r.value == r.value;
    }
  }

  lemma UnescapeStep(s: Bytes, p: nat, v: byte)
    requires p + 3 <= |s| && FindByte(s, PERCENT, 0) == p && HexPair(s[p + 1], s[p + 2]) == Some(v)
    ensures Unescape(s) == Prepend(s[..p] + [v], Unescape(s[p + 3..]))
  {
    hide HexPair;
  }

  // ---- extractFieldVals ----

  datatype FieldVal = Single(text: Bytes) | Pair(key: Bytes, val: Bytes)

  function Unquote(v: Bytes): (r: Bytes) {
    if v != [] && v[0] == QUOTE && v[|v| - 1] == QUOTE then
      if |v| == 1 then [] else v[1..|v| - 1]
    else v
  }

  /** One chunk, without blanks around it. */
  function ReadChunk(chunk: Bytes): (r: Result<FieldVal>) {
    var eq := FindByte(chunk, EQUALS, 0);
    if eq != -1 then
      match Unescape(Unquote(chunk[..eq]))
      case Fail(e) => Fail(e)
      case Ok(k) =>
        match Unescape(Unquote(chunk[eq + 1..]))
        case Fail(e) => Fail(e)
        case Ok(v) => Ok(Pair(k, v))
    else
      match Unescape(Unquote(chunk))
      case Fail(e) => Fail(e)
      case Ok(t) => Ok(Single(t))
  }

  function Joined(r: Result<seq<FieldVal>>, before: seq<FieldVal>): Result<seq<FieldVal>> {
    match r
    case Fail(e) => Fail(e)
    case Ok(vs) => Ok(before + vs)
  }

  /**
   The values from `s` on. Nothing but blanks is an out-of-range substr (the npos is cut to 32 bits);
   an empty chunk ends the list.
   */
  function ReadVals(s: Bytes, delimiters: Bytes): (r: Result<seq<FieldVal>>)
    decreases |s|
  {
    var b := FindNot(s, BLANKS, 0);
    if b == -1 then Fail(OutOfRange)
    else
      var t := s[b..];
      var e := FindAny(t, delimiters, 0);
      TakeVal(FirstChunk(t, delimiters), e == -1, if e == -1 then Ok([]) else ReadVals(t[e + 1..], delimiters))
  }

  /** The text up to the first delimiter, without the blanks at its end. */
  function FirstChunk(t: Bytes, delimiters: Bytes): (chunk: Bytes) {
    TrimRight(Before(t, FindAny(t, delimiters, 0)), BLANKS)
  }

  /** The value of a chunk, before the values of the rest. */
  function TakeVal(chunk: Bytes, last: bool, rest: Result<seq<FieldVal>>): (r: Result<seq<FieldVal>>) {
    if chunk == [] then Ok([])
    else
      match ReadChunk(chunk)
      case Fail(err) => Fail(err)
      case Ok(v) => if last then Ok([v]) else Joined(rest, [v])
  }

  function FieldVals(str: Bytes, delimiters: Bytes): (r: Result<seq<FieldVal>>) {
    if str == [] then Ok([]) else ReadVals(str, delimiters)
  }

  lemma JoinedTwice(r: Result<seq<FieldVal>>, a: seq<FieldVal>, b: seq<FieldVal>)
    ensures Joined(Joined(r, b), a) == Joined(r, a + b)
  {
    if r.Ok? {
      Associative(a, b, r.value);
    }
  }

  lemma JoinedNothing(r: Result<seq<FieldVal>>)
    ensures Joined(r, []) == r
  {
    if r.Ok? {
      assert [] + r.value == r.value;
    }
  }

  /** What the values so far make of the next chunk. */
  lemma JoinedTake(fields: seq<FieldVal>, chunk: Bytes, last: bool, rest: Result<seq<FieldVal>>)
    ensures Joined(Fail(OutOfRange), fields) == Fail(OutOfRange)
    ensures Joined(TakeVal(chunk, last, rest), fields) ==
            if chunk == [] then Ok(fields)
            else
              match ReadChunk(chunk)
              case Fail(e) => Fail(e)
              case Ok(v) => if last then Ok(fields + [v]) else Joined(rest, fields + [v])
  {
    hide ReadChunk;
    assert fields + [] == fields;
    if ReadChunk(chunk).Ok? {
      JoinedTwice(rest, fields, [ReadChunk(chunk).value]);
    }
  }

  method ReadChunkLoop(chunk: Bytes) returns (r: Result<FieldVal>)
    ensures r == ReadChunk(chunk)
  {
    hide Unescape, Unquote;
    var eqSign := FindByte(chunk, EQUALS, 0);
    if eqSign != -1 {
      var key := UrlUnescape(Unquote(chunk[..eqSign]));
      if key.Fail? {
        return Fail(key.error);
      }
      var val := UrlUnescape(Unquote(chunk[eqSign + 1..]));
      if val.Fail? {
        return Fail(val.error);
      }
      return Ok(Pair(key.value, val.value));
    }
    var text := UrlUnescape(Unquote(chunk));
    r := if text.Fail? then Fail(text.error) else Ok(Single(text.value));
  }

  /** Positions are 32-bit here; 2^32 - 1 is the position that npos turns into. */
  method ExtractFieldVals(str: Bytes, delimiters: Bytes) returns (r: Result<seq<FieldVal>>)
    requires |str| < 0xffff_ffff
    ensures r == FieldVals(str, delimiters)
  {
    hide ReadChunk, ReadVals, FindNot, FindAny, FindLastNot, Joined, ChunkAt;
    if str == [] {
      return Ok([]);
    }
    var fields: seq<FieldVal> := [];
    var start := 0;
    assert str[0..] == str;
    JoinedNothing(ReadVals(str, delimiters));
    while true
      invariant 0 <= start <= |str|
      invariant ReadVals(str, delimiters) == Joined(ReadVals(str[start..], delimiters), fields)
      decreases |str| - start
    {
      ValsTurn(str, start, delimiters, fields);
      var b := FindNot(str, BLANKS, start);
      if b == -1 {
        // start becomes 2^32 - 1, beyond the end of str
        return Fail(OutOfRange);
      }
      start := b;
      var end := FindAny(str, delimiters, start);
      var chunk := if end == -1 then str[start..] else str[start..end];
      if chunk == [] {
        return Ok(fields);
      }
      chunk := chunk[..FindLastNot(chunk, BLANKS) + 1];
      if chunk == [] {
        return Ok(fields);
      }
      var val := ReadChunkLoop(chunk);
      if val.Fail? {
        return Fail(val.error);
      }
      fields := fields + [val.value];
      if end == -1 {
        return Ok(fields);
      }
      start := end + 1;
    }
  }

  /** The chunk at `b`, up to a delimiter or the end, without the blanks at its end. */
  function ChunkAt(str: Bytes, b: nat, end: int): (chunk: Bytes)
    requires b <= |str| && (end == -1 || b <= end <= |str|)
  {
    TrimRight(if end == -1 then str[b..] else str[b..end], BLANKS)
  }

  /** One turn of the loop, in positions of the whole string. */
  lemma ValsTurn(str: Bytes, start: nat, delimiters: Bytes, fields: seq<FieldVal>)
    requires start <= |str|
    requires ReadVals(str, delimiters) == Joined(ReadVals(str[start..], delimiters), fields)
    ensures var b, all := FindNot(str, BLANKS, start), ReadVals(str, delimiters);
            if b == -1 then all == Fail(OutOfRange)
            else
              var end := FindAny(str, delimiters, b);
              var raw := if end == -1 then str[b..] else str[b..end];
              var chunk := ChunkAt(str, b, end);
              && (raw == [] ==> chunk == []) && chunk == raw[..FindLastNot(raw, BLANKS) + 1]
              && all == if chunk == [] then Ok(fields)
                        else
                          var v := ReadChunk(chunk);
                          if v.Fail? then Fail(v.error)
                          else if end == -1 then Ok(fields + [v.value])
                          else Joined(ReadVals(str[end + 1..], delimiters), fields + [v.value])
  {
    hide ReadChunk, ReadVals, FindNot, FindAny, FindLastNot, Joined, TakeVal, FirstChunk;
    var b := FindNot(str, BLANKS, start);
    JoinedTake(fields, [], true, Ok([]));
    if b == -1 {
      FindNotSuffix(str, BLANKS, start);
      ReadOnlyBlanks(str[start..], delimiters);
    } else {
      var end := FindAny(str, delimiters, b);
      ValsNext(str, start, delimiters, b, end);
      SameChunk(str, b, delimiters);
      JoinedTake(fields, FirstChunk(str[b..], delimiters), end == -1,
                 if end == -1 then Ok([]) else ReadVals(str[end + 1..], delimiters));
    }
  }

  lemma ReadValsUnfold(s: Bytes, delimiters: Bytes, t: Bytes, e: int)
    requires FindNot(s, BLANKS, 0) != -1 && t == s[FindNot(s, BLANKS, 0)..]
    requires e == FindAny(t, delimiters, 0)
    ensures ReadVals(s, delimiters) ==
            TakeVal(FirstChunk(t, delimiters), e == -1, if e == -1 then Ok([]) else ReadVals(t[e + 1..], delimiters))
  {
    hide FindNot, FindAny, TakeVal, FirstChunk;
  }

  lemma ReadOnlyBlanks(s: Bytes, delimiters: Bytes)
    requires FindNot(s, BLANKS, 0) == -1
    ensures ReadVals(s, delimiters) == Fail(OutOfRange)
  {
  }

  /** A chunk in positions of the whole string. */
  lemma SameChunk(str: Bytes, b: nat, delimiters: Bytes)
    requires b <= |str|
    ensures var end := FindAny(str, delimiters, b);
            var raw := if end == -1 then str[b..] else str[b..end];
            && FindAny(str[b..], delimiters, 0) == (if end == -1 then -1 else end - b)
            && FirstChunk(str[b..], delimiters) == raw[..FindLastNot(raw, BLANKS) + 1]
            && (end != -1 ==> str[b..][end - b + 1..] == str[end + 1..])
  {
    hide FindAny, FindLastNot;
    FindAnySuffix(str, delimiters, b);
    var end := FindAny(str, delimiters, b);
    if end != -1 {
      SliceOfSuffix(str, b, 0, end - b);
      SliceOfSuffix(str, b, 0, end + 1 - b);
    }
  }

  lemma ReadValsFrom(s: Bytes, delimiters: Bytes, t: Bytes, e: int, rest: Bytes)
    requires FindNot(s, BLANKS, 0) != -1 && t == s[FindNot(s, BLANKS, 0)..]
    requires e == FindAny(t, delimiters, 0) && (e != -1 ==> rest == t[e + 1..])
    ensures ReadVals(s, delimiters) ==
            TakeVal(FirstChunk(t, delimiters), e == -1, if e == -1 then Ok([]) else ReadVals(rest, delimiters))
  {
    hide FindNot, FindAny, TakeVal, FirstChunk, ReadVals;
    ReadValsUnfold(s, delimiters, t, e);
  }

  /** One turn of ReadVals, in positions of the whole string. */
  lemma ValsNext(str: Bytes, start: nat, delimiters: Bytes, b: nat, end: int)
    requires start <= |str| && b == FindNot(str, BLANKS, start) && end == FindAny(str, delimiters, b)
    ensures ReadVals(str[start..], delimiters) ==
            TakeVal(FirstChunk(str[b..], delimiters), end == -1,
                    if end == -1 then Ok([]) else ReadVals(str[end + 1..], delimiters))
  {
    hide FindNot, FindAny, FindLastNot, TakeVal, ReadVals, FirstChunk;
    FindNotSuffix(str, BLANKS, start);
    FindAnySuffix(str, delimiters, b);
    SliceOfSuffix(str, start, 0, b - start);
    if end == -1 {
      ReadValsFrom(str[start..], delimiters, str[b..], -1, []);
    } else {
      SliceOfSuffix(str, b, 0, end - b + 1);
      ReadValsFrom(str[start..], delimiters, str[b..], end - b, str[end + 1..]);
    }
  }

  // ---- parse_fields ----

  /** Field name in lower case and value, in the order of the text. */
  datatype Field = Field(name: Bytes, val: Bytes)

  predicate HasAny(s: Bytes, set_: Bytes) {
    exists i :: 0 <= i < |s| && s[i] in set_
  }

  /** One header line. */
  function ReadLine(line: Bytes): (r: Result<Field>) {
    var colon := FindByte(line, COLON, 0);
    if colon == -1 || colon == 0 then Fail(BadRequest)
    else
      var name := ToLower(line[..colon]);
      if HasAny(name, ILLEGAL) then Fail(BadRequest)
      else
        var first := FindNot(line, ILLEGAL, colon + 1);
        var last := FindLastNot(line, ILLEGAL);
        if first == -1 || last == -1 || first > last then Fail(BadRequest)
        else
          match Unescape(name)
          case Fail(e) => Fail(e)
          case Ok(n) =>
            match Unescape(line[first..last + 1])
            case Fail(e) => Fail(e)
            case Ok(v) => Ok(Field(n, v))
  }

  function JoinedFields(r: Result<seq<Field>>, before: seq<Field>): Result<seq<Field>> {
    match r
    case Fail(e) => Fail(e)
    case Ok(fs) => Ok(before + fs)
  }

  /** The lines of `s` that end in CRLF. */
  function ReadFields(s: Bytes): (r: Result<seq<Field>>)
    decreases |s|
  {
    var eol := Find(s, CRLF, 0);
    if eol == -1 then Ok([])
    else
      match ReadLine(s[..eol])
      case Fail(e) => Fail(e)
      case Ok(f) => JoinedFields(ReadFields(s[eol + 2..]), [f])
  }

  lemma JoinedFieldsTwice(r: Result<seq<Field>>, a: seq<Field>, b: seq<Field>)
    ensures JoinedFields(JoinedFields(r, b), a) == JoinedFields(r, a + b)
    ensures JoinedFields(r, []) == r
  {
    if r.Ok? {
      Associative(a, b, r.value);
      assert [] + r.value == r.value;
    }
  }

  method ReadLineParts(line: Bytes) returns (r: Result<Field>)
    ensures r == ReadLine(line)
  {
    hide Unescape;
    var colonIdx := FindByte(line, COLON, 0);
    if colonIdx == -1 || colonIdx == 0 {
      return Fail(BadRequest);
    }
    var fieldName := ToLower(line[..colonIdx]);
    if FindAny(fieldName, ILLEGAL, 0) != -1 {
      return Fail(BadRequest);
    }
    var fieldValBeg := FindNot(line, ILLEGAL, colonIdx + 1);
    if fieldValBeg == -1 {
      return Fail(BadRequest);
    }
    var fieldValEnd := FindLastNot(line, ILLEGAL);
    if fieldValEnd == -1 || fieldValBeg > fieldValEnd {
      return Fail(BadRequest);
    }
    var name := UrlUnescape(fieldName);
    if name.Fail? {
      return Fail(name.error);
    }
    var val := UrlUnescape(line[fieldValBeg..fieldValEnd + 1]);
    r := if val.Fail? then Fail(val.error) else Ok(Field(name.value, val.value));
  }

  /** One turn of ReadFields, in positions of the whole text. */
  lemma FieldsNext(fields: Bytes, pos: nat, eol: int)
    requires pos <= |fields| && eol == Find(fields, CRLF, pos)
    ensures ReadFields(fields[pos..]) ==
            if eol == -1 then Ok([])
            else
              match ReadLine(fields[pos..eol])
              case Fail(e) => Fail(e)
              case Ok(f) => JoinedFields(ReadFields(fields[eol + 2..]), [f])
  {
    hide ReadLine, Find, JoinedFields;
    FindSuffix(fields, CRLF, pos);
    if eol != -1 {
      SliceOfSuffix(fields, pos, 0, eol - pos);
      SliceOfSuffix(fields, pos, 0, eol + 2 - pos);
    }
  }

  method ParseFields(fields: Bytes) returns (r: Result<seq<Field>>)
    requires |fields| < 0xffff_ffff
    ensures r == ReadFields(fields)
  {
    hide ReadLine, Find;
    var map_: seq<Field> := [];
    var pos := 0;
    assert fields[0..] == fields;
    JoinedFieldsTwice(ReadFields(fields), [], []);
    while pos < |fields|
      invariant 0 <= pos <= |fields|
      invariant ReadFields(fields) == JoinedFields(ReadFields(fields[pos..]), map_)
    {
      var eol := Find(fields, CRLF, pos);
      FieldsNext(fields, pos, eol);
      if eol == -1 {
        assert map_ + [] == map_;
        return Ok(map_);
      }
      var line := ReadLineParts(fields[pos..eol]);
      if line.Fail? {
        return Fail(line.error);
      }
      JoinedFieldsTwice(ReadFields(fields[eol + 2..]), map_, [line.value]);
      map_ := map_ + [line.value];
      pos := eol + 2;
    }
    assert map_ + [] == map_;
    return Ok(map_);
  }

  // ---- parse_header ----

  /** A part of a multipart body. */
  datatype BodyArg = BodyArg(fields: seq<Field>, content: Bytes)

  datatype NamedArg = NamedArg(name: Bytes, arg: BodyArg)

  datatype Header = Header(httpMethod: Bytes, resource: Bytes, url: Bytes, version: Bytes,
                           cookies: map<Bytes, Bytes>, fields: seq<Field>, urlArgs: seq<Field>,
                           bodyArgs: seq<NamedArg>, contentLength: nat)

  /** find on the field map; of several fields of that name, the first. */
  function Lookup(fields: seq<Field>, name: Bytes): (r: Option<Bytes>) {
    if fields == [] then None
    else if fields[0].name == name then Some(fields[0].val)
    else Lookup(fields[1..], name)
  }

  const SIZE_LIMIT: nat := 0x1_0000_0000_0000_0000

  predicate IsDigit(c: byte) {
    48 <= c <= 57
  }

  /** The value of the leading digits of `s`, behind `acc`. */
  function LeadingNumber(s: Bytes, acc: nat): (n: nat) {
    if s == [] || !IsDigit(s[0]) then acc else LeadingNumber(s[1..], 10 * acc + (s[0] - 48))
  }

  /** from_chars to a size_t: no digit is an error, a value over 64 bits leaves the 0 that was there. */
  function ContentLength(v: Bytes): (r: Result<nat>) {
    if v == [] || !IsDigit(v[0]) then Fail(BadRequest)
    else Ok(var n := LeadingNumber(v, 0); if n < SIZE_LIMIT then n else 0)
  }

  /** The arguments behind the '?' of the URL as written; they are unescaped twice. */
  function UrlArgsText(rawUrl: Bytes): (r: Bytes) {
    var q := FindByte(rawUrl, QUESTION, 0);
    if q == -1 || q + 1 >= |rawUrl| then []
    else Before(rawUrl[q + 1..], FindByte(rawUrl[q + 1..], HASH, 0))
  }

  function ArgsOf(vals: seq<FieldVal>): (r: Result<seq<Field>>) {
    if vals == [] then Ok([])
    else
      var key := if vals[0].Pair? then vals[0].key else vals[0].text;
      var val := if vals[0].Pair? then vals[0].val else [];
      match Unescape(key)
      case Fail(e) => Fail(e)
      case Ok(k) =>
        match Unescape(val)
        case Fail(e) => Fail(e)
        case Ok(v) => JoinedFields(ArgsOf(vals[1..]), [Field(k, v)])
  }

  function UrlArgs(rawUrl: Bytes): (r: Result<seq<Field>>) {
    match FieldVals(UrlArgsText(rawUrl), [AMPERSAND])
    case Fail(e) => Fail(e)
    case Ok(vals) => ArgsOf(vals)
  }

  function PutCookies(cookies: map<Bytes, Bytes>, vals: seq<FieldVal>): (r: map<Bytes, Bytes>)
    decreases |vals|
  {
    if vals == [] then cookies
    else PutCookies(if vals[0].Pair? then cookies[vals[0].key := vals[0].val] else cookies, vals[1..])
  }

  const COOKIE: Bytes := Ascii("cookie")
  const CONTENT_LENGTH: Bytes := Ascii("content-length")
  const SEMI_COMMA: Bytes := [59, 44]

  function Cookies(fields: seq<Field>, acc: map<Bytes, Bytes>): (r: Result<map<Bytes, Bytes>>) {
    if fields == [] then Ok(acc)
    else if fields[0].name != COOKIE then Cookies(fields[1..], acc)
    else
      match FieldVals(fields[0].val, SEMI_COMMA)
      case Fail(e) => Fail(e)
      case Ok(vals) => Cookies(fields[1..], PutCookies(acc, vals))
  }

  /** The parts of the first line: what stands before the first and the second space of the text, and the rest. */
  function ReadHeader(request: Bytes): (r: Result<Header>) {
    var eol := Find(request, CRLF, 0);
    var methodEnd := FindByte(request, SP, 0);
    if eol == -1 || methodEnd == -1 then Fail(BadRequest)
    else
      var urlEnd := FindByte(request, SP, methodEnd + 1);
      if urlEnd == -1 then Fail(BadRequest)
      else
        var rawUrl := request[methodEnd + 1..urlEnd];
        // a second space behind the first line makes the length wrap: the version is all the rest
        var version := if urlEnd < eol then request[urlEnd + 1..eol] else request[urlEnd + 1..];
        match Unescape(rawUrl)
        case Fail(e) => Fail(e)
        case Ok(url) =>
          match UrlArgs(rawUrl)
          case Fail(e) => Fail(e)
          case Ok(args) =>
            match ReadFields(request[eol + 2..])
            case Fail(e) => Fail(e)
            case Ok(fields) => Finish(request[..methodEnd], url, version, args, fields)
  }

  function Finish(httpMethod: Bytes, url: Bytes, version: Bytes, args: seq<Field>, fields: seq<Field>): (r: Result<Header>) {
    var len := match Lookup(fields, CONTENT_LENGTH) case None => Ok(0) case Some(v) => ContentLength(v);
    match len
    case Fail(e) => Fail(e)
    case Ok(n) =>
      match Cookies(fields, map[])
      case Fail(e) => Fail(e)
      case Ok(cookies) =>
        Ok(Header(httpMethod, Before(url, FindByte(url, QUESTION, 0)), url, version, cookies, fields, args, [], n))
  }

  method ReadUrlArgs(rawUrl: Bytes) returns (r: Result<seq<Field>>)
    requires |rawUrl| < 0xffff_ffff
    ensures r == UrlArgs(rawUrl)
  {
    hide FieldVals, Unescape;
    var text := UrlArgsText(rawUrl);
    UrlArgsTextShort(rawUrl);
    var vals := ExtractFieldVals(text, [AMPERSAND]);
    if vals.Fail? {
      return Fail(vals.error);
    }
    var args: seq<Field> := [];
    assert vals.value[0..] == vals.value;
    JoinedFieldsTwice(ArgsOf(vals.value), [], []);
    for i := 0 to |vals.value|
      invariant ArgsOf(vals.value) == JoinedFields(ArgsOf(vals.value[i..]), args)
    {
      var f := vals.value[i];
      assert vals.value[i..][1..] == vals.value[i + 1..];
      var key := UrlUnescape(if f.Pair? then f.key else f.text);
      if key.Fail? {
        return Fail(key.error);
      }
      var val := UrlUnescape(if f.Pair? then f.val else []);
      if val.Fail? {
        return Fail(val.error);
      }
      JoinedFieldsTwice(ArgsOf(vals.value[i + 1..]), args, [Field(key.value, val.value)]);
      args := args + [Field(key.value, val.value)];
    }
    assert args + [] == args;
    return Ok(args);
  }

  lemma UrlArgsTextShort(rawUrl: Bytes)
    ensures |UrlArgsText(rawUrl)| <= |rawUrl|
  {
  }

  method ReadCookies(fields: seq<Field>) returns (r: Result<map<Bytes, Bytes>>)
    requires forall f :: f in fields ==> |f.val| < 0xffff_ffff
    ensures r == Cookies(fields, map[])
  {
    hide FieldVals;
    var cookies: map<Bytes, Bytes> := map[];
    assert fields[0..] == fields;
    for i := 0 to |fields|
      invariant Cookies(fields, map[]) == Cookies(fields[i..], cookies)
    {
      assert fields[i..][1..] == fields[i + 1..];
      if fields[i].name == COOKIE {
        var extracted := ExtractFieldVals(fields[i].val, SEMI_COMMA);
        if extracted.Fail? {
          return Fail(extracted.error);
        }
        ghost var before := cookies;
        for k := 0 to |extracted.value|
          invariant PutCookies(before, extracted.value) == PutCookies(cookies, extracted.value[k..])
        {
          assert extracted.value[k..][1..] == extracted.value[k + 1..];
          if extracted.value[k].Pair? {
            cookies := cookies[extracted.value[k].key := extracted.value[k].val];
          }
        }
      }
    }
    return Ok(cookies);
  }

  /** The part of parse_header behind the field lines: content length and cookies. */
  method FillIn(header: Header) returns (r: Result<Header>)
    requires forall f :: f in header.fields ==> |f.val| < 0xffff_ffff
    requires header.resource == Before(header.url, FindByte(header.url, QUESTION, 0))
    requires header.cookies == map[] && header.bodyArgs == [] && header.contentLength == 0
    ensures r == Finish(header.httpMethod, header.url, header.version, header.urlArgs, header.fields)
  {
    hide Cookies, Lookup, ContentLength, FindAny;
    var filled := header;
    var cl := Lookup(header.fields, CONTENT_LENGTH);
    if cl.Some? {
      var n := ContentLength(cl.value);
      if n.Fail? {
        return Fail(n.error);
      }
      filled := filled.(contentLength := n.value);
    }
    var cookies := ReadCookies(header.fields);
    if cookies.Fail? {
      return Fail(cookies.error);
    }
    r := Ok(filled.(cookies := cookies.value));
  }

  method ParseHeader(request: Bytes) returns (r: Result<Header>)
    requires |request| < 0xffff_ffff
    ensures r == ReadHeader(request)
  {
    hide Unescape, UrlArgs, ReadFields, Finish, Find, FindAny, Before;
    var firstLineEnd := Find(request, CRLF, 0);
    if firstLineEnd == -1 {
      return Fail(BadRequest);
    }
    var methodEnd := FindByte(request, SP, 0);
    if methodEnd == -1 {
      return Fail(BadRequest);
    }
    var urlEnd := FindByte(request, SP, methodEnd + 1);
    if urlEnd == -1 {
      return Fail(BadRequest);
    }
    var rawUrl := request[methodEnd + 1..urlEnd];
    var header := Header([], [], [], [], map[], [], [], [], 0);
    header := header.(httpMethod := request[..methodEnd]);
    var url := UrlUnescape(rawUrl);
    if url.Fail? {
      return Fail(url.error);
    }
    header := header.(url := url.value);
    header := header.(resource := Before(header.url, FindByte(header.url, QUESTION, 0)));
    header := header.(version := if urlEnd < firstLineEnd then request[urlEnd + 1..firstLineEnd] else request[urlEnd + 1..]);
    var args := ReadUrlArgs(rawUrl);
    if args.Fail? {
      return Fail(args.error);
    }
    header := header.(urlArgs := args.value);
    var fields := ParseFields(request[firstLineEnd + 2..]);
    if fields.Fail? {
      return Fail(fields.error);
    }
    header := header.(fields := fields.value);
    FieldsShort(request[firstLineEnd + 2..]);
    r := FillIn(header);
  }

  /** Unescaping never makes a text longer, and shorter when it holds an escape. */
  lemma {:induction false} UnescapeShrinks(x: Bytes)
    ensures Unescape(x).Ok? ==> |Unescape(x).value| <= |x|
    ensures PERCENT in x && Unescape(x).Ok? ==> |Unescape(x).value| < |x|
    decreases |x|
  {
    hide HexPair, HexValue;
    var p := FindByte(x, PERCENT, 0);
    if 0 <= p <= |x| - 3 {
      UnescapeShrinks(x[p + 3..]);
    }
  }

  /** No value is longer than the text it came from. */
  lemma {:induction false} FieldsShort(s: Bytes)
    ensures ReadFields(s).Ok? ==> forall f :: f in ReadFields(s).value ==> |f.val| <= |s|
    decreases |s|
  {
    hide ReadLine;
    var eol := Find(s, CRLF, 0);
    if eol != -1 {
      FieldsShort(s[eol + 2..]);
      LineShort(s[..eol]);
    }
  }

  lemma LineShort(line: Bytes)
    ensures ReadLine(line).Ok? ==> |ReadLine(line).value.val| <= |line|
  {
    hide Unescape;
    var first, last := FindNot(line, ILLEGAL, 0), FindLastNot(line, ILLEGAL);
    forall i, j | 0 <= i <= j <= |line|
      ensures Unescape(line[i..j]).Ok? ==> |Unescape(line[i..j]).value| <= |line|
    {
      UnescapeShrinks(line[i..j]);
    }
  }
}
