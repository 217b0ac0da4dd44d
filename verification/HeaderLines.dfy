/**
 Requests line by line, by their bytes: the first line, the field lines, the content length and the cookie fields, each
 with everything that is refused; and the bytes in which the lines and numbers of a response are printed. Between them
 they say of every request what its header is, or how it fails.
 */
module HeaderLines {
  import opened Bytes
  import opened Text
  import opened Requests
  import opened Responses

  // ---- Field lines (Request.cpp:96-117) ----

  /** Letters 'A' to 'Z' become 'a' to 'z'; every other byte stays. */
  lemma LowerIs(c: byte, i: nat)
    requires i < 26
    ensures LowerByte(65 + i) == 97 + i
    ensures c < 65 || c > 90 ==> LowerByte(c) == c
  {
  }

  /** Space, tab, carriage return or line feed. */
  predicate White(c: byte) {
    c == 32 || c == 9 || c == 13 || c == 10
  }

  ghost predicate AllWhite(s: Bytes) {
    forall c :: c in s ==> White(c)
  }

  ghost predicate NoWhite(s: Bytes) {
    forall c :: c in s ==> !White(c)
  }

  /** A name, a colon, any white space, a value, any white space. */
  ghost predicate Line(line: Bytes, name: Bytes, pre: Bytes, val: Bytes, post: Bytes) {
    && line == name + [58] + pre + val + post
    && name != [] && 58 !in name && NoWhite(name)
    && AllWhite(pre) && AllWhite(post)
    && val != [] && !White(val[0]) && !White(val[|val| - 1])
  }

  lemma IllegalIs(c: byte)
    ensures c in ILLEGAL <==> White(c)
  {
  }

  lemma LowerLegal(name: Bytes)
    ensures HasAny(ToLower(name), ILLEGAL) <==> !NoWhite(name)
  {
    var t := ToLower(name);
    forall i | 0 <= i < |name|
      ensures t[i] in ILLEGAL <==> White(name[i])
    {
      IllegalIs(t[i]);
    }
    if !NoWhite(name) {
      var c :| c in name && White(c);
      var i :| 0 <= i < |name| && name[i] == c;
      assert t[i] in ILLEGAL;
    }
  }

  /** Such a line gives the field: its name in lower case, both without their escapes. */
  lemma LineIsRead(line: Bytes, name: Bytes, pre: Bytes, val: Bytes, post: Bytes)
    requires Line(line, name, pre, val, post)
    ensures ReadLine(line) == match Unescape(ToLower(name))
                              case Fail(e) => Fail(e)
                              case Ok(n) =>
                                match Unescape(val)
                                case Fail(e) => Fail(e)
                                case Ok(v) => Ok(Field(n, v))
  {
    hide Unescape, FindAny, FindNot, FindLastNot, ToLower;
    assert line == name + [COLON] + (pre + val + post);
    FindByteAfter(name, COLON, pre + val + post);
    LowerLegal(name);
    ValueIs(line, name, pre, val, post);
    var k := |name| + 1 + |pre|;
    assert line[..|name|] == name && line[k..k + |val|] == val;
  }

  lemma ValueIs(line: Bytes, name: Bytes, pre: Bytes, val: Bytes, post: Bytes)
    requires Line(line, name, pre, val, post)
    ensures FindNot(line, ILLEGAL, |name| + 1) == |name| + 1 + |pre|
    ensures FindLastNot(line, ILLEGAL) == |name| + |pre| + |val|
  {
    var k, m := |name| + 1 + |pre|, |name| + |pre| + |val|;
    assert line[k] == val[0] && line[m] == val[|val| - 1];
    IllegalIs(line[k]);
    IllegalIs(line[m]);
    forall i | |name| + 1 <= i < k
      ensures line[i] in ILLEGAL
    {
      assert line[i] == pre[i - |name| - 1];
      IllegalIs(line[i]);
    }
    forall i | m < i < |line|
      ensures line[i] in ILLEGAL
    {
      assert line[i] == post[i - m - 1];
      IllegalIs(line[i]);
    }
  }

  /** A line cut at a colon, with nothing or white space in front of it, or nothing but white space behind it. */
  ghost predicate BadCut(line: Bytes, name: Bytes, rest: Bytes) {
    line == name + [58] + rest && 58 !in name && (name == [] || !NoWhite(name) || AllWhite(rest))
  }

  ghost predicate BadLine(line: Bytes) {
    58 !in line || exists name, rest :: BadCut(line, name, rest)
  }

  /** Every other line is of that form; these are refused with 400. */
  lemma LineCases(line: Bytes)
    ensures BadLine(line) ==> ReadLine(line) == Fail(BadRequest)
    ensures !BadLine(line) ==> exists name, pre, val, post :: Line(line, name, pre, val, post)
  {
    hide Unescape, FindAny, ToLower, Line, ReadLine, BadCut;
    if 58 !in line {
      FindByteNone(line, COLON);
      NoColon(line);
    } else if name, rest :| BadCut(line, name, rest) {
      BadRest(line, name, rest);
    } else {
      var name, pre, val, post := GoodCut(line);
      assert Line(line, name, pre, val, post);
    }
  }

  lemma GoodCut(line: Bytes) returns (name: Bytes, pre: Bytes, val: Bytes, post: Bytes)
    requires !BadLine(line)
    ensures Line(line, name, pre, val, post)
  {
    hide FindAny, Line, NoWhite, AllWhite, White;
    var k := FindByte(line, COLON, 0);
    if k == -1 {
      NoByte(line);
      assert false;
    }
    name := line[..k];
    var rest := line[k + 1..];
    assert line == name + [58] + rest && 58 !in name;
    assert !BadCut(line, name, rest);
    pre, val, post := Around(rest);
    IsLine(line, name, pre, val, post);
  }

  lemma NoByte(line: Bytes)
    requires FindByte(line, COLON, 0) == -1
    ensures 58 !in line
  {
  }

  lemma NoColon(line: Bytes)
    requires FindByte(line, COLON, 0) == -1
    ensures ReadLine(line) == Fail(BadRequest)
  {
  }

  lemma IsLine(line: Bytes, name: Bytes, pre: Bytes, val: Bytes, post: Bytes)
    requires line == name + [58] + (pre + val + post)
    requires name != [] && 58 !in name && NoWhite(name) && AllWhite(pre) && AllWhite(post)
    requires val != [] && !White(val[0]) && !White(val[|val| - 1])
    ensures Line(line, name, pre, val, post)
  {
    assert line == name + [58] + pre + val + post;
  }

  lemma BadRest(line: Bytes, name: Bytes, rest: Bytes)
    requires BadCut(line, name, rest)
    ensures ReadLine(line) == Fail(BadRequest)
  {
    hide Unescape, FindAny, FindNot, FindLastNot, ToLower, NoWhite;
    FindByteAfter(name, COLON, rest);
    assert line[..|name|] == name;
    LowerLegal(name);
    if AllWhite(rest) {
      forall i | |name| + 1 <= i < |line|
        ensures line[i] in ILLEGAL
      {
        assert line[i] == rest[i - |name| - 1];
        IllegalIs(line[i]);
      }
    }
  }

  /** The white space around what is not. */
  lemma Around(rest: Bytes) returns (pre: Bytes, val: Bytes, post: Bytes)
    requires !AllWhite(rest)
    ensures rest == pre + val + post && AllWhite(pre) && AllWhite(post)
    ensures val != [] && !White(val[0]) && !White(val[|val| - 1])
  {
    hide White, AllWhite;
    var a, b := Span(rest);
    Pieces(rest, a, b);
    pre, val, post := rest[..a], rest[a..b], rest[b..];
  }

  lemma Span(rest: Bytes) returns (a: nat, b: nat)
    requires !AllWhite(rest)
    ensures a < b <= |rest| && !White(rest[a]) && !White(rest[b - 1]) && AllWhite(rest[..a]) && AllWhite(rest[b..])
  {
    hide White, FindNot, FindLastNot;
    var i := SomeBlack(rest);
    a, b := FindNot(rest, ILLEGAL, 0), FindLastNot(rest, ILLEGAL) + 1;
    IllegalIs(rest[a]);
    IllegalIs(rest[b - 1]);
    WhiteTill(rest, a);
    WhiteFrom(rest, b - 1);
  }

  lemma SomeBlack(rest: Bytes) returns (i: nat)
    requires !AllWhite(rest)
    ensures i < |rest| && rest[i] !in ILLEGAL
  {
    var c :| c in rest && !White(c);
    i :| 0 <= i < |rest| && rest[i] == c;
    IllegalIs(c);
  }

  lemma Pieces(s: Bytes, a: nat, b: nat)
    requires a < b <= |s|
    ensures s == s[..a] + s[a..b] + s[b..] && s[a..b][0] == s[a] && s[a..b][b - a - 1] == s[b - 1]
  {
  }

  lemma WhiteTill(s: Bytes, a: nat)
    requires a <= |s| && forall i :: 0 <= i < a ==> s[i] in ILLEGAL
    ensures AllWhite(s[..a])
  {
    hide White;
    forall c | c in s[..a]
      ensures White(c)
    {
      var i :| 0 <= i < a && s[i] == c;
      IllegalIs(c);
    }
  }

  lemma WhiteFrom(s: Bytes, b: nat)
    requires b < |s| && forall i :: b < i < |s| ==> s[i] in ILLEGAL
    ensures AllWhite(s[b + 1..])
  {
    hide White;
    forall c | c in s[b + 1..]
      ensures White(c)
    {
      var i :| 0 <= i < |s[b + 1..]| && s[b + 1..][i] == c;
      assert s[b + 1 + i] == c;
      IllegalIs(c);
    }
  }

  /** The lines are those that end in a line break; what stands behind the last one is passed over. */
  lemma FieldsAre(line: Bytes, rest: Bytes)
    requires forall i :: !At(line, [13, 10], i)
    ensures ReadFields(line) == Ok([])
    ensures line == [] || line[|line| - 1] != 13 ==>
              ReadFields(line + [13, 10] + rest) ==
              match ReadLine(line)
              case Fail(e) => Fail(e)
              case Ok(f) =>
                match ReadFields(rest)
                case Fail(e) => Fail(e)
                case Ok(fs) => Ok([f] + fs)
  {
    hide ReadLine, At;
    NeverFound(line, CRLF);
    if line == [] || line[|line| - 1] != 13 {
      var s := line + [13, 10] + rest;
      forall i | 0 <= i < |line|
        ensures !At(s, [13, 10], i)
      {
        NotBefore(line, rest, i);
      }
      BreakHere(line, rest);
      FirstFind(s, [13, 10], |line|);
      assert s[..|line|] == line && s[|line| + 2..] == rest;
    }
  }

  lemma BreakHere(line: Bytes, rest: Bytes)
    ensures At(line + [13, 10] + rest, [13, 10], |line|)
  {
    assert (line + [13, 10] + rest)[|line|..|line| + 2] == [13, 10];
  }

  lemma NotBefore(line: Bytes, rest: Bytes, i: nat)
    requires i < |line| && (forall k :: !At(line, [13, 10], k)) && line[|line| - 1] != 13
    ensures !At(line + [13, 10] + rest, [13, 10], i)
  {
    var s := line + [13, 10] + rest;
    assert s[i..i + 2] == [s[i], s[i + 1]];
    if i + 2 <= |line| {
      assert !At(line, [13, 10], i);
      assert line[i..i + 2] == [line[i], line[i + 1]];
    }
  }

  /** Of several fields of a name the first is found. */
  lemma {:induction false} LookupIs(fields: seq<Field>, name: Bytes, i: nat)
    requires i <= |fields| && forall j :: 0 <= j < i ==> fields[j].name != name
    requires i < |fields| ==> fields[i].name == name
    ensures Lookup(fields, name) == if i < |fields| then Some(fields[i].val) else None
  {
    if i > 0 {
      LookupIs(fields[1..], name, i - 1);
    }
  }

  /** Every cookie field puts its pairs into the map, over those of the fields before it. */
  lemma CookiesAre(f: Field, fs: seq<Field>, m: map<Bytes, Bytes>)
    ensures Cookies([f] + fs, m) ==
            if f.name != [99, 111, 111, 107, 105, 101] then Cookies(fs, m)
            else
              var r := FieldVals(f.val, [59, 44]);
              if r.Fail? then Fail(r.error) else Cookies(fs, PutCookies(m, r.value))
  {
    hide FieldVals, PutCookies;
    assert ([f] + fs)[1..] == fs;
    assert COOKIE == [99, 111, 111, 107, 105, 101];
  }

  // ---- The first line (Request.cpp:128-148) ----

  /** A request without a line break, or with fewer than two spaces, is refused with 400. */
  lemma FirstLineIsRefused(request: Bytes)
    requires || (forall i :: !At(request, [13, 10], i))
             || forall i, j :: 0 <= i < j < |request| && request[i] == 32 ==> request[j] != 32
    ensures ReadHeader(request) == Fail(BadRequest)
  {
    hide Find, FindAny, Unescape, UrlArgs, ReadFields, Finish;
  }

  /**
   Every other request: the method in front of the first space, the target in front of the second, and the version behind
   it up to the first line break; if that stands in front of the second space the version is all that follows.
   */
  lemma FirstLineIs(s: Bytes, first: Bytes, second: Bytes, rest: Bytes, eol: nat)
    requires s == first + [32] + second + [32] + rest && 32 !in first && 32 !in second
    requires At(s, [13, 10], eol) && forall i :: 0 <= i < eol ==> !At(s, [13, 10], i)
    ensures eol + 2 <= |s|
    ensures var k := |first| + 1 + |second|;
            ReadHeader(s) ==
            match Unescape(second)
            case Fail(e) => Fail(e)
            case Ok(url) =>
              match UrlArgs(second)
              case Fail(e) => Fail(e)
              case Ok(args) =>
                match ReadFields(s[eol + 2..])
                case Fail(e) => Fail(e)
                case Ok(fields) => Finish(first, url, if k < eol then rest[..eol - k - 1] else rest, args, fields)
  {
    hide *;
    AtEnds(s, eol);
    TwoSpaces(s, first, second, rest);
    FirstFind(s, [13, 10], eol);
    VersionCut(s, first, second, rest, eol);
    CutAt(s, |first|, |first| + 1 + |second|, eol);
  }

  lemma CutAt(s: Bytes, m: nat, u: nat, eol: nat)
    requires FindByte(s, SP, 0) == m && FindByte(s, SP, m + 1) == u && Find(s, [13, 10], 0) == eol && eol + 2 <= |s|
    ensures m < u < |s|
    ensures ReadHeader(s) ==
            match Unescape(s[m + 1..u])
            case Fail(e) => Fail(e)
            case Ok(url) =>
              match UrlArgs(s[m + 1..u])
              case Fail(e) => Fail(e)
              case Ok(args) =>
                match ReadFields(s[eol + 2..])
                case Fail(e) => Fail(e)
                case Ok(fields) => Finish(s[..m], url, if u < eol then s[u + 1..eol] else s[u + 1..], args, fields)
  {
    hide Find, FindAny, Unescape, UrlArgs, ReadFields, Finish;
  }

  lemma TwoSpaces(s: Bytes, first: Bytes, second: Bytes, rest: Bytes)
    requires s == first + [32] + second + [32] + rest && 32 !in first && 32 !in second
    ensures var k := |first| + 1 + |second|;
            && k < |s| && FindByte(s, SP, 0) == |first| && FindByte(s, SP, |first| + 1) == k
            && s[..|first|] == first && s[|first| + 1..k] == second && s[k + 1..] == rest
  {
    hide FindAny;
    var u := second + [32] + rest;
    assert s == first + [SP] + u;
    FindByteAfter(first, SP, u);
    assert s[|first| + 1..] == u;
    FindByteAfter(second, SP, rest);
    FindByteSuffix(s, SP, |first| + 1);
  }

  lemma VersionCut(s: Bytes, first: Bytes, second: Bytes, rest: Bytes, eol: nat)
    requires s == first + [32] + second + [32] + rest && eol <= |s|
    ensures var k := |first| + 1 + |second|; k < eol ==> s[k + 1..eol] == rest[..eol - k - 1]
  {
  }

  lemma AtEnds(s: Bytes, i: nat)
    requires At(s, [13, 10], i)
    ensures i + 2 <= |s|
  {
  }

  // ---- The content length (Request.cpp:174-181) ----

  function Nulls(k: nat): (r: Bytes)
    ensures |r| == k
  {
    seq(k, _ => 48)
  }

  lemma {:induction false} NullsCount(k: nat, s: Bytes)
    ensures LeadingNumber(Nulls(k) + s, 0) == LeadingNumber(s, 0)
  {
    if k == 0 {
      assert Nulls(0) + s == s;
    } else {
      assert (Nulls(k) + s)[1..] == Nulls(k - 1) + s;
      NullsCount(k - 1, s);
    }
  }

  lemma {:induction false} DigitsThen(a: Bytes, rest: Bytes, acc: nat)
    requires forall c :: c in a ==> 48 <= c <= 57
    requires rest == [] || rest[0] < 48 || rest[0] > 57
    ensures LeadingNumber(a + rest, acc) == LeadingNumber(a, acc)
    decreases |a|
  {
    if a == [] {
      assert a + rest == rest;
    } else {
      assert (a + rest)[1..] == a[1..] + rest && a[0] in a;
      assert forall c :: c in a[1..] ==> c in a;
      DigitsThen(a[1..], rest, 10 * acc + (a[0] as int - 48));
    }
  }

  /**
   A number below 2^64, with any zeros in front of it and anything but a digit behind it, is taken as that number; a
   larger one is taken as 0; what does not begin with a digit is refused with 400.
   */
  lemma ContentLengthIs(k: nat, n: nat, rest: Bytes)
    requires rest == [] || rest[0] < 48 || rest[0] > 57
    ensures ContentLength(Nulls(k) + Decimal(n) + rest) == Ok(if n < 18446744073709551616 then n else 0)
    ensures ContentLength(rest) == Fail(BadRequest)
  {
    var d := Decimal(n);
    var v := Nulls(k) + d + rest;
    DecimalDigits(n);
    forall c | c in d
      ensures 48 <= c <= 57
    {
      assert IsDigit(c);
    }
    assert v == Nulls(k) + (d + rest);
    NullsCount(k, d + rest);
    DigitsThen(d, rest, 0);
    ReadDecimal(n);
    assert d[0] in d;
    assert v[0] == if k == 0 then d[0] else 48;
  }

  /** A request whose content length is refused is refused as a whole; without such a field its length is 0. */
  lemma LengthOfRequest(httpMethod: Bytes, url: Bytes, version: Bytes, args: seq<Field>, fields: seq<Field>, v: Option<Bytes>)
    requires v == Lookup(fields, [99, 111, 110, 116, 101, 110, 116, 45, 108, 101, 110, 103, 116, 104])
    ensures var r := Finish(httpMethod, url, version, args, fields);
            && (v.Some? && ContentLength(v.value).Fail? ==> r == Fail(ContentLength(v.value).error))
            && (r.Ok? ==> Ok(r.value.contentLength) == if v.None? then Ok(0) else ContentLength(v.value))
  {
    hide Lookup, ContentLength, Cookies;
    LengthName();
  }

  /** The digits of a number: no zero in front, a minus sign if it is negative; so every status code is its three digits. */
  lemma NumberIs(n: int)
    ensures n >= 0 ==> DecimalInt(n) == Decimal(n) && (forall c :: c in Decimal(n) ==> 48 <= c <= 57)
    ensures n < 0 ==> DecimalInt(n) == [45] + Decimal(-n)
    ensures n >= 10 ==> Decimal(n)[0] != 48
    ensures 0 <= n < 10 ==> Decimal(n) == [48 + n]
    ensures 100 <= n < 1000 ==> Decimal(n) == [48 + n / 100, 48 + n / 10 % 10, 48 + n % 10]
  {
    if n >= 0 {
      DecimalDigits(n);
      forall c | c in Decimal(n)
        ensures 48 <= c <= 57
      {
        assert IsDigit(c);
      }
      NoZeroInFront(n);
      if 100 <= n < 1000 {
        assert Decimal(n / 10) == Decimal(n / 100) + [48 + n / 10 % 10] by {
          assert n / 10 / 10 == n / 100;
        }
      }
    }
  }

  lemma {:induction false} NoZeroInFront(n: nat)
    ensures n >= 1 ==> Decimal(n)[0] != 48
  {
    if n >= 10 {
      NoZeroInFront(n / 10);
    }
  }

  // ---- What is printed (Response.cpp:242-281) ----

  lemma FieldLineIs(f: Field)
    ensures FieldLine(f) == f.name + [58, 32] + f.val
  {
  }

  /** A response in its bytes: "HTTP/1.1 200 OK", "Server: x", the length of the body, and the body "hi". */
  lemma PrintedOk()
    ensures Printed(Response([72, 84, 84, 80, 47, 49, 46, 49], 200, [79, 75],
                             [Field([83, 101, 114, 118, 101, 114], [120])], Some([104, 105]))) ==
            [72, 84, 84, 80, 47, 49, 46, 49, 32, 50, 48, 48, 32, 79, 75] + [13, 10]
            + [83, 101, 114, 118, 101, 114, 58, 32, 120] + [13, 10]
            + [67, 111, 110, 116, 101, 110, 116, 45, 76, 101, 110, 103, 116, 104, 58, 32, 50] + [13, 10] + [13, 10] + [104, 105]
  {
    hide DecimalInt, Decimal, Lines, FieldLines, FieldLine;
    var own := Field([83, 101, 114, 118, 101, 114], [120]);
    var len := Field([67, 111, 110, 116, 101, 110, 116, 45, 76, 101, 110, 103, 116, 104], [50]);
    var r := Response([72, 84, 84, 80, 47, 49, 46, 49], 200, [79, 75], [own], Some([104, 105]));
    NumberIs(200);
    NumberIs(2);
    FieldLineIs(own);
    FieldLineIs(len);
    LengthName();
    assert own.name != CONTENT_LENGTH_NAME by {
      assert |own.name| == 6 && |CONTENT_LENGTH_NAME| == 14;
    }
    assert Lookup([own][1..], CONTENT_LENGTH_NAME) == None;
    assert SentFields(r) == [own] + [len];
    FieldLinesAppend([own], len);
    FieldLinesAppend([], own);
    assert [] + [own] == [own] && FieldLines([]) == [] by {
      NothingPrinted();
    }
    LinesAppend([FieldLine(own)], FieldLine(len));
    LinesAppend([], FieldLine(own));
    NothingPrinted();
    assert [] + [FieldLine(own)] == [FieldLine(own)];
  }

  lemma NothingPrinted()
    ensures FieldLines([]) == [] && Lines([]) == []
  {
  }
}
