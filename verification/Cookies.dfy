/** Cookies, from the header line to the map (Request.cpp:87-121, 183-192). */
module CookieRoundTrips {
  import opened Bytes
  import opened Text
  import opened Requests
  import opened FieldRoundTrips
  import opened Responses
  import opened RequestRoundTrips
  import opened Http

  predicate Quoted(v: Bytes) {
    v != [] && v[0] == QUOTE && v[|v| - 1] == QUOTE
  }

  /**
   An entry that means the same with and without escapes: parse_fields takes them out of the whole field, and only then
   is the field cut at its delimiters and unescaped again.
   */
  predicate Intact(e: Entry) {
    && (forall c :: c in e.key ==> c != PERCENT && c != EQUALS && c !in SEMI_COMMA)
    && (forall c :: c in e.val ==> c != PERCENT && c !in SEMI_COMMA)
    && (e.key == [] || e.key[0] !in BLANKS) && (e.val == [] || e.val[|e.val| - 1] !in BLANKS)
    && !Quoted(e.key) && !Quoted(e.val)
  }

  // ---- One chunk ----

  lemma UnquoteShrinks(v: Bytes)
    ensures |Unquote(v)| <= |v| && (Unquote(v) == v <==> !Quoted(v)) && (|Unquote(v)| == |v| ==> !Quoted(v))
  {
  }

  /** Quotes and escapes make a text shorter, and nothing else changes it. */
  lemma CleanedIff(v: Bytes)
    ensures Unescape(Unquote(v)).Ok? ==> |Unescape(Unquote(v)).value| <= |v|
    ensures Unescape(Unquote(v)).Ok? && |Unescape(Unquote(v)).value| == |v| ==> !Quoted(v) && PERCENT !in v
    ensures !Quoted(v) && PERCENT !in v ==> Unescape(Unquote(v)) == Ok(v)
  {
    hide Unescape, Unquote;
    UnquoteShrinks(v);
    UnescapeShrinks(Unquote(v));
    if PERCENT !in v && !Quoted(v) {
      UnescapePlain(v);
    }
  }

  /** How much of a text a value accounts for. */
  function Size(v: FieldVal): (n: nat) {
    match v
    case Pair(k, w) => |k| + 1 + |w|
    case Single(t) => |t|
  }

  /** A value is no larger than its chunk, and a pair as large as a clean chunk is intact. */
  lemma ChunkBounds(chunk: Bytes)
    requires ReadChunk(chunk).Ok?
    ensures Size(ReadChunk(chunk).value) <= |chunk|
    ensures ReadChunk(chunk).value.Pair? && Size(ReadChunk(chunk).value) == |chunk| && CleanChunk(chunk, SEMI_COMMA) ==>
              Intact(Entry(ReadChunk(chunk).value.key, ReadChunk(chunk).value.val))
  {
    hide Unescape, Unquote, FindAny;
    var eq := FindByte(chunk, EQUALS, 0);
    if eq == -1 {
      CleanedIff(chunk);
    } else {
      var k, v := chunk[..eq], chunk[eq + 1..];
      CleanedIff(k);
      CleanedIff(v);
      assert chunk == k + [EQUALS] + v;
    }
  }

  /** An intact entry is read as it is. */
  lemma ReadIntact(e: Entry)
    requires Intact(e)
    ensures CleanChunk(PlainText(e), SEMI_COMMA) && ReadChunk(PlainText(e)) == Ok(Pair(e.key, e.val))
  {
    hide Unescape, Unquote, FindAny;
    var c := PlainText(e);
    FindByteAfter(e.key, EQUALS, e.val);
    assert c[..|e.key|] == e.key && c[|e.key| + 1..] == e.val;
    CleanedIff(e.key);
    CleanedIff(e.val);
  }

  // ---- The budget of a list ----

  /** What the pairs of a list account for, each with the delimiter behind it. */
  function Weight(vals: seq<FieldVal>): (n: nat) {
    if vals == [] then 0 else (if vals[0].Pair? then Size(vals[0]) + 1 else 0) + Weight(vals[1..])
  }

  ghost predicate AllIntact(vals: seq<FieldVal>) {
    forall v :: v in vals && v.Pair? ==> Intact(Entry(v.key, v.val))
  }

  /** At most `n`, and intact if it is `n`. */
  ghost predicate Within(r: Result<seq<FieldVal>>, n: nat) {
    r.Ok? ==> Weight(r.value) <= n && (Weight(r.value) == n ==> AllIntact(r.value))
  }

  /** One chunk of a text of `m` bytes, behind which the budget is `n`. */
  lemma TakeWithin(chunk: Bytes, last: bool, rest: Result<seq<FieldVal>>, m: nat, n: nat)
    requires chunk == [] || CleanChunk(chunk, SEMI_COMMA)
    requires |chunk| <= m && (if last then n == 0 else Within(rest, n))
    ensures Within(TakeVal(chunk, last, rest), m + 1 + n)
  {
    hide ReadChunk;
    if chunk != [] && ReadChunk(chunk).Ok? {
      ChunkBounds(chunk);
      var v := ReadChunk(chunk).value;
      if last {
        assert Weight([v]) == (if v.Pair? then Size(v) + 1 else 0) + Weight([]);
      } else if rest.Ok? {
        assert ([v] + rest.value)[1..] == rest.value;
      }
    }
  }

  /** The first chunk of a text holds no delimiter and no blank at its ends. */
  lemma FirstChunkClean(s: Bytes, b: nat)
    requires b == FindNot(s, BLANKS, 0) && b < |s|
    ensures var c := FirstChunk(s[b..], SEMI_COMMA); c == [] || CleanChunk(c, SEMI_COMMA)
  {
    hide FindAny, FindLastNot, FindNot;
    var t := s[b..];
    var raw := Before(t, FindAny(t, SEMI_COMMA, 0));
    var c := FirstChunk(t, SEMI_COMMA);
    if c != [] {
      assert c[0] == t[0] == s[b];
      assert c[|c| - 1] == raw[FindLastNot(raw, BLANKS)];
      forall x | x in c
        ensures x !in SEMI_COMMA
      {
        var i :| 0 <= i < |c| && c[i] == x;
        assert t[i] == x;
      }
    }
  }

  /** Where the first chunk of a text ends: blanks, then a part without delimiters, then a delimiter or nothing. */
  lemma Cut(gap: Bytes, x: Bytes, y: Bytes)
    requires forall c :: c in gap ==> c in BLANKS
    requires forall c :: c in x ==> c !in SEMI_COMMA
    requires y == [] || y[0] in SEMI_COMMA
    ensures var s := gap + x + y;
            var b := FindNot(s, BLANKS, 0);
            && (y != [] ==> b != -1)
            && (b != -1 ==>
                  && |gap| <= b < |s| && |FirstChunk(s[b..], SEMI_COMMA)| <= |x|
                  && FindAny(s[b..], SEMI_COMMA, 0) == (if y == [] then -1 else |gap| + |x| - b)
                  && (y != [] ==> b <= |gap| + |x| && s[b..][|gap| + |x| - b + 1..] == y[1..]))
  {
    hide FindNot, FindAny, FindLastNot;
    var s := gap + x + y;
    var b, z := FindNot(s, BLANKS, 0), |gap| + |x|;
    assert forall i :: 0 <= i < |gap| ==> s[i] == gap[i];
    assert forall i :: |gap| <= i < z ==> s[i] == x[i - |gap|];
    if y != [] {
      assert s[z] == y[0];
    }
    if b != -1 {
      var t := s[b..];
      assert forall i :: 0 <= i < z - b ==> t[i] == s[b + i];
      if y != [] {
        assert t[z - b] == s[z];
        assert t[z - b + 1..] == y[1..];
      } else {
        assert y == [] && |t| == z - b;
      }
    }
  }

  /** One chunk, and what the text behind it stays within. */
  lemma BudgetStep(gap: Bytes, x: Bytes, y: Bytes, n: nat)
    requires forall c :: c in gap ==> c in BLANKS
    requires forall c :: c in x ==> c !in SEMI_COMMA
    requires if y == [] then n == 0 else y[0] in SEMI_COMMA && Within(ReadVals(y[1..], SEMI_COMMA), n)
    ensures Within(ReadVals(gap + x + y, SEMI_COMMA), |x| + 1 + n)
  {
    hide ReadVals, FindNot, FindAny, TakeVal, FirstChunk, Within;
    var s := gap + x + y;
    var b := FindNot(s, BLANKS, 0);
    Cut(gap, x, y);
    if b == -1 {
      ReadOnlyBlanks(s, SEMI_COMMA);
      FailWithin(|x| + 1 + n);
    } else {
      var t := s[b..];
      var rest := if y == [] then Ok([]) else ReadVals(y[1..], SEMI_COMMA);
      FirstChunkClean(s, b);
      ReadValsUnfold(s, SEMI_COMMA, t, FindAny(t, SEMI_COMMA, 0));
      TakeWithin(FirstChunk(t, SEMI_COMMA), y == [], rest, |x|, n);
    }
  }

  /** Every text stays within its length, whatever its delimiters, blanks, quotes and escapes make of it. */
  lemma {:induction false} Budget(gap: Bytes, x: Bytes, tail: Bytes, n: nat)
    requires forall c :: c in gap ==> c in BLANKS
    requires if tail == [] then n == 0 else tail[0] in SEMI_COMMA && Within(ReadVals(tail[1..], SEMI_COMMA), n)
    ensures Within(ReadVals(gap + x + tail, SEMI_COMMA), |x| + 1 + n)
    decreases |x|
  {
    hide ReadVals, FindAny, Within;
    var i := FindAny(x, SEMI_COMMA, 0);
    if i == -1 {
      BudgetStep(gap, x, tail, n);
    } else {
      var y := x[i..] + tail;
      assert x == x[..i] + x[i..];
      assert gap + x[..i] + y == gap + x + tail;
      Budget([], x[i + 1..], tail, n);
      assert [] + x[i + 1..] + tail == y[1..];
      BudgetStep(gap, x[..i], y, |x| - i + n);
    }
  }

  lemma FailWithin(n: nat)
    ensures Within(Fail(OutOfRange), n)
  {
  }

  /** What stands behind the first entry of a list. */
  function BehindFirst(es: seq<Entry>, seps: seq<Sep>): (tail: Bytes)
    requires |es| == |seps| + 1
  {
    if |es| == 1 then [] else [seps[0].delim] + (seps[0].blanks + PlainList(es[1..], seps[1..]))
  }

  lemma PlainFirst(es: seq<Entry>, seps: seq<Sep>)
    requires |es| == |seps| + 1
    ensures PlainList(es, seps) == PlainText(es[0]) + BehindFirst(es, seps)
  {
    hide PlainText;
    if |es| > 1 {
      assert PlainTexts(es)[1..] == PlainTexts(es[1..]);
      Associative([seps[0].delim], seps[0].blanks, PlainList(es[1..], seps[1..]));
    }
  }

  /** A list without escapes never yields more than was written, and if it yields as much, every pair is intact. */
  lemma {:induction false} ListWithin(gap: Bytes, es: seq<Entry>, seps: seq<Sep>)
    requires |es| == |seps| + 1 && forall s :: s in seps ==> ValidSep(s, SEMI_COMMA)
    requires forall c :: c in gap ==> c in BLANKS
    ensures Within(ReadVals(gap + PlainList(es, seps), SEMI_COMMA), Weight(Pairs(es)))
    decreases |es|
  {
    hide ReadVals, Within, PlainList;
    var tail, more := BehindFirst(es, seps), Weight(Pairs(es[1..]));
    PlainFirst(es, seps);
    Associative(gap, PlainText(es[0]), tail);
    assert Pairs(es)[1..] == Pairs(es[1..]);
    if |es| == 1 {
      assert Pairs(es[1..]) == [];
    } else {
      assert ValidSep(seps[0], SEMI_COMMA);
      assert tail[1..] == seps[0].blanks + PlainList(es[1..], seps[1..]);
      ListWithin(seps[0].blanks, es[1..], seps[1..]);
    }
    Budget(gap, PlainText(es[0]), tail, more);
  }

  lemma {:induction false} PairsOf(es: seq<Entry>)
    ensures |Pairs(es)| == |es| && forall i :: 0 <= i < |es| ==> Pairs(es)[i] == Pair(es[i].key, es[i].val)
  {
    if es != [] {
      PairsOf(es[1..]);
    }
  }

  /** The entries behind the unescaping of the field: they are read as they are if and only if all are intact. */
  lemma ValuesIff(es: seq<Entry>, seps: seq<Sep>)
    requires |es| == |seps| + 1 && forall s :: s in seps ==> ValidSep(s, SEMI_COMMA)
    ensures FieldVals(PlainList(es, seps), SEMI_COMMA) == Ok(Pairs(es)) <==> forall e :: e in es ==> Intact(e)
  {
    hide ReadVals, ReadChunk, ListText, Intact, PlainText, CleanChunk, Weight;
    var text := PlainList(es, seps);
    PairsOf(es);
    assert [] + text == text;
    PlainNotEmpty(es, seps);
    ListWithin([], es, seps);
    if FieldVals(text, SEMI_COMMA) == Ok(Pairs(es)) {
      forall e | e in es
        ensures Intact(e)
      {
        var i :| 0 <= i < |es| && es[i] == e;
        assert Pairs(es)[i] in Pairs(es);
      }
    }
    if forall e :: e in es ==> Intact(e) {
      forall i | 0 <= i < |es|
        ensures CleanChunk(PlainTexts(es)[i], SEMI_COMMA) && ReadChunk(PlainTexts(es)[i]) == Ok(Pairs(es)[i])
      {
        assert es[i] in es;
        ReadIntact(es[i]);
      }
      ReadList([], PlainTexts(es), Pairs(es), seps, SEMI_COMMA, []);
    }
  }

  lemma PlainNotEmpty(es: seq<Entry>, seps: seq<Sep>)
    requires |es| == |seps| + 1
    ensures PlainList(es, seps) != []
  {
    PlainFirst(es, seps);
  }

  // ---- The map ----

  /** Putting one entry after the other, as insert_or_assign does. */
  function PutEntries(m: map<Bytes, Bytes>, es: seq<Entry>): (r: map<Bytes, Bytes>)
    decreases |es|
  {
    if es == [] then m else PutEntries(m[es[0].key := es[0].val], es[1..])
  }

  /** The last entry of a key wins, every key is there and no other. */
  lemma {:induction false} LastEntryWins(m: map<Bytes, Bytes>, es: seq<Entry>)
    ensures forall k :: k in PutEntries(m, es) <==> k in m || exists e :: e in es && e.key == k
    ensures forall k :: k in m && (forall e :: e in es ==> e.key != k) ==> PutEntries(m, es)[k] == m[k]
    ensures forall i :: 0 <= i < |es| && (forall j :: i < j < |es| ==> es[j].key != es[i].key) ==>
              es[i].key in PutEntries(m, es) && PutEntries(m, es)[es[i].key] == es[i].val
    decreases |es|
  {
    if es != [] {
      var n := m[es[0].key := es[0].val];
      LastEntryWins(n, es[1..]);
      assert forall e :: e in es <==> e == es[0] || e in es[1..];
      forall i | 0 <= i < |es| && forall j :: i < j < |es| ==> es[j].key != es[i].key
        ensures es[i].key in PutEntries(m, es) && PutEntries(m, es)[es[i].key] == es[i].val
      {
        if i > 0 {
          assert es[1..][i - 1] == es[i];
          forall j | i - 1 < j < |es[1..]|
            ensures es[1..][j].key != es[i].key
          {
            assert es[1..][j] == es[j + 1];
          }
        }
      }
    }
  }

  lemma {:induction false} PutPairs(m: map<Bytes, Bytes>, es: seq<Entry>)
    ensures PutCookies(m, Pairs(es)) == PutEntries(m, es)
    decreases |es|
  {
    if es != [] {
      assert Pairs(es)[1..] == Pairs(es[1..]);
      PutPairs(m[es[0].key := es[0].val], es[1..]);
    }
  }

  /** What the map holds comes from a pair. */
  lemma {:induction false} CookieFrom(m: map<Bytes, Bytes>, vals: seq<FieldVal>, k: Bytes)
    requires k in PutCookies(m, vals)
    ensures Pair(k, PutCookies(m, vals)[k]) in vals || (k in m && PutCookies(m, vals)[k] == m[k])
    decreases |vals|
  {
    if vals != [] {
      CookieFrom(if vals[0].Pair? then m[vals[0].key := vals[0].val] else m, vals[1..], k);
      assert vals[0] in vals;
    }
  }

  ghost predicate DistinctKeys(es: seq<Entry>) {
    forall i, j :: 0 <= i < j < |es| ==> es[i].key != es[j].key
  }

  lemma {:induction false} WeightWithout(vals: seq<FieldVal>, i: nat)
    requires i < |vals| && vals[i].Pair?
    ensures Weight(vals) == Weight(vals[..i] + vals[i + 1..]) + Size(vals[i]) + 1
    decreases i
  {
    var rest := vals[..i] + vals[i + 1..];
    if i == 0 {
      assert rest == vals[1..];
    } else {
      WeightWithout(vals[1..], i - 1);
      assert rest[0] == vals[0] && rest[1..] == vals[1..][..i - 1] + vals[1..][i..];
    }
  }

  /** A list that has all pairs of distinct keys accounts for at least as much as they do. */
  lemma {:induction false} WeightOfAll(es: seq<Entry>, vals: seq<FieldVal>)
    requires DistinctKeys(es) && forall e :: e in es ==> Pair(e.key, e.val) in vals
    ensures Weight(Pairs(es)) <= Weight(vals)
    decreases |es|
  {
    if es != [] {
      var e, more := es[0], es[1..];
      assert e in es;
      var i :| 0 <= i < |vals| && vals[i] == Pair(e.key, e.val);
      var rest := vals[..i] + vals[i + 1..];
      WeightWithout(vals, i);
      forall f | f in more
        ensures Pair(f.key, f.val) in rest
      {
        var j :| 0 <= j < |more| && more[j] == f;
        assert es[j + 1] == f && f in es && f.key != e.key;
        var k :| 0 <= k < |vals| && vals[k] == Pair(f.key, f.val);
        assert k != i;
        assert if k < i then rest[k] == vals[k] else rest[k - 1] == vals[k];
      }
      forall a, b | 0 <= a < b < |more|
        ensures more[a].key != more[b].key
      {
        assert es[a + 1].key != es[b + 1].key;
      }
      WeightOfAll(more, rest);
      assert Pairs(es)[1..] == Pairs(more);
    }
  }

  /** For distinct keys the map holds the entries as they were if and only if all are intact. */
  lemma MapIff(es: seq<Entry>, seps: seq<Sep>)
    requires |es| == |seps| + 1 && forall s :: s in seps ==> ValidSep(s, SEMI_COMMA)
    requires DistinctKeys(es)
    ensures var r := FieldVals(PlainList(es, seps), SEMI_COMMA);
            r.Ok? && PutCookies(map[], r.value) == PutEntries(map[], es) <==> forall e :: e in es ==> Intact(e)
  {
    hide ReadVals, Intact, PlainList, Weight, PutCookies, PutEntries, Pairs;
    var r := FieldVals(PlainList(es, seps), SEMI_COMMA);
    ValuesIff(es, seps);
    PutPairs(map[], es);
    if r.Ok? && PutCookies(map[], r.value) == PutEntries(map[], es) {
      LastEntryWins(map[], es);
      forall e | e in es
        ensures Pair(e.key, e.val) in r.value
      {
        var i :| 0 <= i < |es| && es[i] == e;
        CookieFrom(map[], r.value, e.key);
      }
      WeightOfAll(es, r.value);
      assert [] + PlainList(es, seps) == PlainList(es, seps);
      PlainNotEmpty(es, seps);
      ListWithin([], es, seps);
      assert AllIntact(r.value);
      forall e | e in es
        ensures Intact(e)
      {
        assert Pair(e.key, e.val) in r.value;
        assert e == Entry(e.key, e.val);
      }
    }
  }

  // ---- The header line ----

  /** The bytes that are escaped in a cookie field, besides those an entry always escapes. */
  const COOKIE_RESERVED: Bytes := [59, 44, CR, LF]

  function EscapedList(es: seq<Entry>, seps: seq<Sep>): (t: Bytes)
    requires |es| == |seps| + 1
  {
    ListText(EntryTexts(es, COOKIE_RESERVED), seps, [])
  }

  lemma EscapedTrimmed(es: seq<Entry>, seps: seq<Sep>)
    requires |es| == |seps| + 1 && forall s :: s in seps ==> ValidSep(s, SEMI_COMMA)
    ensures Trimmed(EscapedList(es, seps))
  {
    hide EntryText, ListText, EntryTexts;
    var texts := EntryTexts(es, COOKIE_RESERVED);
    EntriesRead(es, COOKIE_RESERVED, SEMI_COMMA);
    forall i | 0 <= i < |texts|
      ensures texts[i] != []
    {
      assert CleanChunk(texts[i], SEMI_COMMA);
    }
    assert CleanChunk(texts[0], SEMI_COMMA) && CleanChunk(texts[|texts| - 1], SEMI_COMMA);
    ListEnds(texts, seps);
    forall s | s in seps
      ensures s.delim != CR && s.delim != LF && forall b :: b in s.blanks ==> b in BLANKS
    {
      assert ValidSep(s, SEMI_COMMA);
    }
    QueryAvoids(es, seps, COOKIE_RESERVED, CR);
    QueryAvoids(es, seps, COOKIE_RESERVED, LF);
  }

  /** parse_fields leaves of a cookie line what its sender wrote, without the escapes. */
  lemma ReadCookieLine(name: Bytes, es: seq<Entry>, seps: seq<Sep>, fs: seq<Field>)
    requires CleanName(name) && ToLower(name) == COOKIE
    requires |es| == |seps| + 1 && forall s :: s in seps ==> ValidSep(s, SEMI_COMMA)
    requires forall f :: f in fs ==> CleanField(f)
    ensures ReadFields(Lines(FieldLines([Field(name, EscapedList(es, seps))] + fs))) ==
            Ok([Field(COOKIE, PlainList(es, seps))] + Lowered(fs))
  {
    hide ReadLine, FieldLine, CleanField, ToLower, ListText, EntryTexts, PlainList, Unescape, Lowered, Find;
    var f := Field(name, EscapedList(es, seps));
    var line, rest := FieldLine(f), Lines(FieldLines(fs));
    EscapedTrimmed(es, seps);
    ReadEscapedLine(f);
    forall s | s in seps
      ensures PlainSep(s)
    {
      assert ValidSep(s, SEMI_COMMA);
    }
    UnescapeList(es, seps, COOKIE_RESERVED);
    ReadPrintedFields(fs);
    assert ([f] + fs)[1..] == fs;
    assert FieldLines([f] + fs) == [line] + FieldLines(fs);
    assert ([line] + FieldLines(fs))[1..] == FieldLines(fs);
    CookieLineOneLine(f);
    LineBreak(line, rest);
    var s := line + CRLF + rest;
    assert s[..|line|] == line && s[|line| + 2..] == rest;
  }

  lemma CookieLineOneLine(f: Field)
    requires CleanName(f.name) && Trimmed(f.val)
    ensures OneLine(FieldLine(f))
  {
  }

  function WithCookies(h: Header, vals: Result<seq<FieldVal>>): (r: Result<Header>) {
    match vals
    case Fail(e) => Fail(e)
    case Ok(vs) => Ok(h.(cookies := PutCookies(map[], vs)))
  }

  /** A request with one cookie field, which is escaped, and any other clean fields. */
  datatype CookieRequest = CookieRequest(httpMethod: Bytes, target: Bytes, version: Bytes, name: Bytes, es: seq<Entry>,
                                         seps: seq<Sep>, fs: seq<Field>, length: nat)

  ghost predicate ValidRequest(q: CookieRequest) {
    && OneLine(q.httpMethod) && SP !in q.httpMethod && OneLine(q.version)
    && OneLine(q.target) && SP !in q.target && PERCENT !in q.target && QUESTION !in q.target
    && CleanName(q.name) && ToLower(q.name) == COOKIE
    && |q.es| == |q.seps| + 1 && (forall s :: s in q.seps ==> ValidSep(s, SEMI_COMMA))
    && (forall f :: f in q.fs ==> CleanField(f) && ToLower(f.name) != COOKIE) && HasLength(q.fs, q.length)
  }

  function HeadOf(q: CookieRequest): (h: Bytes)
    requires |q.es| == |q.seps| + 1
  {
    RequestHead(q.httpMethod, q.target, q.version, [Field(q.name, EscapedList(q.es, q.seps))] + q.fs)
  }

  /** From the bytes of a request to its cookies: what arrives is what the list reads as without its escapes. */
  lemma ReadCookieHeader(q: CookieRequest)
    requires ValidRequest(q)
    ensures ReadHeader(HeadOf(q)) ==
            WithCookies(Header(q.httpMethod, q.target, q.target, q.version, map[],
                               [Field(COOKIE, PlainList(q.es, q.seps))] + Lowered(q.fs), [], [], q.length),
                        FieldVals(PlainList(q.es, q.seps), SEMI_COMMA))
  {
    hide ReadHeader, Lines, FieldLines, Unescape, CleanField, ToLower, Lookup, ContentLength, Cookies, PutCookies,
      FieldVals, FindAny, Lowered, ReadFields, PlainList, EscapedList;
    var plain, fs := Field(COOKIE, PlainList(q.es, q.seps)), q.fs;
    var all := [Field(q.name, EscapedList(q.es, q.seps))] + fs;
    ReadCookieLine(q.name, q.es, q.seps, fs);
    UnescapePlain(q.target);
    FindByteNone(q.target, QUESTION);
    NoArgs(q.target);
    ReadThreeParts(q.httpMethod, q.target, q.version, Lines(FieldLines(all)));
    CookieFirst(plain, Lowered(fs));
    LoweredNames(fs, COOKIE);
    if FieldVals(plain.val, SEMI_COMMA).Ok? {
      NoCookies(Lowered(fs), PutCookies(map[], FieldVals(plain.val, SEMI_COMMA).value));
    }
  }

  /** The request is accepted, and its cookies are the entries, the last one of a key winning. */
  ghost predicate Arrive(r: Result<Header>, es: seq<Entry>) {
    r.Ok? && r.value.cookies == PutEntries(map[], es)
  }

  /**
   Every list of intact cookies arrives as it was written. A list of distinct keys arrives if and only if every one of
   its cookies is intact.
   */
  lemma CookiesArriveIff(q: CookieRequest)
    requires ValidRequest(q)
    ensures (forall e :: e in q.es ==> Intact(e)) ==> Arrive(ReadHeader(HeadOf(q)), q.es)
    ensures DistinctKeys(q.es) ==> (Arrive(ReadHeader(HeadOf(q)), q.es) <==> forall e :: e in q.es ==> Intact(e))
  {
    hide ReadHeader, HeadOf, PutCookies, FieldVals, PlainList, Intact, PutEntries, Pairs, Lowered, HasLength;
    ReadCookieHeader(q);
    ValuesIff(q.es, q.seps);
    PutPairs(map[], q.es);
    if DistinctKeys(q.es) {
      MapIff(q.es, q.seps);
    }
  }

  lemma NoArgs(target: Bytes)
    requires FindByte(target, QUESTION, 0) == -1
    ensures UrlArgs(target) == Ok([])
  {
  }

  lemma CookieFirst(f: Field, fs: seq<Field>)
    requires f.name == COOKIE
    ensures Lookup([f] + fs, CONTENT_LENGTH) == Lookup(fs, CONTENT_LENGTH)
    ensures var r := FieldVals(f.val, SEMI_COMMA);
            Cookies([f] + fs, map[]) == if r.Fail? then Fail(r.error) else Cookies(fs, PutCookies(map[], r.value))
  {
    hide FieldVals, PutCookies;
    CookieIsNotLength();
    assert ([f] + fs)[1..] == fs;
  }

  // ---- An input ----

  /** One cookie whose value is an escaped semicolon: the request is refused with 500 and the protocol ended. */
  lemma EscapedSemicolon(env: Env)
    ensures var head := Ascii("G 1 H") + CRLF + Ascii("cookie: a=%3B") + CRLF;
            && Ascii("a=%3B") == EscapedList([Entry([97], [59])], [])
            && ReadHeader(head) == Fail(OutOfRange)
            && Call(env, [], RunningTotal, 0, None, head + CRLF) == Outcome(None, 0, [Refused(500)], Dropped)
  {
    hide ReadHeader, Call, Find, FieldVals, Ascii, EscapedList, PlainList, RequestHead, Intact;
    var es := [Entry([97], [59])];
    var head := Ascii("G 1 H") + CRLF + Ascii("cookie: a=%3B") + CRLF;
    var f := Field(COOKIE, EscapedList(es, []));
    SemicolonText();
    SemicolonFails();
    assert [f] + [] == [f];
    SemicolonHead(f);
    CookieIsClean();
    ReadCookieHeader(CookieRequest([71], [49], [72], COOKIE, es, [], [], 0));
    SemicolonFound(head);
    ScanUnfolds(env, [], 0, head + CRLF);
    assert (head + CRLF)[..|head|] == head;
  }

  lemma CookieIsClean()
    ensures CleanName(COOKIE) && ToLower(COOKIE) == COOKIE && HasLength([], 0)
  {
    assert COOKIE == [99, 111, 111, 107, 105, 101];
  }

  lemma SemicolonText()
    ensures EscapedList([Entry([97], [59])], []) == Ascii("a=%3B") == [97, 61, 37, 51, 66]
  {
    var r := Reserved(COOKIE_RESERVED);
    assert Escape([97], r) == [97] + Escape([], r) by {
      assert [97][1..] == [];
    }
    assert Escape([59], r) == EscapeByte(59) + Escape([], r) by {
      assert [59][1..] == [];
    }
    assert EscapeByte(59) == [37, 51, 66];
  }

  lemma SemicolonFails()
    ensures FieldVals(PlainList([Entry([97], [59])], []), SEMI_COMMA) == Fail(OutOfRange)
  {
    hide ReadVals, ReadChunk, FieldVals;
    var e := Entry([97], []);
    assert Intact(e);
    ReadIntact(e);
    var text := PlainList([Entry([97], [59])], []);
    assert text == [] + ListText([PlainText(e)], [], [59]);
    ReadList([], [PlainText(e)], [Pair(e.key, e.val)], [], SEMI_COMMA, [59]);
  }

  lemma SemicolonHead(f: Field)
    requires f == Field(COOKIE, [97, 61, 37, 51, 66])
    ensures RequestHead([71], [49], [72], [f]) == Ascii("G 1 H") + CRLF + Ascii("cookie: a=%3B") + CRLF
  {
    assert FieldLines([f]) == [FieldLine(f)] + FieldLines([]);
    assert Lines([FieldLine(f)]) == FieldLine(f) + CRLF + Lines([]);
    assert FieldLine(f) == Ascii("cookie: a=%3B");
    assert [71] + [SP] + [49] + [SP] + [72] == Ascii("G 1 H");
  }

  lemma LinesAreClean()
    ensures OneLine(Ascii("G 1 H")) && CleanLine(Ascii("cookie: a=%3B"))
  {
    assert Ascii("G 1 H") == [71, 32, 49, 32, 72];
    assert Ascii("cookie: a=%3B") == [99, 111, 111, 107, 105, 101, 58, 32, 97, 61, 37, 51, 66];
  }

  lemma SemicolonFound(head: Bytes)
    requires head == Ascii("G 1 H") + CRLF + Ascii("cookie: a=%3B") + CRLF
    ensures Find(head + CRLF, CRLFCRLF, 0) == |head| - 2
  {
    hide Find, Ascii;
    var l, c := Ascii("G 1 H"), Ascii("cookie: a=%3B");
    LinesAreClean();
    LinesFirst([c]);
    LinesFirst([]);
    assert head + CRLF == l + CRLF + Lines([c]) + CRLF + [];
    FirstEmptyLine(l, [c], []);
  }
}
