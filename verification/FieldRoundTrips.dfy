/** Printing key/value lists with percent-escapes, and reading them back with extractFieldVals. */
module FieldRoundTrips {
  import opened Bytes
  import opened Text
  import opened Requests

  function HexDigit(v: nat): (c: byte)
    requires v < 16
    ensures HexValue(c) == v
  {
    if v < 10 then 48 + v else 55 + v
  }

  /** Section 2.1 of RFC 3986: a percent sign and two hexadecimal digits. */
  function EscapeByte(c: byte): (r: Bytes)
    ensures |r| == 3
  {
    [PERCENT, HexDigit(c / 16), HexDigit(c % 16)]
  }

  function Escape(x: Bytes, reserved: set<byte>): (r: Bytes) {
    if x == [] then []
    else (if x[0] in reserved then EscapeByte(x[0]) else [x[0]]) + Escape(x[1..], reserved)
  }

  lemma UnescapeLiteral(c: byte, z: Bytes)
    requires c != PERCENT
    ensures Unescape([c] + z) == Prepend([c], Unescape(z))
  {
    hide HexPair, HexValue, FindAny;
    var s := [c] + z;
    var p, q := FindByte(s, PERCENT, 0), FindByte(z, PERCENT, 0);
    assert s[1..] == z;
    FindByteSuffix(s, PERCENT, 1);
    assert p == if q == -1 then -1 else q + 1;
    if 0 <= q < |z| - 2 {
      var v := HexPair(z[q + 1], z[q + 2]);
      assert s[p + 1] == z[q + 1] && s[p + 2] == z[q + 2];
      if v.Some? {
        assert s[..p] == [c] + z[..q];
        assert s[p + 3..] == z[q + 3..];
        UnescapeStep(s, p, v.value);
        UnescapeStep(z, q, v.value);
        assert s[..p] + [v.value] == [c] + (z[..q] + [v.value]);
        PrependTwice([c], z[..q] + [v.value], Unescape(z[q + 3..]));
      }
    }
  }

  lemma UnescapeEscaped(c: byte, z: Bytes)
    ensures Unescape(EscapeByte(c) + z) == Prepend([c], Unescape(z))
  {
    hide FindAny;
    var s := EscapeByte(c) + z;
    assert s[0] == PERCENT;
    assert FindByte(s, PERCENT, 0) == 0;
    assert s[3..] == z;
    assert HexPair(s[1], s[2]) == Some(c);
    UnescapeStep(s, 0, c);
    assert s[..0] + [c] == [c];
  }

  /** Unescaping gives the escaped text back, whatever follows it, be that well-formed or not. */
  lemma {:induction false} UnescapeEscape(x: Bytes, reserved: set<byte>, y: Bytes)
    requires PERCENT in reserved
    ensures Unescape(Escape(x, reserved) + y) == Prepend(x, Unescape(y))
  {
    hide Unescape, EscapeByte;
    if x == [] {
      PrependNothing(Unescape(y));
      assert Escape(x, reserved) + y == y;
    } else {
      var c, rest := x[0], Escape(x[1..], reserved);
      UnescapeEscape(x[1..], reserved, y);
      PrependTwice([c], x[1..], Unescape(y));
      assert [c] + x[1..] == x;
      if c in reserved {
        Associative(EscapeByte(c), rest, y);
        UnescapeEscaped(c, rest + y);
      } else {
        Associative([c], rest, y);
        UnescapeLiteral(c, rest + y);
      }
    }
  }

  lemma UnescapeAll(x: Bytes, reserved: set<byte>)
    requires PERCENT in reserved
    ensures Unescape(Escape(x, reserved)) == Ok(x)
  {
    UnescapeEscape(x, reserved, []);
    assert Escape(x, reserved) + [] == Escape(x, reserved);
    assert FindByte([], PERCENT, 0) == -1;
    assert x + [] == x;
  }

  /** Text without a percent sign is left alone. */
  lemma UnescapePlain(x: Bytes)
    requires PERCENT !in x
    ensures Unescape(x) == Ok(x)
  {
  }

  /** Upper-case hexadecimal digits. */
  predicate IsHexDigit(c: byte) {
    48 <= c <= 57 || 65 <= c <= 70
  }

  lemma {:induction false} EscapeAvoids(x: Bytes, reserved: set<byte>, c: byte)
    requires c in reserved && c != PERCENT && !IsHexDigit(c)
    ensures c !in Escape(x, reserved)
  {
    if x != [] {
      EscapeAvoids(x[1..], reserved, c);
    }
  }

  // ---- Key/value lists ----

  datatype Entry = Entry(key: Bytes, val: Bytes)

  /** A delimiter and the blanks written after it. */
  datatype Sep = Sep(delim: byte, blanks: Bytes)

  /** Delimiters that neither an escape nor the syntax of an entry uses. */
  ghost predicate Separators(delimiters: Bytes) {
    forall c :: c in delimiters ==> !IsHexDigit(c) && c !in {PERCENT, EQUALS, QUOTE, SP, TAB}
  }

  ghost predicate ValidSep(s: Sep, delimiters: Bytes) {
    s.delim in delimiters && forall c :: c in s.blanks ==> c in BLANKS
  }

  function Reserved(delimiters: Bytes): (r: set<byte>) {
    {PERCENT, EQUALS, QUOTE, SP, TAB} + set c | c in delimiters
  }

  function EntryText(e: Entry, delimiters: Bytes): (r: Bytes) {
    Escape(e.key, Reserved(delimiters)) + [EQUALS] + Escape(e.val, Reserved(delimiters))
  }

  /** Chunks joined by delimiters with optional blanks, and the closing text `tail`. */
  function ListText(chunks: seq<Bytes>, seps: seq<Sep>, tail: Bytes): (r: Bytes)
    requires |chunks| == |seps| + 1
  {
    chunks[0] +
    if |chunks| == 1 then tail else [seps[0].delim] + seps[0].blanks + ListText(chunks[1..], seps[1..], tail)
  }

  function EntryTexts(es: seq<Entry>, reserved: Bytes): (r: seq<Bytes>)
    ensures |r| == |es|
  {
    if es == [] then [] else [EntryText(es[0], reserved)] + EntryTexts(es[1..], reserved)
  }

  function Pairs(es: seq<Entry>): (r: seq<FieldVal>) {
    if es == [] then [] else [Pair(es[0].key, es[0].val)] + Pairs(es[1..])
  }

  lemma EntryAvoids(e: Entry, delimiters: Bytes, c: byte)
    requires c in Reserved(delimiters) && c != PERCENT && c != EQUALS && !IsHexDigit(c)
    ensures c !in EntryText(e, delimiters)
  {
    EscapeAvoids(e.key, Reserved(delimiters), c);
    EscapeAvoids(e.val, Reserved(delimiters), c);
  }

  lemma UnquotePlain(v: Bytes)
    requires QUOTE !in v
    ensures Unquote(v) == v
  {
  }

  lemma ReadEntry(e: Entry, delimiters: Bytes)
    ensures ReadChunk(EntryText(e, delimiters)) == Ok(Pair(e.key, e.val))
  {
    hide Unescape, Escape, FindAny;
    var r := Reserved(delimiters);
    var k, v := Escape(e.key, r), Escape(e.val, r);
    var c := EntryText(e, delimiters);
    EscapeAvoids(e.key, r, EQUALS);
    FindByteAfter(k, EQUALS, v);
    assert c[..|k|] == k && c[|k| + 1..] == v;
    EscapeAvoids(e.key, r, QUOTE);
    EscapeAvoids(e.val, r, QUOTE);
    UnquotePlain(k);
    UnquotePlain(v);
    UnescapeAll(e.key, r);
    UnescapeAll(e.val, r);
  }

  /** A chunk without blanks at its ends, behind blanks, up to a delimiter or the end. */
  lemma ReadValsChunk(gap: Bytes, chunk: Bytes, rest: Bytes, delimiters: Bytes)
    requires forall c :: c in gap ==> c in BLANKS
    requires chunk != [] && chunk[0] !in BLANKS && chunk[|chunk| - 1] !in BLANKS
    requires forall c :: c in chunk ==> c !in delimiters
    requires rest == [] || rest[0] in delimiters
    ensures ReadVals(gap + chunk + rest, delimiters) ==
            TakeVal(chunk, rest == [], if rest == [] then Ok([]) else ReadVals(rest[1..], delimiters))
  {
    hide TakeVal, ReadVals, FindNot, FindAny, FindLastNot;
    var s, t := gap + chunk + rest, chunk + rest;
    Associative(gap, chunk, rest);
    SkipSet(gap, t, BLANKS);
    Halves(gap, t);
    UpToSet(chunk, rest, delimiters);
    ReadValsUnfold(s, delimiters, t, if rest == [] then -1 else |chunk|);
    if rest == [] {
      assert t == chunk;
    } else {
      assert t[|chunk| + 1..] == rest[1..];
    }
    assert Before(t, FindAny(t, delimiters, 0)) == chunk;
    assert FindLastNot(chunk, BLANKS) == |chunk| - 1;
    assert chunk[..|chunk|] == chunk;
  }

  /** Blanks behind a chunk make no difference. */
  lemma BlanksBehind(gap: Bytes, chunk: Bytes, trail: Bytes, rest: Bytes, delimiters: Bytes)
    requires (forall c :: c in gap ==> c == 32 || c == 9) && forall c :: c in trail ==> c == 32 || c == 9
    requires chunk != [] && chunk[0] !in BLANKS && chunk[|chunk| - 1] !in BLANKS
    requires (forall c :: c in chunk ==> c !in delimiters) && 32 !in delimiters && 9 !in delimiters
    requires rest == [] || rest[0] in delimiters
    ensures ReadVals(gap + (chunk + trail) + rest, delimiters) == ReadVals(gap + chunk + rest, delimiters)
  {
    hide TakeVal, ReadVals, FindNot, FindAny;
    var raw := chunk + trail;
    var s, t := gap + raw + rest, raw + rest;
    Associative(gap, raw, rest);
    SkipSet(gap, t, BLANKS);
    Halves(gap, t);
    forall c | c in raw
      ensures c !in delimiters
    {
    }
    UpToSet(raw, rest, delimiters);
    ReadValsUnfold(s, delimiters, t, if rest == [] then -1 else |raw|);
    if rest == [] {
      assert t == raw;
    } else {
      assert t[|raw| + 1..] == rest[1..] && t[..|raw|] == raw;
    }
    LastOf(chunk, trail);
    assert raw[..|chunk|] == chunk;
    ReadValsChunk(gap, chunk, rest, delimiters);
  }

  lemma LastOf(chunk: Bytes, trail: Bytes)
    requires (forall c :: c in trail ==> c in BLANKS) && chunk != [] && chunk[|chunk| - 1] !in BLANKS
    ensures FindLastNot(chunk + trail, BLANKS) == |chunk| - 1
  {
    var s := chunk + trail;
    assert s[|chunk| - 1] == chunk[|chunk| - 1];
    assert forall i :: |chunk| <= i < |s| ==> s[i] == trail[i - |chunk|];
  }

  /** A delimiter with nothing but blanks in front of it ends the list, whatever follows. */
  lemma NothingEnds(gap: Bytes, rest: Bytes, delimiters: Bytes)
    requires (forall c :: c in gap ==> c == 32 || c == 9) && rest != [] && rest[0] in delimiters && rest[0] !in BLANKS
    ensures ReadVals(gap + rest, delimiters) == Ok([])
  {
    hide ReadVals, FindNot, FindAny;
    SkipSet(gap, rest, BLANKS);
    Halves(gap, rest);
    assert [] + rest == rest;
    UpToSet([], rest, delimiters);
    ReadValsUnfold(gap + rest, delimiters, rest, 0);
    assert FirstChunk(rest, delimiters) == [] by {
      assert rest[..0] == [];
    }
  }

  lemma SkipSet(a: Bytes, b: Bytes, set_: Bytes)
    requires forall c :: c in a ==> c in set_
    requires b != [] && b[0] !in set_
    ensures FindNot(a + b, set_, 0) == |a|
  {
    var s := a + b;
    assert forall i :: 0 <= i < |a| ==> s[i] == a[i];
    assert s[|a|] == b[0];
  }

  lemma UpToSet(a: Bytes, b: Bytes, set_: Bytes)
    requires forall c :: c in a ==> c !in set_
    requires b == [] || b[0] in set_
    ensures FindAny(a + b, set_, 0) == if b == [] then -1 else |a|
  {
    var s := a + b;
    assert forall i :: 0 <= i < |a| ==> s[i] == a[i];
    assert b != [] ==> s[|a|] == b[0];
  }

  /** A list starts like its first chunk and ends like its last. */
  lemma {:induction false} ListEnds(chunks: seq<Bytes>, seps: seq<Sep>)
    requires |chunks| == |seps| + 1 && forall i :: 0 <= i < |chunks| ==> chunks[i] != []
    ensures var t, last := ListText(chunks, seps, []), chunks[|chunks| - 1];
            t != [] && t[0] == chunks[0][0] && t[|t| - 1] == last[|last| - 1]
    decreases |chunks|
  {
    if |chunks| > 1 {
      ListEnds(chunks[1..], seps[1..]);
    }
  }

  lemma {:induction false} ListAvoids(chunks: seq<Bytes>, seps: seq<Sep>, c: byte)
    requires |chunks| == |seps| + 1 && forall x :: x in chunks ==> c !in x
    requires forall s :: s in seps ==> s.delim != c && c !in s.blanks
    ensures c !in ListText(chunks, seps, [])
    decreases |chunks|
  {
    assert chunks[0] in chunks;
    if |chunks| > 1 {
      assert seps[0] in seps;
      ListAvoids(chunks[1..], seps[1..], c);
    }
  }

  /** The end of a list: nothing, or a delimiter and blanks. */
  ghost predicate Closing(tail: Bytes, delimiters: Bytes) {
    tail == [] || (tail[0] in delimiters && forall c :: c in tail[1..] ==> c in BLANKS)
  }

  /** A chunk that stands for itself between delimiters. */
  ghost predicate CleanChunk(c: Bytes, delimiters: Bytes) {
    c != [] && c[0] !in BLANKS && c[|c| - 1] !in BLANKS && forall b :: b in c ==> b !in delimiters
  }

  lemma EntryClean(e: Entry, reserved: Bytes, delimiters: Bytes)
    requires Separators(reserved) && forall c :: c in delimiters ==> c in reserved
    ensures CleanChunk(EntryText(e, reserved), delimiters)
  {
    hide Escape;
    var c := EntryText(e, reserved);
    EntryAvoids(e, reserved, SP);
    EntryAvoids(e, reserved, TAB);
    forall b | b in delimiters
      ensures b !in c
    {
      EntryAvoids(e, reserved, b);
    }
    assert EQUALS in c;
  }

  /**
   Any list of clean chunks is read chunk by chunk; closed with a delimiter, blanks after it or not, it fails
   out of range instead.
   */
  lemma {:induction false} ReadList(gap: Bytes, chunks: seq<Bytes>, vals: seq<FieldVal>, seps: seq<Sep>, delimiters: Bytes, tail: Bytes)
    requires |chunks| == |seps| + 1 && |vals| == |chunks|
    requires forall i :: 0 <= i < |chunks| ==> CleanChunk(chunks[i], delimiters) && ReadChunk(chunks[i]) == Ok(vals[i])
    requires forall c :: c in gap ==> c in BLANKS
    requires forall s :: s in seps ==> ValidSep(s, delimiters)
    requires Closing(tail, delimiters)
    ensures FieldVals(gap + ListText(chunks, seps, tail), delimiters) == if tail == [] then Ok(vals) else Fail(OutOfRange)
    decreases |chunks|
  {
    hide ReadVals, ReadChunk;
    var first := chunks[0];
    var rest := if |chunks| == 1 then tail else [seps[0].delim] + seps[0].blanks + ListText(chunks[1..], seps[1..], tail);
    Associative(gap, first, rest);
    assert CleanChunk(first, delimiters);
    if |chunks| == 1 {
      assert vals == [vals[0]];
      ReadValsChunk(gap, first, tail, delimiters);
      if tail != [] {
        ReadBlanks(tail[1..], delimiters);
      }
    } else {
      var sep, more := seps[0], ListText(chunks[1..], seps[1..], tail);
      assert ValidSep(sep, delimiters);
      assert rest[0] == sep.delim && rest[1..] == sep.blanks + more;
      ReadValsChunk(gap, first, rest, delimiters);
      ReadList(sep.blanks, chunks[1..], vals[1..], seps[1..], delimiters, tail);
      assert CleanChunk(chunks[1], delimiters);
      assert sep.blanks + more != [];
      assert [vals[0]] + vals[1..] == vals;
    }
  }

  lemma ReadBlanks(gap: Bytes, delimiters: Bytes)
    requires forall c :: c in gap ==> c in BLANKS
    ensures ReadVals(gap, delimiters) == Fail(OutOfRange)
  {
    hide ReadVals;
    ReadOnlyBlanks(gap, delimiters);
  }

  lemma {:induction false} EntriesRead(es: seq<Entry>, reserved: Bytes, delimiters: Bytes)
    requires Separators(reserved) && forall c :: c in delimiters ==> c in reserved
    ensures |Pairs(es)| == |es|
    ensures forall i :: 0 <= i < |es| ==>
              && CleanChunk(EntryTexts(es, reserved)[i], delimiters)
              && ReadChunk(EntryTexts(es, reserved)[i]) == Ok(Pairs(es)[i])
  {
    hide EntryText, ReadChunk, CleanChunk, Separators;
    if es != [] {
      EntryClean(es[0], reserved, delimiters);
      ReadEntry(es[0], reserved);
      EntriesRead(es[1..], reserved, delimiters);
    }
  }

  /**
   Key/value lists over all byte strings: written with escapes they are read back as they were; closed
   with a delimiter, blanks after it or not, they fail out of range instead.
   */
  lemma ListRoundTrip(es: seq<Entry>, seps: seq<Sep>, delimiters: Bytes, tail: Bytes)
    requires |es| == |seps| + 1 && Separators(delimiters)
    requires forall s :: s in seps ==> ValidSep(s, delimiters)
    requires Closing(tail, delimiters)
    ensures FieldVals(ListText(EntryTexts(es, delimiters), seps, tail), delimiters)
            == if tail == [] then Ok(Pairs(es)) else Fail(OutOfRange)
  {
    hide CleanChunk, ReadChunk, FieldVals, ListText, Pairs;
    EntriesRead(es, delimiters, delimiters);
    var text := ListText(EntryTexts(es, delimiters), seps, tail);
    assert [] + text == text;
    ReadList([], EntryTexts(es, delimiters), Pairs(es), seps, delimiters, tail);
  }

  // ---- What an escaped text and a list of entries hold ----

  /** Unescaping leaves a text alone exactly when it holds no percent sign. */
  lemma UnescapeFixedIff(x: Bytes)
    ensures Unescape(x) == Ok(x) <==> PERCENT !in x
  {
    hide Unescape;
    UnescapeShrinks(x);
    if PERCENT !in x {
      UnescapePlain(x);
    }
  }

  lemma {:induction false} QueryAvoids(es: seq<Entry>, seps: seq<Sep>, reserved: Bytes, c: byte)
    requires |es| == |seps| + 1
    requires c in Reserved(reserved) && c !in BLANKS && c != PERCENT && c != EQUALS && !IsHexDigit(c)
    requires forall s :: s in seps ==> s.delim != c && forall b :: b in s.blanks ==> b in BLANKS
    ensures c !in ListText(EntryTexts(es, reserved), seps, [])
    decreases |es|
  {
    hide EntryText;
    EntryAvoids(es[0], reserved, c);
    if |es| > 1 {
      assert seps[0] in seps;
      QueryAvoids(es[1..], seps[1..], reserved, c);
    }
  }
}
