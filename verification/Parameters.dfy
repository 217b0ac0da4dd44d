/**
 Header values of a word and parameters behind it, such as a disposition or a content type (section 2.1 of RFC 7578):
 written with quotes or without, with either delimiter and any blanks, they are read as what they are.
 */
module Parameters {
  import opened Bytes
  import opened Text
  import opened Requests
  import opened FieldRoundTrips
  import opened Responses

  /** A parameter with the delimiter and the blanks in front of it, its value in quotes or not. */
  datatype Param = Param(sep: Sep, key: Bytes, val: Bytes, quoted: bool)

  /** No line break, escape or delimiter: quotes do not protect a delimiter here. */
  ghost predicate Plain(s: Bytes) {
    OneLine(s) && forall c :: c in s ==> c !in {37, 44, 59}
  }

  /** A parameter that is read as it is written. */
  ghost predicate PlainParam(p: Param) {
    && Plain(p.key) && Plain(p.val) && EQUALS !in p.key && QUOTE !in p.key
    && (p.key == [] || p.key[0] !in BLANKS)
    && (!p.quoted ==> QUOTE !in p.val && (p.val == [] || p.val[|p.val| - 1] !in BLANKS))
  }

  ghost predicate PlainWord(w: Bytes) {
    Plain(w) && w != [] && w[0] !in BLANKS && w[|w| - 1] !in BLANKS && EQUALS !in w && QUOTE !in w
  }

  function ValText(p: Param): (t: Bytes) {
    if p.quoted then [QUOTE] + p.val + [QUOTE] else p.val
  }

  function ParamText(p: Param): (t: Bytes) {
    p.key + [EQUALS] + ValText(p)
  }

  lemma ReadVal(p: Param)
    requires PlainParam(p)
    ensures Unescape(Unquote(ValText(p))) == Ok(p.val) && Unescape(Unquote(p.key)) == Ok(p.key)
  {
    hide Unescape, OneLine;
    if p.quoted {
      assert ValText(p)[1..|ValText(p)| - 1] == p.val;
    } else {
      UnquotePlain(p.val);
    }
    UnquotePlain(p.key);
    UnescapePlain(p.key);
    UnescapePlain(p.val);
  }

  lemma ParamIsClean(p: Param)
    requires PlainParam(p)
    ensures CleanChunk(ParamText(p), [59, 44]) && Plain(ParamText(p))
  {
    var t, v := ParamText(p), ValText(p);
    assert v == [] || v[|v| - 1] !in BLANKS;
    assert forall c :: c in t ==> c in p.key || c in p.val || c == EQUALS || c == QUOTE;
  }

  lemma ReadParam(p: Param)
    requires PlainParam(p)
    ensures CleanChunk(ParamText(p), [59, 44]) && ReadChunk(ParamText(p)) == Ok(Pair(p.key, p.val))
    ensures Plain(ParamText(p))
  {
    hide Unescape, Unquote, FindAny, CleanChunk, Plain, ValText;
    var t := ParamText(p);
    FindByteAfter(p.key, EQUALS, ValText(p));
    assert t[..|p.key|] == p.key && t[|p.key| + 1..] == ValText(p);
    ReadVal(p);
    ParamIsClean(p);
  }

  lemma ReadPlainWord(w: Bytes)
    requires PlainWord(w)
    ensures CleanChunk(w, [59, 44]) && ReadChunk(w) == Ok(Single(w))
  {
    hide Unescape, FindAny;
    FindByteNone(w, EQUALS);
    UnquotePlain(w);
    UnescapePlain(w);
  }

  /** A value: the word and its parameters. */
  datatype Value = Value(word: Bytes, params: seq<Param>)

  ghost predicate PlainValue(v: Value) {
    PlainWord(v.word) && forall p :: p in v.params ==> PlainParam(p) && ValidSep(p.sep, [59, 44])
  }

  function Chunks(v: Value): (r: seq<Bytes>)
    ensures |r| == |v.params| + 1 && r[0] == v.word
    ensures forall i :: 0 <= i < |v.params| ==> r[i + 1] == ParamText(v.params[i])
  {
    [v.word] + seq(|v.params|, i requires 0 <= i < |v.params| => ParamText(v.params[i]))
  }

  function Seps(v: Value): (r: seq<Sep>)
    ensures |r| == |v.params|
    ensures forall i :: 0 <= i < |v.params| ==> r[i] == v.params[i].sep
  {
    seq(|v.params|, i requires 0 <= i < |v.params| => v.params[i].sep)
  }

  function ValueText(v: Value): (t: Bytes) {
    ListText(Chunks(v), Seps(v), [])
  }

  /** What a value is read as: its word, and every parameter with its key and its value, in order. */
  function Parts(v: Value): (r: seq<FieldVal>)
    ensures |r| == |v.params| + 1 && r[0] == Single(v.word)
    ensures forall i :: 0 <= i < |v.params| ==> r[i + 1] == Pair(v.params[i].key, v.params[i].val)
  {
    [Single(v.word)] + seq(|v.params|, i requires 0 <= i < |v.params| => Pair(v.params[i].key, v.params[i].val))
  }

  lemma ChunksRead(v: Value)
    requires PlainValue(v)
    ensures forall i :: 0 <= i < |Chunks(v)| ==>
              CleanChunk(Chunks(v)[i], [59, 44]) && ReadChunk(Chunks(v)[i]) == Ok(Parts(v)[i]) && Plain(Chunks(v)[i])
  {
    hide ReadChunk, CleanChunk, Plain, PlainParam, PlainWord, ParamText;
    forall i | 0 <= i < |Chunks(v)|
      ensures CleanChunk(Chunks(v)[i], [59, 44]) && ReadChunk(Chunks(v)[i]) == Ok(Parts(v)[i]) && Plain(Chunks(v)[i])
    {
      if i == 0 {
        ReadPlainWord(v.word);
        WordIsPlain(v.word);
      } else {
        assert v.params[i - 1] in v.params;
        ReadParam(v.params[i - 1]);
        assert Chunks(v)[i - 1 + 1] == ParamText(v.params[i - 1]);
      }
    }
  }

  lemma WordIsPlain(w: Bytes)
    requires PlainWord(w)
    ensures Plain(w)
  {
  }

  lemma SepsAreValid(v: Value)
    requires PlainValue(v)
    ensures forall s :: s in Seps(v) ==> ValidSep(s, [59, 44])
  {
    hide ValidSep, PlainParam, PlainWord;
    forall s | s in Seps(v)
      ensures ValidSep(s, [59, 44])
    {
      var i :| 0 <= i < |Seps(v)| && Seps(v)[i] == s;
      assert v.params[i] in v.params;
    }
  }

  /** A plain value is read as its parts. */
  lemma ReadValue(v: Value)
    requires PlainValue(v)
    ensures FieldVals(ValueText(v), [59, 44]) == Ok(Parts(v))
  {
    hide ReadChunk, CleanChunk, FieldVals, ListText, Chunks, Parts;
    ChunksRead(v);
    assert [] + ValueText(v) == ValueText(v);
    SepsAreValid(v);
    ReadList([], Chunks(v), Parts(v), Seps(v), [59, 44], []);
  }

  /** It stands on one line, without blanks at its ends. */
  lemma ValueIsClean(v: Value)
    requires PlainValue(v)
    ensures CleanValue(ValueText(v))
  {
    hide ReadChunk, ListText, Chunks, Parts, ParamText;
    ChunksRead(v);
    var cs := Chunks(v);
    assert CleanChunk(cs[0], [59, 44]) && CleanChunk(cs[|cs| - 1], [59, 44]);
    ListEnds(cs, Seps(v));
    SepsAreValid(v);
    forall s | s in Seps(v)
      ensures s.delim in [59, 44] && forall b :: b in s.blanks ==> b in BLANKS
    {
      assert ValidSep(s, [59, 44]);
    }
    ListAvoids(cs, Seps(v), CR);
    ListAvoids(cs, Seps(v), LF);
    ListAvoids(cs, Seps(v), PERCENT);
  }
}
