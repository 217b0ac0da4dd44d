/** url_unescape, from the digits on: which texts it reads, what it makes of them, and how it fails on all others. */
module Escapes {
  import opened Bytes
  import opened Text
  import opened Requests
  import opened FieldRoundTrips

  /** A hexadecimal digit, in either letter case: '0' to '9', 'A' to 'F' and 'a' to 'f'. */
  predicate Hex(c: byte, v: int) {
    (0 <= v < 10 && c == 48 + v) || (10 <= v < 16 && (c == 65 + (v - 10) || c == 97 + (v - 10)))
  }

  ghost predicate NoHex(c: byte) {
    forall v: int :: !Hex(c, v)
  }

  /** The digits have their values, and no other byte is a digit. */
  lemma HexValues(c: byte)
    ensures forall v: int :: Hex(c, v) <==> HexValue(c) == v != -1
    ensures HexValue(c) == -1 <==> NoHex(c)
  {
    if HexValue(c) != -1 {
      assert Hex(c, HexValue(c));
    }
  }

  /** What two bytes behind a percent sign mean: two digits, one digit and anything else, or a minus sign and a digit. */
  ghost predicate Means(a: byte, b: byte, v: byte) {
    || (exists x, y: int :: Hex(a, x) && Hex(b, y) && v == 16 * x + y)
    || (NoHex(b) && Hex(a, v))
    || (a == 45 && exists y: int :: Hex(b, y) && v == if y == 0 then 0 else 256 - y)
  }

  lemma PairMeans(a: byte, b: byte)
    ensures HexPair(a, b).None? <==> forall v: byte :: !Means(a, b, v)
    ensures forall v: byte :: Means(a, b, v) <==> HexPair(a, b) == Some(v)
  {
    hide HexValue, Hex, NoHex;
    var x, y, p := HexValue(a), HexValue(b), HexPair(a, b);
    HexValues(a);
    HexValues(b);
    MinusIsNoDigit();
    if p.Some? {
      assert y != -1 ==> Hex(b, y);
      assert x != -1 ==> Hex(a, x);
      assert Means(a, b, p.value);
    }
  }

  lemma MinusIsNoDigit()
    ensures HexValue(45) == -1 && DASH == 45 && PERCENT == 37
  {
  }

  /** `t` is a way to write `x`: bytes other than the percent sign as they are, any byte as an escape. */
  ghost predicate Spells(t: Bytes, x: Bytes)
    decreases |t|
  {
    if t == [] then x == []
    else if t[0] != 37 then x != [] && x[0] == t[0] && Spells(t[1..], x[1..])
    else |t| >= 3 && x != [] && Means(t[1], t[2], x[0]) && Spells(t[3..], x[1..])
  }

  lemma ReadOne(a: byte, b: byte, v: byte, z: Bytes)
    requires Means(a, b, v)
    ensures Unescape([37, a, b] + z) == Prepend([v], Unescape(z))
  {
    hide HexPair, FindAny, Means;
    PairMeans(a, b);
    MinusIsNoDigit();
    var s := [37, a, b] + z;
    assert s[0] == PERCENT;
    assert FindByte(s, PERCENT, 0) == 0;
    assert s[3..] == z && s[..0] + [v] == [v];
    UnescapeStep(s, 0, v);
  }

  /** Every way to write a text is read back, whatever follows it, well-formed or not. */
  lemma {:induction false} SpellingReads(t: Bytes, x: Bytes, y: Bytes)
    requires Spells(t, x)
    ensures Unescape(t + y) == Prepend(x, Unescape(y))
    decreases |t|
  {
    hide Unescape, Means;
    if t == [] {
      PrependNothing(Unescape(y));
      assert t + y == y;
    } else {
      var n := if t[0] != 37 then 1 else 3;
      SpellingReads(t[n..], x[1..], y);
      PrependTwice([x[0]], x[1..], Unescape(y));
      assert [x[0]] + x[1..] == x;
      assert t + y == t[..n] + (t[n..] + y);
      if t[0] != 37 {
        assert t[..1] == [t[0]];
        UnescapeLiteral(t[0], t[1..] + y);
      } else {
        assert t[..3] == [37, t[1], t[2]];
        ReadOne(t[1], t[2], x[0], t[3..] + y);
      }
    }
  }

  /** A text is read as `x` if and only if it is a way to write `x`. */
  lemma {:induction false} UnescapeIff(t: Bytes, x: Bytes)
    ensures Unescape(t) == Ok(x) <==> Spells(t, x)
    decreases |t|
  {
    hide Unescape, Means;
    if Spells(t, x) {
      SpellingReads(t, x, []);
      assert t + [] == t && x + [] == x;
      UnescapePlain([]);
    } else if t == [] {
      UnescapePlain([]);
    } else if t[0] != 37 {
      assert t == [t[0]] + t[1..];
      UnescapeLiteral(t[0], t[1..]);
      if Unescape(t) == Ok(x) {
        assert x == [t[0]] + x[1..];
        UnescapeIff(t[1..], x[1..]);
      }
    } else {
      EscapeFails(t);
      if Unescape(t) == Ok(x) {
        var v := HexPair(t[1], t[2]).value;
        PairMeans(t[1], t[2]);
        assert t == [37, t[1], t[2]] + t[3..];
        ReadOne(t[1], t[2], v, t[3..]);
        assert x == [v] + x[1..];
        UnescapeIff(t[3..], x[1..]);
      }
    }
  }

  /** A percent sign that begins no escape, and the failure it leads to. */
  ghost predicate Broken(y: Bytes, e: Error) {
    && y != [] && y[0] == 37
    && if |y| == 1 then e == BadRequest
       else if |y| == 2 then e == if NoHex(y[1]) then BadRequest else OutOfRange
       else e == BadRequest && forall v: byte :: !Means(y[1], y[2], v)
  }

  lemma EscapeFails(y: Bytes)
    requires y != [] && y[0] == 37
    ensures |y| < 3 || HexPair(y[1], y[2]).None? <==> exists e :: Broken(y, e)
    ensures forall e :: Broken(y, e) ==> Unescape(y) == Fail(e)
  {
    hide HexPair, HexValue, FindAny, Means, Unescape;
    MinusIsNoDigit();
    assert FindByte(y, PERCENT, 0) == 0;
    UnescapeCases(y);
    if |y| >= 3 {
      PairMeans(y[1], y[2]);
      assert HexPair(y[1], y[2]).None? ==> Broken(y, BadRequest);
    } else if |y| == 2 {
      HexValues(y[1]);
      assert Broken(y, if NoHex(y[1]) then BadRequest else OutOfRange);
    } else {
      assert Broken(y, BadRequest);
    }
  }

  /** A text fails in a way if and only if, behind a readable part, a percent sign fails in that way. */
  lemma {:induction false} UnescapeFailsIff(t: Bytes, e: Error)
    ensures Unescape(t) == Fail(e) <==> exists k, x :: 0 <= k < |t| && Spells(t[..k], x) && Broken(t[k..], e)
    decreases |t|
  {
    hide Unescape, Means, Broken;
    if k, x :| 0 <= k < |t| && Spells(t[..k], x) && Broken(t[k..], e) {
      SpellingReads(t[..k], x, t[k..]);
      assert t[..k] + t[k..] == t;
      BrokenStarts(t[k..], e);
      EscapeFails(t[k..]);
    }
    if Unescape(t) == Fail(e) {
      var k, x := FirstBroken(t, e);
    }
  }

  lemma BrokenStarts(y: Bytes, e: Error)
    requires Broken(y, e)
    ensures y != [] && y[0] == 37
  {
  }

  lemma {:induction false} FirstBroken(t: Bytes, e: Error) returns (k: nat, x: Bytes)
    requires Unescape(t) == Fail(e)
    ensures k < |t| && Spells(t[..k], x) && Broken(t[k..], e)
    decreases |t|
  {
    hide Unescape, Means, Broken;
    k, x := 0, [];
    if t == [] {
      UnescapePlain([]);
    } else if t[0] != 37 {
      assert t == [t[0]] + t[1..];
      UnescapeLiteral(t[0], t[1..]);
      k, x := FirstBroken(t[1..], e);
      assert t[..k + 1][1..] == t[1..][..k] && t[k + 1..] == t[1..][k..];
      assert ([t[0]] + x)[1..] == x;
      k, x := k + 1, [t[0]] + x;
    } else {
      EscapeFails(t);
      if f :| Broken(t, f) {
        assert t[0..] == t && t[..0] == [];
      } else {
        PairMeans(t[1], t[2]);
        var v := HexPair(t[1], t[2]).value;
        assert t == [37, t[1], t[2]] + t[3..];
        ReadOne(t[1], t[2], v, t[3..]);
        k, x := FirstBroken(t[3..], e);
        assert t[..k + 3][3..] == t[3..][..k] && t[k + 3..] == t[3..][k..];
        assert ([v] + x)[1..] == x;
        k, x := k + 3, [v] + x;
      }
    }
  }
}
