/**
 base64.cpp: two loops that regroup bits through an accumulator of 32 bits that wraps around, proved against the
 regrouping of bit strings that section 4 of RFC 4648 describes, and the round trip through both of them.
 */
module Base64 {
  import opened Bytes

  type Bits = seq<bool>

  const PAD: byte := 61   // '='
  const FIRST: byte := 43 // '+'
  const LAST: byte := 122 // 'z'
  const NONE: int := 255

  /** The encoding alphabet: "A-Za-z0-9+/". */
  function Letter(i: nat): (c: byte)
    requires i < 64
  {
    if i < 26 then 65 + i
    else if i < 52 then 97 + (i - 26)
    else if i < 62 then 48 + (i - 52)
    else if i == 62 then 43
    else 47
  }

  /** The decoding table, indexed from '+' to 'z'; besides the alphabet it accepts '-', '_' and '<'. */
  function Lookup(i: nat): (v: int)
    requires i <= LAST - FIRST
    ensures v == NONE || 0 <= v < 64
  {
    var c := i + FIRST;
    if c == 43 || c == 45 then 62        // '+' and '-'
    else if c == 47 || c == 95 then 63   // '/' and '_'
    else if 48 <= c <= 57 then 52 + (c - 48)
    else if c == 60 then 0               // '<'
    else if 65 <= c <= 90 then c - 65
    else if 97 <= c <= 122 then 26 + (c - 97)
    else NONE
  }

  // ---- Bit strings ----

  /** `n` in `k` bits, most significant bit first. */
  function ToBits(n: nat, k: nat): (r: Bits)
    ensures |r| == k
  {
    if k == 0 then [] else ToBits(n / 2, k - 1) + [n % 2 == 1]
  }

  function Num(b: Bits): (n: nat)
    ensures n < Pow2(|b|)
  {
    if b == [] then 0 else 2 * Num(b[..|b| - 1]) + (if b[|b| - 1] then 1 else 0)
  }

  function Zeros(k: nat): (r: Bits)
    ensures |r| == k
  {
    seq(k, _ => false)
  }

  /** The numbers of a list, each spelled in `w` bits. */
  function Spell(q: seq<nat>, w: nat): (r: Bits)
    ensures |r| == |q| * w
  {
    if q == [] then [] else ToBits(q[0], w) + Spell(q[1..], w)
  }

  /** The numbers of the successive complete groups of `w` bits; bits left over are dropped. */
  function Groups(b: Bits, w: nat): (r: seq<nat>)
    requires w > 0
    ensures forall i :: 0 <= i < |r| ==> r[i] < Pow2(w)
  {
    if |b| < w then [] else [Num(b[..w])] + Groups(b[w..], w)
  }

  /** How many sextets `n` bytes need. */
  function SextetCount(n: nat): (r: nat) {
    4 * (n / 3) + if n % 3 == 0 then 0 else n % 3 + 1
  }

  /** The zero bits that complete the last sextet of an `n`-byte string. */
  function Fill(n: nat): (r: Bits)
    ensures |r| < 6 && 8 * n + |r| == 6 * SextetCount(n)
  {
    Zeros(if n % 3 == 0 then 0 else if n % 3 == 1 then 4 else 2)
  }

  function Sextets(s: Bytes): (r: seq<nat>)
    ensures forall i :: 0 <= i < |r| ==> r[i] < 64
  {
    Pow2Values();
    Groups(Spell(s, 8) + Fill(|s|), 6)
  }

  function Chars(q: seq<nat>): (r: Bytes)
    requires forall i :: 0 <= i < |q| ==> q[i] < 64
    ensures |r| == |q|
  {
    seq(|q|, i requires 0 <= i < |q| => Letter(q[i]))
  }

  function Padding(n: nat): (r: Bytes)
    ensures |r| == (4 - n % 4) % 4
  {
    seq((4 - n % 4) % 4, _ => PAD)
  }

  /** RFC 4648, section 4: regroup, translate, fill up with '='. */
  function Encoded(s: Bytes): (r: Bytes) {
    var c := Chars(Sextets(s));
    c + Padding(|c|)
  }

  /** The value of one character, or NONE. */
  function Digit(c: byte): (r: int)
    ensures r == NONE || 0 <= r < 64
  {
    if c < FIRST || c > LAST then NONE else Lookup(c - FIRST)
  }

  /** The digits before the first character that is not one. */
  function Digits(t: Bytes): (r: seq<nat>)
    ensures forall i :: 0 <= i < |r| ==> r[i] < 64
  {
    if t == [] || Digit(t[0]) == NONE then [] else [Digit(t[0])] + Digits(t[1..])
  }

  function Decoded(t: Bytes): (r: Bytes) {
    Pow2Values();
    Groups(Spell(Digits(t), 6), 8)
  }

  // ---- Facts about bit strings ----

  lemma Pow2Values()
    ensures Pow2(0) == 1 && Pow2(2) == 4 && Pow2(4) == 16 && Pow2(6) == 64 && Pow2(8) == 256
    ensures Pow2(32) == 0x1_0000_0000
  {
    Pow2Add(8, 8);
    Pow2Add(16, 16);
  }

  lemma {:induction false} Pow2Add(a: nat, b: nat)
    ensures Pow2(a + b) == Pow2(a) * Pow2(b)
  {
    if a > 0 {
      Pow2Add(a - 1, b);
    }
  }

  lemma {:induction false} NumAppend(a: Bits, b: Bits)
    ensures Num(a + b) == Num(a) * Pow2(|b|) + Num(b)
  {
    if b == [] {
      assert a + b == a;
    } else {
      var p, n := b[..|b| - 1], |b| - 1;
      var ab := a + b;
      assert ab[..|ab| - 1] == a + p;
      NumAppend(a, p);
      Doubled(Num(a), Pow2(n));
    }
  }

  lemma Doubled(x: int, y: int)
    ensures x * (2 * y) == 2 * (x * y)
  {
  }

  lemma {:induction false} NumToBits(n: nat, k: nat)
    requires n < Pow2(k)
    ensures Num(ToBits(n, k)) == n
  {
    if k > 0 {
      NumToBits(n / 2, k - 1);
      assert ToBits(n, k)[..k - 1] == ToBits(n / 2, k - 1);
    }
  }

  lemma {:induction false} ToBitsNum(b: Bits)
    ensures ToBits(Num(b), |b|) == b
  {
    if b != [] {
      var p := b[..|b| - 1];
      ToBitsNum(p);
      assert Num(b) / 2 == Num(p);
      assert b == p + [b[|b| - 1]];
    }
  }

  lemma {:induction false} NumZeros(k: nat)
    ensures Num(Zeros(k)) == 0
  {
    if k > 0 {
      assert Zeros(k)[..k - 1] == Zeros(k - 1);
      NumZeros(k - 1);
    }
  }

  /** Cutting `n` whole groups and spelling them out again gives the bits back. */
  lemma {:induction false} GroupsSpell(b: Bits, w: nat, n: nat)
    requires w > 0 && |b| == n * w
    ensures Spell(Groups(b, w), w) == b && |Groups(b, w)| == n
  {
    hide Num, ToBits, Pow2;
    if n > 0 {
      assert n * w == (n - 1) * w + w;
      GroupsSpell(b[w..], w, n - 1);
      ToBitsNum(b[..w]);
      assert b == b[..w] + b[w..];
      assert Groups(b, w)[1..] == Groups(b[w..], w);
    }
  }

  lemma {:induction false} SpellGroups(q: seq<nat>, w: nat, tail: Bits)
    requires |tail| < w
    requires forall i :: 0 <= i < |q| ==> q[i] < Pow2(w)
    ensures Groups(Spell(q, w) + tail, w) == q
  {
    var b := Spell(q, w) + tail;
    if q == [] {
      assert b == tail;
    } else {
      assert b[..w] == ToBits(q[0], w);
      assert b[w..] == Spell(q[1..], w) + tail;
      NumToBits(q[0], w);
      SpellGroups(q[1..], w, tail);
    }
  }

  lemma {:induction false} GroupsAppend(a: Bits, b: Bits, w: nat, n: nat)
    requires w > 0 && |a| == n * w
    ensures Groups(a + b, w) == Groups(a, w) + Groups(b, w)
  {
    if n == 0 {
      assert a + b == b;
    } else {
      assert n * w == (n - 1) * w + w;
      assert (a + b)[..w] == a[..w] && (a + b)[w..] == a[w..] + b;
      GroupsAppend(a[w..], b, w, n - 1);
    }
  }

  lemma {:induction false} SpellAppend(q: seq<nat>, r: seq<nat>, w: nat)
    ensures Spell(q + r, w) == Spell(q, w) + Spell(r, w)
  {
    if q == [] {
      assert q + r == r;
    } else {
      assert (q + r)[1..] == q[1..] + r;
      SpellAppend(q[1..], r, w);
    }
  }

  lemma {:induction false} DigitsOfChars(q: seq<nat>, tail: Bytes)
    requires forall i :: 0 <= i < |q| ==> q[i] < 64
    requires tail == [] || Digit(tail[0]) == NONE
    ensures Digits(Chars(q) + tail) == q
  {
    var t := Chars(q) + tail;
    if q == [] {
      assert t == tail;
    } else {
      assert Digit(t[0]) == q[0];
      assert t[1..] == Chars(q[1..]) + tail;
      DigitsOfChars(q[1..], tail);
    }
  }

  lemma SextetsSpell(s: Bytes)
    ensures |Sextets(s)| == SextetCount(|s|)
    ensures Spell(Sextets(s), 6) == Spell(s, 8) + Fill(|s|)
  {
    GroupsSpell(Spell(s, 8) + Fill(|s|), 6, SextetCount(|s|));
  }

  // ---- Main results ----

  /** Decoding undoes encoding, for every byte string. */
  lemma RoundTrip(s: Bytes)
    ensures Decoded(Encoded(s)) == s
  {
    Pow2Values();
    var q := Sextets(s);
    DigitsOfChars(q, Padding(|q|));
    SextetsSpell(s);
    SpellGroups(s, 8, Fill(|s|));
  }

  lemma SextetsAppend(s: Bytes, t: Bytes)
    requires |s| % 3 == 0
    ensures Sextets(s + t) == Sextets(s) + Sextets(t)
  {
    var a, b, f := Spell(s, 8), Spell(t, 8), Fill(|t|);
    SpellAppend(s, t, 8);
    assert (s + t) != s || t == [];
    assert |s + t| % 3 == |t| % 3;
    assert a + Fill(|s|) == a && (a + b) + f == a + (b + f);
    GroupsAppend(a, b + f, 6, SextetCount(|s|));
  }

  lemma PaddingAppend(q: seq<nat>, r: seq<nat>)
    requires forall i :: 0 <= i < |q| ==> q[i] < 64
    requires forall i :: 0 <= i < |r| ==> r[i] < 64
    requires |q| % 4 == 0
    ensures Chars(q + r) + Padding(|q + r|) == (Chars(q) + Padding(|q|)) + (Chars(r) + Padding(|r|))
  {
    assert Chars(q + r) == Chars(q) + Chars(r);
    assert Padding(|q|) == [] && Padding(|q + r|) == Padding(|r|);
  }

  /** Whole groups of three bytes encode on their own. */
  lemma EncodedAppend(s: Bytes, t: Bytes)
    requires |s| % 3 == 0
    ensures Encoded(s + t) == Encoded(s) + Encoded(t)
  {
    hide Sextets, Chars, Padding;
    SextetsAppend(s, t);
    SextetsSpell(s);
    PaddingAppend(Sextets(s), Sextets(t));
  }

  /** Four characters for every three bytes begun, of which the last (3 - n % 3) % 3 and no others are '='. */
  lemma EncodedShape(s: Bytes)
    ensures |Encoded(s)| == 4 * ((|s| + 2) / 3)
    ensures forall i :: 0 <= i < |Encoded(s)| ==>
              (Encoded(s)[i] == PAD <==> i >= |Encoded(s)| - (3 - |s| % 3) % 3)
  {
    SextetsSpell(s);
    PaddedShape(Sextets(s), |s|);
  }

  lemma PaddedShape(q: seq<nat>, n: nat)
    requires forall i :: 0 <= i < |q| ==> q[i] < 64
    requires |q| == SextetCount(n)
    ensures var r := Chars(q) + Padding(|q|);
            && |r| == 4 * ((n + 2) / 3)
            && forall i :: 0 <= i < |r| ==> (r[i] == PAD <==> i >= |r| - (3 - n % 3) % 3)
  {
    var k := n / 3;
    assert n == 3 * k + n % 3;
    assert |Padding(|q|)| == (3 - n % 3) % 3;
    assert forall i :: 0 <= i < |q| ==> Chars(q)[i] == Letter(q[i]) != PAD;
  }

  // ---- The loops ----

  /** `x << k` on a 32-bit two's complement integer. */
  function ShiftLeft(x: int, k: nat): int {
    ToInt32(x * Pow2(k))
  }

  /** `x >> k`: the sign is kept, so it rounds down. */
  function ShiftRight(x: int, k: nat): int {
    x / Pow2(k)
  }

  /** The low end of the accumulator holds the pending bits, the rest of it anything. */
  ghost predicate Holds(val: int, high: int, pending: Bits) {
    val == high * Pow2(|pending|) + Num(pending)
  }

  lemma Rearrange(h: int, a: int, p: int, b: int, w: int, r: int)
    ensures (h * a + p) * b - w * ((a * b) * r) == (h - w * r) * (a * b) + p * b
  {
    assert (h * a + p) * b == h * (a * b) + p * b;
    assert w * ((a * b) * r) == (w * r) * (a * b);
    assert (h - w * r) * (a * b) == h * (a * b) - (w * r) * (a * b);
  }

  /** Shifting bits in keeps the pending ones, wrap-around or not, as long as they all fit in 32 bits. */
  lemma ShiftIn(val: int, high: int, pending: Bits, more: Bits) returns (high': int)
    requires Holds(val, high, pending)
    requires |pending| + |more| <= 32
    ensures Holds(ShiftLeft(val, |more|) + Num(more), high', pending + more)
  {
    var n, k := |pending|, |more|;
    var a, b, r := Pow2(n), Pow2(k), Pow2(32 - n - k);
    var x := val * b;
    var wraps := (x + 0x8000_0000) / 0x1_0000_0000;
    assert (a * b) * r == 0x1_0000_0000 by {
      Pow2Add(n, k);
      Pow2Add(n + k, 32 - n - k);
      Pow2Values();
    }
    assert ToInt32(x) == x - wraps * 0x1_0000_0000;
    high' := high - wraps * r;
    Rearrange(high, a, Num(pending), b, wraps, r);
    NumAppend(pending, more);
    Pow2Add(n, k);
  }

  /** Taking the top `k` pending bits out. */
  lemma TakeTop(val: int, high: int, pending: Bits, k: nat) returns (high': int)
    requires Holds(val, high, pending)
    requires k <= |pending|
    ensures ShiftRight(val, |pending| - k) % Pow2(k) == Num(pending[..k])
    ensures Holds(val, high', pending[k..])
  {
    var top, low := pending[..k], pending[k..];
    var l, t := Pow2(|low|), Pow2(k);
    assert pending == top + low;
    NumAppend(top, low);
    Pow2Add(k, |low|);
    high' := high * t + Num(top);
    Regroup(high, t, l, Num(top), Num(low));
    DivideExact(high', l, Num(low));
    DivideExact(high, t, Num(top));
  }

  lemma Regroup(h: int, t: int, l: int, top: int, low: int)
    ensures h * (t * l) + (top * l + low) == (h * t + top) * l + low
  {
    assert h * (t * l) == (h * t) * l;
    assert (h * t + top) * l == (h * t) * l + top * l;
  }

  /** The first group of a string with a whole group pending. */
  lemma SplitGroup(pending: Bits, rest: Bits, w: nat)
    requires 0 < w <= |pending|
    ensures Groups(pending + rest, w) == [Num(pending[..w])] + Groups(pending[w..] + rest, w)
  {
    var b := pending + rest;
    assert b[..w] == pending[..w] && b[w..] == pending[w..] + rest;
  }

  lemma SpellNext(q: seq<nat>, i: nat, w: nat, tail: Bits)
    requires i < |q|
    ensures Spell(q[i..], w) + tail == ToBits(q[i], w) + (Spell(q[i + 1..], w) + tail)
  {
    assert q[i..][1..] == q[i + 1..];
  }

  lemma CharsNext(n: nat, q: seq<nat>)
    requires n < 64
    requires forall i :: 0 <= i < |q| ==> q[i] < 64
    ensures Chars([n] + q) == [Letter(n)] + Chars(q)
  {
  }

  /** State of the encoder: what is out, what the accumulator holds, what is still to come. */
  ghost predicate Encoding(s: Bytes, out: Bytes, val: int, high: int, pending: Bits, rest: Bits) {
    && Holds(val, high, pending)
    && (forall n :: n in Groups(pending + rest, 6) ==> n < 64)
    && Chars(Sextets(s)) == out + Chars(Groups(pending + rest, 6))
  }

  /** One byte enters the accumulator. */
  lemma EncodeShift(s: Bytes, out: Bytes, val: int, high: int, pending: Bits, b: byte, rest: Bits) returns (high': int)
    requires |pending| < 6
    requires Encoding(s, out, val, high, pending, ToBits(b, 8) + rest)
    ensures Encoding(s, out, ShiftLeft(val, 8) + b, high', pending + ToBits(b, 8), rest)
  {
    Pow2Values();
    NumToBits(b, 8);
    high' := ShiftIn(val, high, pending, ToBits(b, 8));
    Associative(pending, ToBits(b, 8), rest);
  }

  /** One character leaves it. */
  lemma EncodeEmit(s: Bytes, out: Bytes, val: int, high: int, pending: Bits, rest: Bits) returns (high': int)
    requires |pending| >= 6
    requires Encoding(s, out, val, high, pending, rest)
    ensures var n := ShiftRight(val, |pending| - 6) % 64;
            Encoding(s, out + [Letter(n)], val, high', pending[6..], rest)
  {
    Pow2Values();
    high' := TakeTop(val, high, pending, 6);
    SplitGroup(pending, rest, 6);
    var n, q := Num(pending[..6]), Groups(pending[6..] + rest, 6);
    forall m | m in q
      ensures m < 64
    {
      assert m in [n] + q;
    }
    CharsNext(n, q);
  }

  method Encode(s: Bytes) returns (out: Bytes)
    ensures out == Encoded(s)
  {
    hide ToInt32, Pow2, Num, ToBits, Holds, Encoding, ShiftLeft, ShiftRight, Letter, Sextets;
    out := [];
    if s == [] {
      EncodeEmpty();
      return;
    }
    var val, valb := 0, -6;
    ghost var pending: Bits, high := [], 0;
    ghost var fill, left := Fill(|s|), SextetCount(|s|);
    EncodeStart(s);
    for i := 0 to |s|
      invariant -6 <= valb < 0 && |pending| == valb + 6
      invariant |pending| + 8 * (|s| - i) + |fill| == 6 * left
      invariant Encoding(s, out, val, high, pending, Spell(s[i..], 8) + fill)
    {
      ghost var rest := Spell(s[i + 1..], 8) + fill;
      SpellNext(s, i, 8, fill);
      high := EncodeShift(s, out, val, high, pending, s[i], rest);
      val := ShiftLeft(val, 8) + s[i];
      pending := pending + ToBits(s[i], 8);
      valb := valb + 8;
      while valb >= 0
        invariant -6 <= valb && |pending| == valb + 6
        invariant |pending| + 8 * (|s| - i - 1) + |fill| == 6 * left
        invariant Encoding(s, out, val, high, pending, rest)
      {
        high := EncodeEmit(s, out, val, high, pending, rest);
        out := out + [Letter(ShiftRight(val, valb) % 64)];
        pending := pending[6..];
        valb := valb - 6;
        left := left - 1;
      }
    }
    assert Spell(s[|s|..], 8) + fill == fill;
    if valb > -6 {
      EncodeLast(s, out, val, high, pending);
      out := out + [Letter(ShiftRight(ShiftLeft(val, 8), valb + 8) % 64)];
    } else {
      EncodeDone(s, out, val, high, pending);
    }
    out := FillUp(out);
  }

  lemma EncodeEmpty()
    ensures Encoded([]) == []
  {
  }

  lemma EncodeDone(s: Bytes, out: Bytes, val: int, high: int, pending: Bits)
    requires pending == [] && Fill(|s|) == []
    requires Encoding(s, out, val, high, pending, Fill(|s|))
    ensures out == Chars(Sextets(s))
  {
    hide Sextets, Num, Pow2, Letter;
    var b := pending + Fill(|s|);
    assert b == [];
  }

  /** The last loop of base64_encode. */
  method FillUp(all: Bytes) returns (out: Bytes)
    ensures out == all + Padding(|all|)
  {
    out := all;
    while |out| % 4 != 0
      invariant |all| <= |out| <= |all| + |Padding(|all|)|
      invariant out == all + Padding(|all|)[..|out| - |all|]
      decreases |all| + 4 - |out|
    {
      out := out + [PAD];
    }
  }

  lemma EncodeStart(s: Bytes)
    ensures Encoding(s, [], 0, 0, [], Spell(s[0..], 8) + Fill(|s|))
  {
    var b := Spell(s, 8) + Fill(|s|);
    assert s[0..] == s && [] + b == b;
    Pow2Values();
    forall n | n in Groups(b, 6)
      ensures n < 64
    {
    }
  }

  /** The final shift by eight completes the last sextet with zero bits. */
  lemma EncodeLast(s: Bytes, out: Bytes, val: int, high: int, pending: Bits)
    requires 0 < |pending| < 6 && |pending| + |Fill(|s|)| == 6
    requires Encoding(s, out, val, high, pending, Fill(|s|))
    ensures Chars(Sextets(s)) == out + [Letter(ShiftRight(ShiftLeft(val, 8), |pending| + 2) % 64)]
  {
    Pow2Values();
    NumZeros(8);
    var high1 := ShiftIn(val, high, pending, Zeros(8));
    var filled := pending + Zeros(8);
    var high2 := TakeTop(ShiftLeft(val, 8), high1, filled, 6);
    var n := Num(filled[..6]);
    var last := filled[..6];
    assert last == pending + Fill(|s|);
    assert last[..6] == last && last[6..] == [];
    assert Groups(last, 6) == [n] + Groups([], 6);
    CharsNext(n, []);
  }

  /** State of the decoder. */
  ghost predicate Decoding(t: Bytes, out: Bytes, val: int, high: int, pending: Bits, rest: Bits) {
    && Holds(val, high, pending)
    && Decoded(t) == out + Groups(pending + rest, 8)
  }

  lemma DecodeShift(t: Bytes, out: Bytes, val: int, high: int, pending: Bits, v: nat, rest: Bits) returns (high': int)
    requires |pending| < 8 && v < 64
    requires Decoding(t, out, val, high, pending, ToBits(v, 6) + rest)
    ensures Decoding(t, out, ShiftLeft(val, 6) + v, high', pending + ToBits(v, 6), rest)
  {
    Pow2Values();
    NumToBits(v, 6);
    high' := ShiftIn(val, high, pending, ToBits(v, 6));
    Associative(pending, ToBits(v, 6), rest);
  }

  lemma DecodeEmit(t: Bytes, out: Bytes, val: int, high: int, pending: Bits, rest: Bits) returns (high': int)
    requires |pending| >= 8
    requires Decoding(t, out, val, high, pending, rest)
    ensures Decoding(t, out + [ShiftRight(val, |pending| - 8) % 256], val, high', pending[8..], rest)
  {
    Pow2Values();
    high' := TakeTop(val, high, pending, 8);
    SplitGroup(pending, rest, 8);
  }

  lemma DecodeStop(t: Bytes, out: Bytes, val: int, high: int, pending: Bits)
    requires |pending| < 8
    requires Decoding(t, out, val, high, pending, [])
    ensures out == Decoded(t)
  {
    assert pending + [] == pending;
  }

  lemma DigitsNext(t: Bytes, i: nat)
    requires i < |t|
    ensures Spell(Digits(t[i..]), 6) ==
            if Digit(t[i]) == NONE then [] else ToBits(Digit(t[i]), 6) + Spell(Digits(t[i + 1..]), 6)
  {
    assert t[i..][1..] == t[i + 1..];
    var d := Digits(t[i + 1..]);
    if Digit(t[i]) != NONE {
      assert ([Digit(t[i])] + d)[1..] == d;
    }
  }

  lemma DecodeStart(t: Bytes)
    ensures Decoding(t, [], 0, 0, [], Spell(Digits(t[0..]), 6))
  {
    var b := Spell(Digits(t), 6);
    assert t[0..] == t && [] + b == b;
  }

  method Decode(t: Bytes) returns (out: Bytes)
    ensures out == Decoded(t)
  {
    hide ToInt32, Pow2, Num, ToBits, Holds, Decoding, ShiftLeft, ShiftRight, Decoded;
    out := [];
    var val, valb := 0, -8;
    ghost var pending: Bits, high := [], 0;
    DecodeStart(t);
    for i := 0 to |t|
      invariant -8 <= valb < 0 && |pending| == valb + 8
      invariant Decoding(t, out, val, high, pending, Spell(Digits(t[i..]), 6))
    {
      DigitsNext(t, i);
      var c := t[i];
      if c < FIRST || c > LAST {
        DecodeStop(t, out, val, high, pending);
        return;
      }
      var v := Lookup(c - FIRST);
      if v == NONE {
        DecodeStop(t, out, val, high, pending);
        return;
      }
      ghost var rest := Spell(Digits(t[i + 1..]), 6);
      high := DecodeShift(t, out, val, high, pending, v, rest);
      val := ShiftLeft(val, 6) + v;
      pending := pending + ToBits(v, 6);
      valb := valb + 6;
      if valb >= 0 {
        high := DecodeEmit(t, out, val, high, pending, rest);
        out := out + [ShiftRight(val, valb) % 256];
        pending := pending[8..];
        valb := valb - 8;
      }
    }
    assert t[|t|..] == [];
    DecodeStop(t, out, val, high, pending);
  }
}
