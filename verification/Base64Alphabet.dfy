/**
 Encoding and decoding character by character, with the alphabet of section 4 of RFC 4648 written out: every character of
 every encoding by the bytes it stands for, the value of every character, and every byte of everything that is decoded,
 by the digits in front of the first character that is none.
 */
module Base64Alphabet {
  import opened Bytes
  import opened Base64

  // ---- The two tables ----

  lemma UpperCase(i: nat)
    requires i < 26
    ensures Letter(i) == "ABCDEFGHIJKLMNOPQRSTUVWXYZ"[i] as int
  {
    assert "ABCDEFGHIJKLMNOPQRSTUVWXYZ"[i] as int == 65 + i;
  }

  lemma LowerCase(i: nat)
    requires i < 26
    ensures Letter(26 + i) == "abcdefghijklmnopqrstuvwxyz"[i] as int
  {
    assert "abcdefghijklmnopqrstuvwxyz"[i] as int == 97 + i;
  }

  lemma DigitsAndSigns(i: nat)
    requires i < 12
    ensures Letter(52 + i) == "0123456789+/"[i] as int
  {
  }

  /** `c` is the character at place `i` of the alphabet. */
  ghost predicate Stands(c: byte, i: nat) {
    i < 64 && c == ("ABCDEFGHIJKLMNOPQRSTUVWXYZ" + "abcdefghijklmnopqrstuvwxyz" + "0123456789+/")[i] as int
  }

  /** The letter of every sextet is the one that the alphabet has at its place. */
  lemma LetterIs(i: nat)
    requires i < 64
    ensures Letter(i) == ("ABCDEFGHIJKLMNOPQRSTUVWXYZ" + "abcdefghijklmnopqrstuvwxyz" + "0123456789+/")[i] as int
    ensures forall c :: Stands(c, i) <==> c == Letter(i)
  {
    hide Letter;
    if i < 26 {
      UpperCase(i);
    } else if i < 52 {
      LowerCase(i - 26);
    } else {
      DigitsAndSigns(i - 52);
    }
  }

  /** The value of every digit: its place in the alphabet, and 62, 63 and 0 for '-', '_' and '<'. */
  lemma DigitIff(c: byte, i: nat)
    requires i < 64
    ensures Digit(c) == i <==> Stands(c, i) || (c, i) == (45, 62) || (c, i) == (95, 63) || (c, i) == (60, 0)
  {
    hide Stands;
    LetterIs(i);
  }

  // ---- Bits as numbers ----

  lemma SplitBits(x: nat, y: nat, m: nat, n: nat)
    requires x < Pow2(m) && y < Pow2(n)
    ensures ToBits(x * Pow2(n) + y, m + n) == ToBits(x, m) + ToBits(y, n)
  {
    hide Pow2, ToBits, Num;
    NumToBits(x, m);
    NumToBits(y, n);
    NumAppend(ToBits(x, m), ToBits(y, n));
    ToBitsNum(ToBits(x, m) + ToBits(y, n));
  }

  lemma SplitByte(b: byte, k: nat, d: nat)
    requires k in {2, 4, 6} && d == Pow2(k)
    ensures ToBits(b, 8) == ToBits(b / d, 8 - k) + ToBits(b % d, k)
  {
    hide ToBits;
    Pow2Values();
    SplitBits(b / d, b % d, 8 - k, k);
  }

  /** Two numbers next to each other. */
  lemma Joined(x: nat, y: nat, m: nat, n: nat, z: nat)
    requires x < Pow2(m) && y < Pow2(n) && z == x * Pow2(n) + y
    ensures ToBits(x, m) + ToBits(y, n) == ToBits(z, m + n)
  {
    SplitBits(x, y, m, n);
  }

  lemma {:induction false} ZeroBits(k: nat)
    ensures ToBits(0, k) == Zeros(k)
  {
    if k > 0 {
      ZeroBits(k - 1);
      assert Zeros(k) == Zeros(k - 1) + [false];
    }
  }

  /** Three bytes are four sextets. */
  lemma ThreeBytes(a: byte, b: byte, c: byte)
    ensures ToBits(a, 8) + ToBits(b, 8) + ToBits(c, 8) ==
            ToBits(a / 4, 6) + ToBits(a % 4 * 16 + b / 16, 6) + ToBits(b % 16 * 4 + c / 64, 6) + ToBits(c % 64, 6)
  {
    hide ToBits;
    Pow2Values();
    SplitByte(a, 2, 4);
    SplitByte(b, 4, 16);
    SplitByte(c, 6, 64);
    Joined(a % 4, b / 16, 2, 4, a % 4 * 16 + b / 16);
    Joined(b % 16, c / 64, 4, 2, b % 16 * 4 + c / 64);
    var a1, a2, b1 := ToBits(a / 4, 6), ToBits(a % 4, 2), ToBits(b / 16, 4);
    var b2, c1, c2 := ToBits(b % 16, 4), ToBits(c / 64, 2), ToBits(c % 64, 6);
    assert (a1 + a2) + (b1 + b2) + (c1 + c2) == a1 + (a2 + b1) + (b2 + c1) + c2;
  }

  lemma TwoBytes(a: byte, b: byte)
    ensures ToBits(a, 8) + ToBits(b, 8) + Zeros(2) ==
            ToBits(a / 4, 6) + ToBits(a % 4 * 16 + b / 16, 6) + ToBits(b % 16 * 4, 6)
  {
    hide ToBits, Zeros;
    Pow2Values();
    ZeroBits(2);
    SplitByte(a, 2, 4);
    SplitByte(b, 4, 16);
    Joined(a % 4, b / 16, 2, 4, a % 4 * 16 + b / 16);
    Joined(b % 16, 0, 4, 2, b % 16 * 4);
    var a1, a2, b1, b2, z := ToBits(a / 4, 6), ToBits(a % 4, 2), ToBits(b / 16, 4), ToBits(b % 16, 4), ToBits(0, 2);
    assert (a1 + a2) + (b1 + b2) + z == a1 + (a2 + b1) + (b2 + z);
  }

  lemma OneByte(a: byte)
    ensures ToBits(a, 8) + Zeros(4) == ToBits(a / 4, 6) + ToBits(a % 4 * 16, 6)
  {
    hide ToBits, Zeros;
    Pow2Values();
    ZeroBits(4);
    SplitByte(a, 2, 4);
    Joined(a % 4, 0, 2, 4, a % 4 * 16);
    var a1, a2, z := ToBits(a / 4, 6), ToBits(a % 4, 2), ToBits(0, 4);
    assert (a1 + a2) + z == a1 + (a2 + z);
  }

  // ---- The encoder, character by character ----

  lemma SextetsOf(s: Bytes, q: seq<nat>)
    requires Spell(s, 8) + Fill(|s|) == Spell(q, 6) && forall i :: 0 <= i < |q| ==> q[i] < 64
    ensures Encoded(s) == Chars(q) + Padding(|q|)
  {
    hide Spell, Chars, Padding;
    Pow2Values();
    SpellGroups(q, 6, []);
    assert Spell(q, 6) + [] == Spell(q, 6);
  }

  lemma {:induction false} SpellAll(q: seq<nat>, w: nat)
    ensures |q| == 1 ==> Spell(q, w) == ToBits(q[0], w)
    ensures |q| == 2 ==> Spell(q, w) == ToBits(q[0], w) + ToBits(q[1], w)
    ensures |q| == 3 ==> Spell(q, w) == ToBits(q[0], w) + ToBits(q[1], w) + ToBits(q[2], w)
    ensures |q| == 4 ==> Spell(q, w) == ToBits(q[0], w) + ToBits(q[1], w) + ToBits(q[2], w) + ToBits(q[3], w)
    decreases |q|
  {
    hide ToBits;
    if 0 < |q| <= 4 {
      SpellAll(q[1..], w);
      if |q| == 1 {
        assert Spell(q[1..], w) == [];
      }
    }
  }

  /** The sextets of a group: three bytes, or the one or two that are left. */
  function GroupOf(s: Bytes): (q: seq<nat>)
    requires 1 <= |s| <= 3
    ensures forall i :: 0 <= i < |q| ==> q[i] < 64
  {
    var b, c := if |s| > 1 then s[1] else 0, if |s| > 2 then s[2] else 0;
    [s[0] / 4, s[0] % 4 * 16 + b / 16, b % 16 * 4 + c / 64, c % 64][..|s| + 1]
  }

  /** The bits of a group, filled up, are those of its sextets. */
  ghost predicate Regrouped(s: Bytes) {
    1 <= |s| <= 3 && Spell(s, 8) + Fill(|s|) == Spell(GroupOf(s), 6)
  }

  lemma GroupBits(s: Bytes)
    requires 1 <= |s| <= 3
    ensures Regrouped(s)
  {
    hide *;
    if |s| == 1 {
      OneGroup(s[0]);
      assert s == [s[0]];
    } else if |s| == 2 {
      TwoGroup(s[0], s[1]);
      assert s == [s[0], s[1]];
    } else {
      ThreeGroup(s[0], s[1], s[2]);
      assert s == [s[0], s[1], s[2]];
    }
  }

  lemma OneGroup(a: byte)
    ensures Regrouped([a])
  {
    hide ToBits, Spell, Zeros;
    var q := [a / 4, a % 4 * 16];
    assert GroupOf([a]) == q;
    SpellAll([a], 8);
    SpellAll(q, 6);
    OneByte(a);
  }

  lemma TwoGroup(a: byte, b: byte)
    ensures Regrouped([a, b])
  {
    hide ToBits, Spell, Zeros;
    var q := [a / 4, a % 4 * 16 + b / 16, b % 16 * 4];
    assert GroupOf([a, b]) == q;
    SpellAll([a, b], 8);
    SpellAll(q, 6);
    TwoBytes(a, b);
  }

  lemma ThreeGroup(a: byte, b: byte, c: byte)
    ensures Regrouped([a, b, c])
  {
    hide ToBits, Spell;
    var q := [a / 4, a % 4 * 16 + b / 16, b % 16 * 4 + c / 64, c % 64];
    assert GroupOf([a, b, c]) == q;
    SpellAll([a, b, c], 8);
    SpellAll(q, 6);
    ThreeBytes(a, b, c);
    assert Fill(3) == [];
  }

  lemma EncodedGroup(s: Bytes)
    requires 1 <= |s| <= 3
    ensures |Encoded(s)| == 4
    ensures forall i :: 0 <= i <= |s| ==> Stands(Encoded(s)[i], GroupOf(s)[i])
    ensures forall i :: |s| < i < 4 ==> Encoded(s)[i] == 61
  {
    hide Spell, Letter, Encoded, GroupOf, Stands, Fill;
    GroupSize(s);
    var q := GroupOf(s);
    GroupBits(s);
    SextetsOf(s, q);
    forall i | 0 <= i <= |s|
      ensures Stands(Encoded(s)[i], q[i])
    {
      LetterIs(q[i]);
    }
  }

  lemma GroupSize(s: Bytes)
    requires 1 <= |s| <= 3
    ensures |GroupOf(s)| == |s| + 1
  {
  }

  /** Group `g` of an encoding encodes the bytes at that place. */
  lemma EncodedAt(s: Bytes, g: nat)
    requires 3 * g < |s|
    ensures |Encoded(s)| == 4 * ((|s| + 2) / 3)
    ensures Encoded(s)[4 * g..4 * g + 4] == Encoded(s[3 * g..if |s| < 3 * g + 3 then |s| else 3 * g + 3])
  {
    hide Encoded;
    var n := if |s| < 3 * g + 3 then |s| else 3 * g + 3;
    var before, group, rest := s[..3 * g], s[3 * g..n], s[n..];
    assert s == before + s[3 * g..] && s[3 * g..] == group + rest;
    EncodedShape(s);
    EncodedShape(before);
    EncodedShape(group);
    EncodedAppend(before, s[3 * g..]);
    if |group| == 3 {
      EncodedAppend(group, rest);
    } else {
      assert s[3 * g..] == group;
    }
  }

  /** Every character of every encoding, by the bytes it stands for. */
  lemma EncodedIs(s: Bytes, g: nat)
    requires 3 * g < |s|
    ensures 4 * g + 4 <= |Encoded(s)| == 4 * ((|s| + 2) / 3)
    ensures var (a, n) := (s[3 * g], |s| - 3 * g);
            var b, c := if n > 1 then s[3 * g + 1] else 0, if n > 2 then s[3 * g + 2] else 0;
            var e := Encoded(s)[4 * g..4 * g + 4];
            && Stands(e[0], a / 4) && Stands(e[1], a % 4 * 16 + b / 16)
            && (if n > 1 then Stands(e[2], b % 16 * 4 + c / 64) else e[2] == 61)
            && (if n > 2 then Stands(e[3], c % 64) else e[3] == 61)
  {
    hide Encoded, Stands;
    var n := if |s| < 3 * g + 3 then |s| else 3 * g + 3;
    EncodedAt(s, g);
    EncodedGroup(s[3 * g..n]);
  }

  // ---- The decoder, byte by byte ----

  lemma {:induction false} GroupAt(b: Bits, k: nat)
    requires 8 * k + 8 <= |b|
    ensures |Groups(b, 8)| > k && Groups(b, 8)[k] == Num(b[8 * k..8 * k + 8])
    decreases k
  {
    hide Num;
    if k > 0 {
      GroupAt(b[8..], k - 1);
      assert b[8..][8 * (k - 1)..8 * (k - 1) + 8] == b[8 * k..8 * k + 8];
    }
  }

  lemma {:induction false} GroupCount(b: Bits)
    ensures |Groups(b, 8)| == |b| / 8
    decreases |b|
  {
    hide Num;
    if |b| >= 8 {
      GroupCount(b[8..]);
    }
  }

  lemma {:induction false} SpellAt(q: seq<nat>, i: nat)
    requires i < |q|
    ensures |Spell(q, 6)| == 6 * |q| && Spell(q, 6)[6 * i..6 * i + 6] == ToBits(q[i], 6)
    decreases i
  {
    hide ToBits;
    if i > 0 {
      SpellAt(q[1..], i - 1);
      assert Spell(q, 6)[6..] == Spell(q[1..], 6);
      assert Spell(q, 6)[6 * i..6 * i + 6] == Spell(q, 6)[6..][6 * (i - 1)..6 * (i - 1) + 6];
    }
  }

  /** The `k` low bits of one sextet and the first ones of the next make a byte. */
  lemma Across(x: nat, y: nat, k: nat, low: nat, high: nat)
    requires x < 64 && y < 64 && 2 <= k <= 6 && low == x % Pow2(k) && high == y / Pow2(k - 2)
    ensures Num(ToBits(x, 6)[6 - k..] + ToBits(y, 6)[..8 - k]) == low * Pow2(8 - k) + high
  {
    hide ToBits, Num, Pow2;
    Ends(x, 6 - k, k, x / Pow2(k), low);
    Ends(y, 8 - k, k - 2, high, y % Pow2(k - 2));
    NumToBits(low, k);
    NumToBits(high, 8 - k);
    NumAppend(ToBits(low, k), ToBits(high, 8 - k));
  }

  lemma Ends(x: nat, m: nat, n: nat, q: nat, r: nat)
    requires x < 64 && m + n == 6 && q == x / Pow2(n) && r == x % Pow2(n)
    ensures ToBits(x, 6)[..m] == ToBits(q, m) && ToBits(x, 6)[m..] == ToBits(r, n)
    ensures q < Pow2(m) && r < Pow2(n)
  {
    hide ToBits, Pow2;
    Pow2Values();
    Halve(x, m, n, q, r);
  }

  lemma Halve(x: nat, m: nat, n: nat, q: nat, r: nat)
    requires x < Pow2(m + n) && q == x / Pow2(n) && r == x % Pow2(n)
    ensures q < Pow2(m) && r < Pow2(n)
    ensures ToBits(x, m + n) == ToBits(q, m) + ToBits(r, n)
  {
    hide ToBits, Pow2;
    Pow2Add(m, n);
    var d := Pow2(n);
    assert x == q * d + r;
    if q >= Pow2(m) {
      StrictlyMonotone(Pow2(m) - 1, q, d);
      assert false;
    }
    SplitBits(q, r, m, n);
  }

  lemma {:induction false} DigitsAre(t: Bytes)
    ensures var q := Digits(t);
            && |q| <= |t| && (forall i :: 0 <= i < |q| ==> Digit(t[i]) == q[i] < 64)
            && (|q| < |t| ==> Digit(t[|q|]) == NONE)
  {
    hide Digit;
    if t != [] && Digit(t[0]) != NONE {
      DigitsAre(t[1..]);
    }
  }

  lemma DigitsUpTo(t: Bytes, n: nat)
    requires n <= |t| && (forall i :: 0 <= i < n ==> Digit(t[i]) != 255) && (n < |t| ==> Digit(t[n]) == 255)
    ensures |Digits(t)| == n && forall i :: 0 <= i < n ==> Digits(t)[i] == Digit(t[i])
  {
    hide Digit, Digits;
    DigitsAre(t);
  }

  /** The byte over two neighbouring sextets. */
  lemma ByteOver(q: seq<nat>, i: nat, k: nat)
    requires i + 1 < |q| && 2 <= k <= 6
    ensures 6 * i + 14 - k <= |Spell(q, 6)|
    ensures Spell(q, 6)[6 * i + 6 - k..6 * i + 14 - k] == ToBits(q[i], 6)[6 - k..] + ToBits(q[i + 1], 6)[..8 - k]
  {
    hide ToBits, Spell;
    var b := Spell(q, 6);
    SpellAt(q, i);
    SpellAt(q, i + 1);
    assert b[6 * i + 6 - k..6 * i + 6] == b[6 * i..6 * i + 6][6 - k..];
    assert b[6 * i + 6..6 * i + 14 - k] == b[6 * (i + 1)..6 * (i + 1) + 6][..8 - k];
    assert b[6 * i + 6 - k..6 * i + 14 - k] == b[6 * i + 6 - k..6 * i + 6] + b[6 * i + 6..6 * i + 14 - k];
  }

  /** Byte `m` of what is decoded, if it lies over sextets `i` and `i + 1`. */
  lemma DecodedByte(t: Bytes, n: nat, i: nat, k: nat, m: nat)
    requires n <= |t| && (forall j :: 0 <= j < n ==> Digit(t[j]) != 255) && (n < |t| ==> Digit(t[n]) == 255)
    requires i + 1 < n && 2 <= k <= 6 && 8 * m == 6 * i + 6 - k
    ensures |Decoded(t)| == 6 * n / 8 && m < |Decoded(t)|
    ensures Decoded(t)[m] == Digit(t[i]) % Pow2(k) * Pow2(8 - k) + Digit(t[i + 1]) / Pow2(k - 2)
  {
    hide ToBits, Num, Pow2, Spell, Digits, Digit, Groups;
    DigitsUpTo(t, n);
    var q := Digits(t);
    SpellAt(q, 0);
    GroupCount(Spell(q, 6));
    ByteOver(q, i, k);
    GroupAt(Spell(q, 6), m);
    Across(q[i], q[i + 1], k, q[i] % Pow2(k), q[i + 1] / Pow2(k - 2));
  }

  /**
   Every byte of everything that is decoded: the digits up to the first character that is none, four to three bytes;
   bits that fill no byte are dropped.
   */
  lemma DecodedIs(t: Bytes, n: nat, g: nat)
    requires n <= |t| && (forall i :: 0 <= i < n ==> Digit(t[i]) != 255) && (n < |t| ==> Digit(t[n]) == 255)
    ensures |Decoded(t)| == 3 * n / 4
    ensures 4 * g + 1 < n ==> Decoded(t)[3 * g] == Digit(t[4 * g]) * 4 + Digit(t[4 * g + 1]) / 16
    ensures 4 * g + 2 < n ==> Decoded(t)[3 * g + 1] == Digit(t[4 * g + 1]) % 16 * 16 + Digit(t[4 * g + 2]) / 4
    ensures 4 * g + 3 < n ==> Decoded(t)[3 * g + 2] == Digit(t[4 * g + 2]) % 4 * 64 + Digit(t[4 * g + 3])
  {
    hide Digit, Decoded, Digits, Pow2;
    Pow2Values();
    DecodedSize(t, n);
    if 4 * g + 1 < n {
      DecodedByte(t, n, 4 * g, 6, 3 * g);
    }
    if 4 * g + 2 < n {
      DecodedByte(t, n, 4 * g + 1, 4, 3 * g + 1);
    }
    if 4 * g + 3 < n {
      DecodedByte(t, n, 4 * g + 2, 2, 3 * g + 2);
    }
  }

  lemma DecodedSize(t: Bytes, n: nat)
    requires n <= |t| && (forall i :: 0 <= i < n ==> Digit(t[i]) != 255) && (n < |t| ==> Digit(t[n]) == 255)
    ensures |Decoded(t)| == 6 * n / 8
  {
    hide ToBits, Num, Digit, Digits, Groups;
    DigitsUpTo(t, n);
    GroupCount(Spell(Digits(t), 6));
  }
}
