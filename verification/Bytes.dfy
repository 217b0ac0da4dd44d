/**
 Bytes and strings of bytes, put together and taken apart; big-endian numbers of any width and the powers that bound
 them; the exclusive or of two bytes, by their bits, which undoes itself; and the value that an `int` of 32 bits holds
 after a conversion. Everything the server does to single bytes and to numbers made of them is here.
 */
module Bytes {

  /** `std::byte` and `char` read as an unsigned value. */
  type byte = b: int | 0 <= b < 256

  type Bytes = seq<byte>

  datatype Option<+T> = None | Some(value: T)

  /** The bytes of an ASCII literal. */
  function Ascii(s: string): (r: Bytes)
    requires forall i :: 0 <= i < |s| ==> s[i] < 256 as char
    ensures |r| == |s|
  {
    seq(|s|, i requires 0 <= i < |s| => s[i] as int)
  }

  lemma Associative<T>(a: seq<T>, b: seq<T>, c: seq<T>)
    ensures (a + b) + c == a + (b + c)
  {
  }

  lemma Halves<T>(a: seq<T>, b: seq<T>)
    ensures (a + b)[..|a|] == a && (a + b)[|a|..] == b
  {
  }

  /** All the strings of a list, one after the other. */
  function Concat(parts: seq<Bytes>): (r: Bytes) {
    if parts == [] then [] else parts[0] + Concat(parts[1..])
  }

  lemma {:induction false} ConcatAppend(a: seq<Bytes>, b: seq<Bytes>)
    ensures Concat(a + b) == Concat(a) + Concat(b)
  {
    if a == [] {
      assert a + b == b;
    } else {
      assert (a + b)[1..] == a[1..] + b;
      ConcatAppend(a[1..], b);
    }
  }

  lemma ConcatOne(a: Bytes)
    ensures Concat([a]) == a
  {
    assert Concat([a]) == a + Concat([]);
  }

  lemma ConcatNext(parts: seq<Bytes>, i: nat)
    requires i < |parts|
    ensures Concat(parts[..i + 1]) == Concat(parts[..i]) + parts[i]
  {
    ConcatAppend(parts[..i], [parts[i]]);
    ConcatOne(parts[i]);
    assert parts[..i + 1] == parts[..i] + [parts[i]];
  }

  /** Exclusive or of the low `k` bits of two numbers. */
  function XorBits(a: nat, b: nat, k: nat): (r: nat) {
    if k == 0 then 0 else 2 * XorBits(a / 2, b / 2, k - 1) + (a + b) % 2
  }

  /** Two to the power k. */
  function Pow2(k: nat): (r: nat)
    ensures r > 0
  {
    if k == 0 then 1 else 2 * Pow2(k - 1)
  }

  lemma {:induction false} XorBitsBound(a: nat, b: nat, k: nat)
    ensures XorBits(a, b, k) < Pow2(k)
  {
    if k > 0 {
      XorBitsBound(a / 2, b / 2, k - 1);
    }
  }

  lemma {:induction false} XorBitsInvolutive(a: nat, b: nat, k: nat)
    requires a < Pow2(k)
    ensures XorBits(XorBits(a, b, k), b, k) == a
  {
    if k > 0 {
      var y := XorBits(a / 2, b / 2, k - 1);
      XorBitsInvolutive(a / 2, b / 2, k - 1);
      HalfAndParity(y, a, b);
    }
  }

  lemma HalfAndParity(y: nat, a: nat, b: nat)
    ensures (2 * y + (a + b) % 2) / 2 == y
    ensures (2 * y + (a + b) % 2 + b) % 2 == a % 2
  {
  }

  /** Exclusive or of two bytes. */
  function Xor(a: byte, b: byte): (r: byte) {
    XorBitsBound(a, b, 8);
    XorBits(a, b, 8)
  }

  /** Masking twice with one key byte gives the byte back. */
  lemma XorInvolutive(a: byte, k: byte)
    ensures Xor(Xor(a, k), k) == a
  {
    XorBitsInvolutive(a, k, 8);
  }

  /** Dividing by twice a number is halving first. */
  lemma HalveFirst(x: nat, d: nat)
    requires d > 0
    ensures x / (2 * d) == x / 2 / d
  {
    var q := x / 2 / d;
    var r := x - q * (2 * d);
    assert x / 2 == q * d + x / 2 % d;
    assert q * (2 * d) == 2 * (q * d);
    DivideExact(q, 2 * d, r);
  }

  /** Bit `k` of a number. */
  function Bit(x: nat, k: nat): (r: nat)
    ensures r < 2
  {
    x / Pow2(k) % 2
  }

  lemma BitOfHalf(x: nat, k: nat)
    requires k > 0
    ensures Bit(x, k) == Bit(x / 2, k - 1)
  {
    HalveFirst(x, Pow2(k - 1));
  }

  lemma LowBit(x: nat)
    ensures Bit(x, 0) == x % 2
  {
  }

  lemma {:induction false} XorBitsBit(a: nat, b: nat, n: nat, k: nat)
    requires k < n
    ensures Bit(XorBits(a, b, n), k) == if Bit(a, k) == Bit(b, k) then 0 else 1
  {
    hide Bit;
    var y := XorBits(a / 2, b / 2, n - 1);
    var x := 2 * y + (a + b) % 2;
    if k > 0 {
      XorBitsBit(a / 2, b / 2, n - 1, k - 1);
      BitOfHalf(x, k);
      BitOfHalf(a, k);
      BitOfHalf(b, k);
      HalfAndParity(y, a, b);
    } else {
      LowBit(x);
      LowBit(a);
      LowBit(b);
      Parity(y, a, b);
    }
  }

  lemma Parity(y: nat, a: nat, b: nat)
    ensures (2 * y + (a + b) % 2) % 2 == if a % 2 == b % 2 then 0 else 1
  {
  }

  /** A bit of the exclusive or is set exactly if that bit is set in one of the bytes and not in the other. */
  lemma XorBit(a: byte, b: byte, k: nat)
    requires k < 8
    ensures Xor(a, b) / Pow2(k) % 2 == 1 <==> (a / Pow2(k) % 2 == 1) != (b / Pow2(k) % 2 == 1)
  {
    hide XorBits;
    XorBitsBit(a, b, 8, k);
  }

  /** 256 to the power k. */
  function Pow256(k: nat): (r: nat)
    ensures r > 0
  {
    if k == 0 then 1 else 256 * Pow256(k - 1)
  }

  lemma StrictlyMonotone(a: int, b: int, d: nat)
    requires a < b
    ensures a * d + d <= b * d
  {
    var c := b - a - 1;
    assert b * d == (a + 1 + c) * d == a * d + d + c * d;
  }

  lemma DivideExact(q: int, d: int, r: int)
    requires 0 <= r < d
    ensures (q * d + r) / d == q && (q * d + r) % d == r
  {
    var x := q * d + r;
    var e := x / d;
    assert x == e * d + x % d;
    if e > q {
      StrictlyMonotone(q, e, d);
    } else if e < q {
      StrictlyMonotone(e, q, d);
    }
  }

  /** `n` in `k` bytes, most significant byte first; higher bits are dropped as a cast to a byte drops them. */
  function BigEndian(n: nat, k: nat): (r: Bytes)
    ensures |r| == k
  {
    if k == 0 then [] else BigEndian(n / 256, k - 1) + [n % 256]
  }

  /** The number whose big-endian digits are `b`. */
  function FromBigEndian(b: Bytes): (n: nat) {
    if b == [] then 0 else 256 * FromBigEndian(b[..|b| - 1]) + b[|b| - 1]
  }

  lemma {:induction false} BigEndianInverse(n: nat, k: nat)
    requires n < Pow256(k)
    ensures FromBigEndian(BigEndian(n, k)) == n
  {
    if k > 0 {
      var b := BigEndian(n, k);
      assert b[..k - 1] == BigEndian(n / 256, k - 1);
      BigEndianInverse(n / 256, k - 1);
    }
  }

  lemma {:induction false} FromBigEndianInverse(b: Bytes)
    ensures FromBigEndian(b) < Pow256(|b|)
    ensures BigEndian(FromBigEndian(b), |b|) == b
  {
    if b != [] {
      var p := b[..|b| - 1];
      FromBigEndianInverse(p);
      var n := FromBigEndian(b);
      assert n / 256 == FromBigEndian(p) && n % 256 == b[|b| - 1];
      assert b == p + [b[|b| - 1]];
    }
  }

  lemma Pow256Values()
    ensures Pow256(0) == 1 && Pow256(1) == 256 && Pow256(2) == 0x1_0000
    ensures Pow256(8) == 0x1_0000_0000_0000_0000
  {
    assert Pow256(1) == 256 * Pow256(0);
    assert Pow256(2) == 256 * Pow256(1);
    assert Pow256(3) == 256 * Pow256(2);
    assert Pow256(4) == 256 * Pow256(3);
    assert Pow256(5) == 256 * Pow256(4);
    assert Pow256(6) == 256 * Pow256(5);
    assert Pow256(7) == 256 * Pow256(6);
    assert Pow256(8) == 256 * Pow256(7);
  }

  /** The value an `int` holds after a conversion from an unbounded count (C++20 two's complement). */
  function ToInt32(n: int): (r: int)
    ensures -0x8000_0000 <= r < 0x8000_0000
  {
    (n + 0x8000_0000) % 0x1_0000_0000 - 0x8000_0000
  }
}
