/**
 The wire format of WebSocket frames (section 5.2 of RFC 6455) as Websocket.cpp reads and writes it:
 a printer, a reader, and the proof that each undoes the other.
 */
module Frames {
  import opened Bytes

  /** The three length codes: in seven bits, in 16 more, in 64 more. */
  datatype Form = Len7 | Len16 | Len64

  type Key = k: Bytes | |k| == 4 witness [0, 0, 0, 0]

  const CONTINUATION := 0
  const TEXT := 1
  const BINARY := 2
  const CLOSE := 8
  const PING := 9
  const PONG := 10

  datatype Frame = Frame(fin: bool, rsv: nat, opcode: nat, form: Form, mask: Option<Key>, payload: Bytes)

  function Extension(form: Form): nat {
    match form
    case Len7 => 0
    case Len16 => 2
    case Len64 => 8
  }

  predicate Fits(form: Form, n: nat) {
    match form
    case Len7 => n <= 125
    case Len16 => n < 0x1_0000
    case Len64 => n < 0x1_0000_0000_0000_0000
  }

  /** What a frame can carry: every length code that can express the length is a valid choice. */
  predicate Valid(f: Frame) {
    f.rsv < 8 && f.opcode < 16 && Fits(f.form, |f.payload|)
  }

  function Masked(payload: Bytes, key: Key): (r: Bytes)
    ensures |r| == |payload|
  {
    seq(|payload|, i requires 0 <= i < |payload| => Xor(payload[i], key[i % 4]))
  }

  lemma MaskedTwice(payload: Bytes, key: Key)
    ensures Masked(Masked(payload, key), key) == payload
  {
    forall i | 0 <= i < |payload|
      ensures Masked(Masked(payload, key), key)[i] == payload[i]
    {
      XorInvolutive(payload[i], key[i % 4]);
    }
  }

  // ---- Printing ----

  function LengthCode(form: Form, n: nat): (r: nat)
    requires Fits(form, n)
    ensures r < 128
  {
    match form
    case Len7 => n
    case Len16 => 126
    case Len64 => 127
  }

  function Head(f: Frame): (r: Bytes)
    requires Valid(f)
    ensures |r| == 2
  {
    [(if f.fin then 128 else 0) + 16 * f.rsv + f.opcode,
     (if f.mask.Some? then 128 else 0) + LengthCode(f.form, |f.payload|)]
  }

  function KeyBytes(f: Frame): (r: Bytes)
    ensures |r| == if f.mask.Some? then 4 else 0
  {
    if f.mask.Some? then f.mask.value else []
  }

  function Body(f: Frame): (r: Bytes)
    ensures |r| == |f.payload|
  {
    if f.mask.Some? then Masked(f.payload, f.mask.value) else f.payload
  }

  function Serialize(f: Frame): (r: Bytes)
    requires Valid(f)
    ensures |r| == HeaderSize(f.form, f.mask.Some?) + |f.payload|
  {
    Head(f) + BigEndian(|f.payload|, Extension(f.form)) + KeyBytes(f) + Body(f)
  }

  // ---- Reading ----

  function FormOf(b: byte): Form {
    if b % 128 == 126 then Len16 else if b % 128 == 127 then Len64 else Len7
  }

  function HeaderSize(form: Form, masked: bool): (n: nat) {
    2 + Extension(form) + if masked then 4 else 0
  }

  /** The size of the header that starts in `b`. */
  function HeaderOf(b: Bytes): (n: nat)
    requires |b| >= 2
  {
    HeaderSize(FormOf(b[1]), b[1] >= 128)
  }

  function DeclaredLength(b: Bytes): (n: nat)
    requires |b| >= 2 && |b| >= 2 + Extension(FormOf(b[1]))
  {
    match FormOf(b[1])
    case Len7 => b[1] % 128
    case _ => FromBigEndian(b[2..2 + Extension(FormOf(b[1]))])
  }

  /** `b` starts with a complete frame, masked or not as asked. */
  predicate HasFrame(b: Bytes, masked: bool) {
    && |b| >= 2
    && (b[1] >= 128 <==> masked)
    && |b| >= HeaderOf(b)
    && |b| - HeaderOf(b) >= DeclaredLength(b)
  }

  function FrameSize(b: Bytes, masked: bool): (n: nat)
    requires HasFrame(b, masked)
    ensures 2 <= n <= |b|
  {
    HeaderOf(b) + DeclaredLength(b)
  }

  function FirstFrame(b: Bytes, masked: bool): (f: Frame)
    requires HasFrame(b, masked)
  {
    var h := HeaderOf(b);
    var raw := b[h..h + DeclaredLength(b)];
    var form := FormOf(b[1]);
    var fin, rsv, opcode := b[0] >= 128, b[0] / 16 % 8, b[0] % 16;
    if masked then
      var key := b[h - 4..h];
      Frame(fin, rsv, opcode, form, Some(key), Masked(raw, key))
    else
      Frame(fin, rsv, opcode, form, None, raw)
  }

  // ---- Printer and reader undo each other ----

  lemma LengthFieldRoundTrip(form: Form, n: nat)
    requires Fits(form, n) && form != Len7
    ensures FromBigEndian(BigEndian(n, Extension(form))) == n
  {
    Pow256Values();
    BigEndianInverse(n, Extension(form));
  }

  /** The fields of a printed frame sit where the reader looks for them. */
  lemma Layout(f: Frame, rest: Bytes)
    requires Valid(f)
    ensures var b, e := Serialize(f) + rest, Extension(f.form);
            var h := HeaderSize(f.form, f.mask.Some?);
            && |b| >= h + |f.payload|
            && b[0] == Head(f)[0] && b[1] == Head(f)[1]
            && b[2..2 + e] == BigEndian(|f.payload|, e)
            && b[2 + e..h] == KeyBytes(f)
            && b[h..h + |f.payload|] == Body(f)
  {
  }

  /** The header of a printed frame is read back. */
  lemma ReadHeader(f: Frame, rest: Bytes)
    requires Valid(f)
    ensures var b := Serialize(f) + rest;
            && |b| >= HeaderSize(f.form, f.mask.Some?) + |f.payload|
            && FormOf(b[1]) == f.form && (b[1] >= 128 <==> f.mask.Some?)
            && DeclaredLength(b) == |f.payload|
  {
    Layout(f, rest);
    if f.form != Len7 {
      LengthFieldRoundTrip(f.form, |f.payload|);
    }
  }

  /** A printed frame is read back as it was, whatever follows it. */
  lemma ReadSerialized(f: Frame, rest: Bytes)
    requires Valid(f)
    ensures HasFrame(Serialize(f) + rest, f.mask.Some?)
    ensures FirstFrame(Serialize(f) + rest, f.mask.Some?) == f
    ensures FrameSize(Serialize(f) + rest, f.mask.Some?) == |Serialize(f)|
  {
    ReadHeader(f, rest);
    Layout(f, rest);
    SplitHead(f.fin, f.rsv, f.opcode);
    if f.mask.Some? {
      MaskedTwice(f.payload, f.mask.value);
    }
  }

  lemma SplitHead(fin: bool, rsv: nat, opcode: nat)
    requires rsv < 8 && opcode < 16
    ensures var b := (if fin then 128 else 0) + 16 * rsv + opcode;
            (b >= 128 <==> fin) && b / 16 % 8 == rsv && b % 16 == opcode
  {
  }

  lemma HeadRead(b: Bytes, masked: bool)
    requires HasFrame(b, masked)
    ensures var f := FirstFrame(b, masked);
            && Valid(f)
            && Head(f) == b[..2]
            && BigEndian(|f.payload|, Extension(f.form)) == b[2..2 + Extension(f.form)]
  {
    hide Masked;
    var e := Extension(FormOf(b[1]));
    FromBigEndianInverse(b[2..2 + e]);
    Pow256Values();
  }

  lemma BodyRead(b: Bytes, masked: bool)
    requires HasFrame(b, masked)
    ensures var f, h := FirstFrame(b, masked), HeaderOf(b);
            KeyBytes(f) == b[2 + Extension(f.form)..h] && Body(f) == b[h..FrameSize(b, masked)]
  {
    var h := HeaderOf(b);
    if masked {
      MaskedTwice(b[h..FrameSize(b, masked)], b[h - 4..h]);
    }
  }

  lemma Slices(b: Bytes, i: nat, j: nat, k: nat)
    requires 2 <= i <= j <= k <= |b|
    ensures b[..2] + b[2..i] + b[i..j] + b[j..k] == b[..k]
  {
  }

  /** What is read is exactly what the printer gives for it, and it is a valid frame. */
  lemma SerializeRead(b: Bytes, masked: bool)
    requires HasFrame(b, masked)
    ensures var f := FirstFrame(b, masked);
            Valid(f) && f.mask.Some? == masked && Serialize(f) == b[..FrameSize(b, masked)]
  {
    HeadRead(b, masked);
    BodyRead(b, masked);
    Slices(b, 2 + Extension(FormOf(b[1])), HeaderOf(b), FrameSize(b, masked));
  }

  /** More bytes behind a complete frame do not change it. */
  lemma FrameStays(a: Bytes, b: Bytes, masked: bool)
    requires HasFrame(a, masked)
    ensures HasFrame(a + b, masked)
    ensures FirstFrame(a + b, masked) == FirstFrame(a, masked)
    ensures FrameSize(a + b, masked) == FrameSize(a, masked)
  {
    hide Serialize, HasFrame, FirstFrame, FrameSize, Valid;
    var f, n := FirstFrame(a, masked), FrameSize(a, masked);
    SerializeRead(a, masked);
    assert a == a[..n] + a[n..];
    Associative(a[..n], a[n..], b);
    ReadSerialized(f, a[n..] + b);
  }

  // ---- The shortest length code ----

  function Shortest(n: nat): Form {
    if n <= 125 then Len7 else if n <= 0xffff then Len16 else Len64
  }

  /** The sender's choice fits every 64-bit length and no other fitting code is shorter. */
  lemma ShortestFits(n: nat, other: Form)
    ensures Fits(Shortest(n), n) <==> n < 0x1_0000_0000_0000_0000
    ensures Fits(other, n) ==> Extension(Shortest(n)) <= Extension(other)
  {
  }

  // ---- Streams of frames ----

  function SerializeAll(fs: seq<Frame>): (r: Bytes)
    requires forall f :: f in fs ==> Valid(f)
  {
    if fs == [] then [] else Serialize(fs[0]) + SerializeAll(fs[1..])
  }

  /** The complete frames at the start of `b`, and what is left behind them. */
  function ReadAll(b: Bytes, masked: bool): (r: (seq<Frame>, Bytes))
    ensures |r.1| <= |b|
    decreases |b|
  {
    if !HasFrame(b, masked) then ([], b)
    else
      var (fs, rest) := ReadAll(b[FrameSize(b, masked)..], masked);
      ([FirstFrame(b, masked)] + fs, rest)
  }

  /** Reading loses nothing: the frames printed again, followed by the rest, are the bytes read. */
  lemma {:induction false} ReadAllConserves(b: Bytes, masked: bool)
    ensures var (fs, rest) := ReadAll(b, masked);
            && (forall f :: f in fs ==> Valid(f) && f.mask.Some? == masked)
            && SerializeAll(fs) + rest == b
            && !HasFrame(rest, masked)
    decreases |b|
  {
    hide Serialize, HasFrame, FirstFrame, FrameSize;
    if HasFrame(b, masked) {
      var n := FrameSize(b, masked);
      var (fs, rest) := ReadAll(b[n..], masked);
      SerializeRead(b, masked);
      ReadAllConserves(b[n..], masked);
      var all := [FirstFrame(b, masked)] + fs;
      assert all[1..] == fs;
      Associative(b[..n], SerializeAll(fs), rest);
    } else {
      assert SerializeAll([]) + b == b;
    }
  }

  lemma {:induction false} ReadAllSerialized(fs: seq<Frame>, masked: bool, tail: Bytes)
    requires forall f :: f in fs ==> Valid(f) && f.mask.Some? == masked
    ensures ReadAll(SerializeAll(fs) + tail, masked) == (fs + ReadAll(tail, masked).0, ReadAll(tail, masked).1)
  {
    hide Serialize, HasFrame, FirstFrame, FrameSize;
    var (more, rest) := ReadAll(tail, masked);
    if fs == [] {
      assert SerializeAll(fs) + tail == tail && fs + more == more;
    } else {
      var a, b := Serialize(fs[0]), SerializeAll(fs[1..]) + tail;
      Associative(a, SerializeAll(fs[1..]), tail);
      ReadSerialized(fs[0], b);
      Halves(a, b);
      ReadAllSerialized(fs[1..], masked, tail);
      assert [fs[0]] + fs[1..] == fs;
      Associative([fs[0]], fs[1..], more);
    }
  }
}
