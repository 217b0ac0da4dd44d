/** Frames byte by byte (section 5.2 of RFC 6455): what stands where in a frame that comes in or goes out. */
module FrameBytes {
  import opened Bytes
  import opened Frames
  import opened Websockets

  // ---- A frame that comes in ----

  /** `b` starts with a masked frame whose header takes `h` bytes and whose payload takes `n`. */
  ghost predicate Arrived(b: Bytes, h: nat, n: nat) {
    && |b| >= 2 && |b| >= h + n && 128 <= b[1]
    && (b[1] < 254 ==> h == 6 && n == b[1] - 128)
    && (b[1] == 254 ==> h == 8 && n == 256 * (b[2] as int) + b[3])
    && (b[1] == 255 ==> h == 14 && n == Eight(b[2..10]))
  }

  /** Eight bytes as a number, the most significant byte first. */
  function Eight(b: seq<int>): (n: int)
    requires |b| == 8
  {
    0x100_0000_0000_0000 * b[0] + 0x1_0000_0000_0000 * b[1] + 0x100_0000_0000 * b[2] + 0x1_0000_0000 * b[3]
    + 0x100_0000 * b[4] + 0x1_0000 * b[5] + 0x100 * b[6] + b[7]
  }

  /** The payload with the key taken off, bit by bit: byte `i` is flipped by byte `i % 4` of the four in front of the payload. */
  ghost predicate Clear(data: Bytes, b: Bytes, h: nat, n: nat)
    requires 4 <= h && h + n <= |b|
  {
    |data| == n && forall i, k :: 0 <= i < n && 0 <= k < 8 ==>
      (data[i] / Pow2(k) % 2 == 1 <==> (b[h + i] / Pow2(k) % 2 == 1) != (b[h - 4 + i % 4] / Pow2(k) % 2 == 1))
  }

  lemma FromEight(b: Bytes)
    requires |b| == 8
    ensures FromBigEndian(b) == Eight(b)
  {
    hide FromBigEndian;
    Longer(b[..1]);
    Longer(b[..2]);
    Longer(b[..3]);
    Longer(b[..4]);
    Longer(b[..5]);
    Longer(b[..6]);
    Longer(b[..7]);
    Longer(b);
    assert b[..2][..1] == b[..1] && b[..3][..2] == b[..2] && b[..4][..3] == b[..3] && b[..5][..4] == b[..4];
    assert b[..6][..5] == b[..5] && b[..7][..6] == b[..6];
  }

  lemma Longer(b: Bytes)
    requires b != []
    ensures FromBigEndian(b) == 256 * FromBigEndian(b[..|b| - 1]) + b[|b| - 1]
    ensures |b| == 1 ==> FromBigEndian(b) == b[0]
  {
  }

  lemma Clears(b: Bytes, h: nat, n: nat)
    requires 4 <= h && h + n <= |b|
    ensures Clear(Masked(b[h..h + n], b[h - 4..h]), b, h, n)
  {
    hide Xor;
    var data := Masked(b[h..h + n], b[h - 4..h]);
    forall i, k | 0 <= i < n && 0 <= k < 8
      ensures data[i] / Pow2(k) % 2 == 1 <==> (b[h + i] / Pow2(k) % 2 == 1) != (b[h - 4 + i % 4] / Pow2(k) % 2 == 1)
    {
      XorBit(b[h + i], b[h - 4 + i % 4], k);
    }
  }

  /** The reader finds the frame, takes all its bytes, and takes the key off its payload. */
  lemma ArrivedIsRead(b: Bytes, h: nat, n: nat)
    requires Arrived(b, h, n)
    ensures HasFrame(b, true) && FrameSize(b, true) == h + n
    ensures var f := FirstFrame(b, true);
            && Clear(f.payload, b, h, n) && f.opcode == b[0] % 16 && (f.fin <==> 128 <= b[0])
  {
    hide Masked, Clear;
    if b[1] == 254 {
      FromTwo(b[2..4]);
    } else if b[1] == 255 {
      FromEight(b[2..10]);
    }
    assert HeaderOf(b) == h && DeclaredLength(b) == n;
    Clears(b, h, n);
  }

  /**
   A final frame that comes in: the handler gets a message, the gathered fragments in front of a continuation, a ping or
   a pong, with the payload in the clear; a close frame ends the call with 1000; any other opcode is passed over.
   */
  lemma FinalFrameIsTold(s: Session, b: Bytes, h: nat, n: nat) returns (data: Bytes)
    requires Arrived(b, h, n) && 128 <= b[0]
    ensures HasFrame(b, true) && data == FirstFrame(b, true).payload && Clear(data, b, h, n)
    ensures var kind := b[0] % 16;
            if kind == 8 then
              Feed(s, b) == Outcome(s, [Closing(1000, [116, 104, 120, 32, 103, 111, 111, 100, 98, 121, 101])], h + n, Closed)
            else
              var o := Feed(if kind == 0 then Session([], s.opcode) else s, b[h + n..]);
              var told :=
                if kind == 0 then [if s.opcode == 1 then TextMessage(s.frag + data) else BinaryMessage(s.frag + data)]
                else if kind == 1 then [TextMessage(data)]
                else if kind == 2 then [BinaryMessage(data)]
                else if kind == 9 then [Ping(data)]
                else if kind == 10 then [Pong(data)]
                else [];
              Feed(s, b) == Outcome(o.session, told + o.events, h + n + o.consumed, o.status)
  {
    hide FirstFrame, FrameSize, HasFrame, Clear, Arrived, Feed;
    ArrivedIsRead(b, h, n);
    FeedFrame(s, b);
    GoodbyeText();
    data := FirstFrame(b, true).payload;
  }

  lemma GoodbyeText()
    ensures Ascii("thx goodbye") == [116, 104, 120, 32, 103, 111, 111, 100, 98, 121, 101]
  {
  }

  /**
   An unfinished frame is gathered, and says of which kind the message is; a text or binary one over gathered bytes
   closes with 1002.
   */
  lemma PartIsGathered(s: Session, b: Bytes, h: nat, n: nat) returns (data: Bytes)
    requires Arrived(b, h, n) && b[0] < 128
    ensures HasFrame(b, true) && data == FirstFrame(b, true).payload && Clear(data, b, h, n)
    ensures var begins := b[0] % 16 == 1 || b[0] % 16 == 2;
            if begins && s.frag != [] then
              Feed(s, b) == Outcome(s, [Closing(1002, Ascii("unterminated fragmented message"))], h + n, Closed)
            else
              var o := Feed(Session(s.frag + data, if begins then b[0] % 16 else s.opcode), b[h + n..]);
              Feed(s, b) == Outcome(o.session, o.events, h + n + o.consumed, o.status)
  {
    hide FirstFrame, FrameSize, HasFrame, Clear, Arrived, Feed;
    ArrivedIsRead(b, h, n);
    FeedFrame(s, b);
    data := FirstFrame(b, true).payload;
    assert [] + data == data;
    assert forall x: seq<Event> :: [] + x == x;
  }

  /** Six bytes of a frame without a key are enough to end the connection with 1002; fewer bytes are waited with. */
  lemma BareFrameCloses(s: Session, b: Bytes)
    ensures |b| < 6 ==> Feed(s, b) == Outcome(s, [], 0, Open)
    ensures |b| >= 6 && b[1] < 128 ==> Feed(s, b) == Outcome(s, [Closing(1002, Ascii("received unmasked message"))], 0, Closed)
  {
  }

  // ---- A frame that goes out ----

  lemma BigEndianTwo(n: nat)
    ensures BigEndian(n, 2) == [n / 256 % 256, n % 256]
  {
    assert BigEndian(n / 256, 1) == BigEndian(n / 256 / 256, 0) + [n / 256 % 256];
  }

  /** The bytes of every frame that is sent: opcode and final bit, the length in one of its three forms, the payload as it is. */
  lemma SentBytes(opcode: nat, fin: bool, payload: Bytes)
    requires opcode < 16 && |payload| < 0x1_0000_0000_0000_0000
    ensures var n, w, first := |payload|, Wire(opcode, fin, payload), if fin then 128 + opcode else opcode;
            if n <= 125 then w == [first, n] + payload
            else if n <= 65535 then w == [first, 126, n / 256, n % 256] + payload
            else
              |w| == 10 + n && w[0] == first && w[1] == 127 && Eight(w[2..10]) == n && w[10..] == payload
  {
    var n := |payload|;
    BigEndianTwo(n);
    assert BigEndian(n, 0) == [];
    if n > 65535 {
      var w, l := Wire(opcode, fin, payload), BigEndian(n, 8);
      assert w == [if fin then 128 + opcode else opcode, 127] + l + payload;
      assert w[2..10] == l && w[10..] == payload;
      Pow256Values();
      BigEndianInverse(n, 8);
      FromEight(l);
    }
  }

  /** What closing puts on the wire: one frame, in two length forms as its reason may have up to 125 bytes. */
  lemma CloseBytes(code: nat, reason: Bytes)
    requires code < 65536 && |reason| <= 125
    ensures CloseFrames([Closing(code, reason)]) ==
            [(if |reason| <= 123 then [136, 2 + |reason|] else [136, 126, 0, 2 + |reason|]) + ([code / 256, code % 256] + reason)]
  {
    hide Wire;
    BigEndianTwo(code);
    SentBytes(8, true, BigEndian(code, 2) + reason);
    assert [Closing(code, reason)][1..] == [];
    assert CloseFrames([Closing(code, reason)]) == [CloseFrame(code, reason)] + CloseFrames([]);
  }

  /** The bytes of a ping: one short frame. */
  lemma PingBytes(message: Bytes)
    requires |message| <= 125
    ensures Wire(PING, true, message) == [137, |message|] + message
  {
    SentBytes(9, true, message);
  }

  // ---- Inputs: the frames of section 5.7 of RFC 6455 ----

  /** The masked "Hello". */
  lemma MaskedHello(s: Session)
    ensures Feed(s, [0x81, 0x85, 0x37, 0xfa, 0x21, 0x3d, 0x7f, 0x9f, 0x4d, 0x51, 0x58]) ==
            Outcome(s, [TextMessage([0x48, 0x65, 0x6c, 0x6c, 0x6f])], 11, Open)
  {
    hide Feed, Clear, Masked;
    var b: Bytes := [0x81, 0x85, 0x37, 0xfa, 0x21, 0x3d, 0x7f, 0x9f, 0x4d, 0x51, 0x58];
    var data := FinalFrameIsTold(s, b, 6, 5);
    FeedNothing(s);
    HelloMasked();
    assert b[6..11] == [0x7f, 0x9f, 0x4d, 0x51, 0x58] && b[2..6] == [0x37, 0xfa, 0x21, 0x3d] && b[11..] == [];
  }

  lemma HelloMasked()
    ensures Masked([0x7f, 0x9f, 0x4d, 0x51, 0x58], [0x37, 0xfa, 0x21, 0x3d]) == [0x48, 0x65, 0x6c, 0x6c, 0x6f]
  {
    hide Xor;
    HelloH();
    HelloE();
    HelloL();
    HelloAgain();
    HelloO();
  }

  /** One more bit of an exclusive or, from that of the halves. */
  lemma XorNext(a: nat, b: nat, k: nat, x: nat, y: nat, c: nat)
    requires x == a / 2 && y == b / 2 && XorBits(x, y, k) == c
    ensures XorBits(a, b, k + 1) == 2 * c + (a + b) % 2
  {
  }

  lemma NoBits()
    ensures XorBits(0, 0, 0) == 0
  {
  }

  lemma HelloH()
    ensures Xor(0x7f, 0x37) == 0x48
  {
    hide XorBits;
    NoBits();
    XorNext(0, 0, 0, 0, 0, 0);
    XorNext(1, 0, 1, 0, 0, 0);
    XorNext(3, 1, 2, 1, 0, 1);
    XorNext(7, 3, 3, 3, 1, 2);
    XorNext(15, 6, 4, 7, 3, 4);
    XorNext(31, 13, 5, 15, 6, 9);
    XorNext(63, 27, 6, 31, 13, 18);
    XorNext(127, 55, 7, 63, 27, 36);
  }

  lemma HelloE()
    ensures Xor(0x9f, 0xfa) == 0x65
  {
    hide XorBits;
    NoBits();
    XorNext(1, 1, 0, 0, 0, 0);
    XorNext(2, 3, 1, 1, 1, 0);
    XorNext(4, 7, 2, 2, 3, 1);
    XorNext(9, 15, 3, 4, 7, 3);
    XorNext(19, 31, 4, 9, 15, 6);
    XorNext(39, 62, 5, 19, 31, 12);
    XorNext(79, 125, 6, 39, 62, 25);
    XorNext(159, 250, 7, 79, 125, 50);
  }

  lemma HelloL()
    ensures Xor(0x4d, 0x21) == 0x6c
  {
    hide XorBits;
    NoBits();
    XorNext(0, 0, 0, 0, 0, 0);
    XorNext(1, 0, 1, 0, 0, 0);
    XorNext(2, 1, 2, 1, 0, 1);
    XorNext(4, 2, 3, 2, 1, 3);
    XorNext(9, 4, 4, 4, 2, 6);
    XorNext(19, 8, 5, 9, 4, 13);
    XorNext(38, 16, 6, 19, 8, 27);
    XorNext(77, 33, 7, 38, 16, 54);
  }

  lemma HelloAgain()
    ensures Xor(0x51, 0x3d) == 0x6c
  {
    hide XorBits;
    NoBits();
    XorNext(0, 0, 0, 0, 0, 0);
    XorNext(1, 0, 1, 0, 0, 0);
    XorNext(2, 1, 2, 1, 0, 1);
    XorNext(5, 3, 3, 2, 1, 3);
    XorNext(10, 7, 4, 5, 3, 6);
    XorNext(20, 15, 5, 10, 7, 13);
    XorNext(40, 30, 6, 20, 15, 27);
    XorNext(81, 61, 7, 40, 30, 54);
  }

  lemma HelloO()
    ensures Xor(0x58, 0x37) == 0x6f
  {
    hide XorBits;
    NoBits();
    XorNext(0, 0, 0, 0, 0, 0);
    XorNext(1, 0, 1, 0, 0, 0);
    XorNext(2, 1, 2, 1, 0, 1);
    XorNext(5, 3, 3, 2, 1, 3);
    XorNext(11, 6, 4, 5, 3, 6);
    XorNext(22, 13, 5, 11, 6, 13);
    XorNext(44, 27, 6, 22, 13, 27);
    XorNext(88, 55, 7, 44, 27, 55);
  }

  lemma FeedNothing(s: Session)
    ensures Feed(s, []) == Outcome(s, [], 0, Open)
  {
  }
}
