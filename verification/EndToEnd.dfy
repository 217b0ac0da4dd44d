/** From `Websocket::send` to the peer: what a client reads off the wire, whatever the socket takes when. */
module EndToEnd {
  import opened Bytes
  import opened Frames
  import opened Websockets
  import opened Transmit
  import opened TransmitRuns

  /** Every write of the log is one unmasked frame. */
  ghost predicate Sends(log: seq<Write>, frames: seq<Frame>) {
    && |log| == |frames|
    && (forall f :: f in frames ==> Valid(f) && f.mask.None?)
    && forall i :: 0 <= i < |log| ==> log[i].buf == Serialize(frames[i])
  }

  lemma {:induction false} BufsAreFrames(log: seq<Write>, frames: seq<Frame>, n: nat)
    requires Sends(log, frames) && n <= |log|
    ensures forall f :: f in frames[..n] ==> f in frames
    ensures Bufs(log[..n]) == SerializeAll(frames[..n])
  {
    hide Serialize, Valid;
    if n > 0 {
      BufsAreFrames(log, frames, n - 1);
      assert log[..n][..n - 1] == log[..n - 1];
      assert frames[..n] == frames[..n - 1] + [frames[n - 1]];
      SerializeAllAppend(frames[..n - 1], frames[n - 1]);
    }
  }

  lemma {:induction false} SerializeAllAppend(fs: seq<Frame>, f: Frame)
    requires Valid(f) && forall g :: g in fs ==> Valid(g)
    ensures SerializeAll(fs + [f]) == SerializeAll(fs) + Serialize(f)
  {
    hide Serialize, Valid;
    if fs == [] {
      assert fs + [f] == [f];
      assert SerializeAll([f]) == Serialize(f) + SerializeAll([]);
    } else {
      assert (fs + [f])[1..] == fs[1..] + [f];
      SerializeAllAppend(fs[1..], f);
      Associative(Serialize(fs[0]), SerializeAll(fs[1..]), Serialize(f));
    }
  }

  /** A frame cut short is not a frame yet. */
  lemma PartOfFrame(f: Frame, k: nat)
    requires Valid(f) && k < |Serialize(f)|
    ensures !HasFrame(Serialize(f)[..k], f.mask.Some?)
  {
    hide Serialize, FirstFrame;
    var w := Serialize(f);
    var a := w[..k];
    if HasFrame(a, f.mask.Some?) {
      assert w == a + w[k..];
      FrameStays(a, w[k..], f.mask.Some?);
      assert w + [] == w;
      ReadSerialized(f, []);
    }
  }

  /**
   At every moment of every run, the peer that reads the wire by the same length rules finds exactly the
   frames of the completed writes, in lock order, and the sent part of the next frame behind them.
   */
  lemma PeerReadsPrefix(t: Tx, frames: seq<Frame>)
    requires Consistent(t) && Sends(t.log, frames)
    ensures |t.jobs| <= |frames|
    ensures ReadAll(t.wire, false) == (frames[..|frames| - |t.jobs|], SentOfFront(t.jobs))
  {
    hide Serialize, Valid, HasFrame, FirstFrame, FrameSize, Bufs, Receipts, Remaining;
    var n := |t.log| - |t.jobs|;
    BufsAreFrames(t.log, frames, n);
    ConsistentSentWithin(t);
    var part := SentOfFront(t.jobs);
    ReadAllSerialized(frames[..n], false, part);
    assert !HasFrame(part, false) by {
      if t.jobs == [] {
        NoFrameInNothing();
      } else {
        FrontOfRun(t, frames[n]);
        assert part == Serialize(frames[n])[..t.jobs[0].sent];
        FrameHasBytes(frames[n]);
        PartOfFrame(frames[n], t.jobs[0].sent);
      }
    }
    assert frames[..n] + [] == frames[..n];
  }

  lemma FrontOfRun(t: Tx, f: Frame)
    requires Consistent(t) && t.jobs != [] && Valid(f)
    requires t.log[|t.log| - |t.jobs|].buf == Serialize(f)
    ensures t.jobs[0].buf == Serialize(f) && (t.jobs[0].sent == 0 || t.jobs[0].sent < |t.jobs[0].buf|)
  {
    hide Serialize, Bufs, Receipts, Remaining;
    FrontWrite(t);
  }

  lemma FrameHasBytes(f: Frame)
    requires Valid(f)
    ensures |Serialize(f)| >= 2
  {
  }

  /** The messages of a list of `send` calls. */
  datatype Sent = Sent(opcode: nat, fin: bool, payload: Bytes)

  ghost predicate ValidSend(c: Sent) {
    c.opcode < 16 && |c.payload| < 0x1_0000_0000_0000_0000
  }

  function FramesOf(calls: seq<Sent>): (r: seq<Frame>)
    ensures |r| == |calls|
    ensures forall i :: 0 <= i < |calls| ==> r[i] == Outgoing(calls[i].opcode, calls[i].fin, calls[i].payload)
  {
    seq(|calls|, i requires 0 <= i < |calls| => Outgoing(calls[i].opcode, calls[i].fin, calls[i].payload))
  }

  /**
   Any `send` calls, any schedule of the socket: the peer has read exactly the payloads of the completed
   writes, with their opcodes, a prefix of what was sent; once the queue is empty it has read all of them.
   */
  lemma SendsArrive(steps: seq<Step>, calls: seq<Sent>)
    requires Consistent(INITIAL)
    requires forall c :: c in calls ==> ValidSend(c)
    requires var t := Run(INITIAL, steps);
             |t.log| == |calls| && forall i :: 0 <= i < |calls| ==>
               ValidSend(calls[i]) && t.log[i].buf == Wire(calls[i].opcode, calls[i].fin, calls[i].payload)
    ensures var t := Run(INITIAL, steps);
            && |t.jobs| <= |calls|
            && ReadAll(t.wire, false) == (FramesOf(calls[..|calls| - |t.jobs|]), SentOfFront(t.jobs))
            && (t.jobs == [] ==> ReadAll(t.wire, false) == (FramesOf(calls), []))
  {
    hide Serialize, Consistent, Run, ReadAll, HasFrame;
    var t := Run(INITIAL, steps);
    var frames := FramesOf(calls);
    forall i | 0 <= i < |calls|
      ensures Valid(frames[i]) && frames[i].mask.None?
    {
      assert ValidSend(calls[i]);
      ShortestFits(|calls[i].payload|, Len7);
    }
    PeerReadsPrefix(t, frames);
    assert frames[..|calls| - |t.jobs|] == FramesOf(calls[..|calls| - |t.jobs|]);
    assert calls[..|calls|] == calls;
  }
}
