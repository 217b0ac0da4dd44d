/** The write path of ConnectionHandler::Pimpl, over its fields; the socket is a field that records what it took. */
module ConnectionOutput {
  import opened Bytes
  import opened Transmit
  import opened TransmitRuns

  class Output {
    var transmitJobs: seq<Job>
    var outBufferSize: int
    var armedOut: bool
    // the socket: what it took, and what the next send calls will answer
    var wire: Bytes
    var net: seq<nat>
    // history: callbacks that ran, writes in lock order
    ghost var fired: seq<Receipt>
    ghost var log: seq<Write>

    constructor ()
      ensures State() == INITIAL
    {
      transmitJobs, outBufferSize, armedOut := [], 0, false;
      wire, net, fired, log := [], [], [], [];
    }

    ghost function State(): (t: Tx)
      reads this
    {
      Tx(transmitJobs, outBufferSize, armedOut, wire, fired, log, net)
    }

    /** One `send` call: how many of the offered bytes the socket takes, or None for would-block. */
    method SocketSend(offered: Bytes) returns (taken: Option<nat>)
      requires offered != []
      modifies this`wire, this`net
      ensures taken.None? <==> old(net) == [] || old(net)[0] == 0
      ensures taken.None? ==> wire == old(wire) && net == if old(net) == [] then [] else old(net)[1..]
      ensures taken.Some? ==> taken.value == Min(old(net)[0], |offered|) && net == old(net)[1..]
                              && wire == old(wire) + offered[..taken.value]
    {
      if net == [] {
        return None;
      }
      var answer := net[0];
      net := net[1..];
      if answer == 0 {
        return None;
      }
      var w := Min(answer, |offered|);
      wire := wire + offered[..w];
      taken := Some(w);
    }

    /** The loop of flush_job. */
    method Flush(buf: Bytes, start: nat) returns (bytesSent: nat)
      requires start <= |buf|
      modifies this`wire, this`net
      ensures Push(buf, start, old(wire), old(net)) == Progress(bytesSent, wire, net)
    {
      bytesSent := start;
      while bytesSent < |buf|
        invariant bytesSent <= |buf|
        invariant Push(buf, start, old(wire), old(net)) == Push(buf, bytesSent, wire, net)
        decreases |buf| - bytesSent
      {
        ghost var before := bytesSent;
        var w := SocketSend(buf[bytesSent..]);
        if w.None? {
          return;
        }
        assert buf[before..][..w.value] == buf[before..before + w.value];
        bytesSent := bytesSent + w.value;
      }
    }

    method RunCallback(done: Callback)
      modifies this
      ensures State() == Complete(old(State()), done)
      decreases done, 1
    {
      match done
      case NoCallback =>
      case Callback(id, writes) =>
        fired := fired + [Receipt(id, |wire|)];
        WriteEach(writes);
    }

    method WriteEach(ws: seq<Write>)
      modifies this
      ensures State() == SubmitAll(old(State()), ws)
      decreases ws, 0
    {
      if ws != [] {
        WriteLocked(ws[0]);
        WriteEach(ws[1..]);
      }
    }

    /** `Pimpl::write`; a callback re-enters it with the recursive lock already held. */
    method WriteLocked(w: Write)
      modifies this
      ensures State() == Submit(old(State()), w)
      decreases w, 0
    {
      log := log + [w];
      var bytesSent := 0;
      var flushed := false;
      if transmitJobs == [] {
        bytesSent := Flush(w.buf, 0);
        flushed := bytesSent == |w.buf|;
        if flushed {
          RunCallback(w.done);
        }
      }
      if !flushed {
        outBufferSize := outBufferSize + (|w.buf| - bytesSent);
        transmitJobs := transmitJobs + [Job(w.buf, bytesSent, w.done)];
        armedOut := true;
      }
    }

    /** A write from outside: nothing is lost, the queue stays in order, the counter exact. */
    method WriteBuffer(w: Write)
      requires Consistent(State())
      modifies this
      ensures Consistent(State()) && State() == Submit(old(State()), w)
      ensures old(log) + [w] <= log
    {
      SubmitConsistent(State(), w);
      SubmitLogs(State(), w);
      WriteLocked(w);
    }

    /** The EPOLLOUT branch of operator(): the front job, by index, until the queue is empty or the socket blocks. */
    method OnWritable()
      requires Consistent(State()) && SentWithin(transmitJobs)
      modifies this
      ensures Consistent(State()) && State() == Drain(old(State())) && old(log) <= log
      ensures transmitJobs == [] <==> outBufferSize == 0
    {
      DrainConsistent(State());
      DrainStops(State());
      DrainLogs(State());
      while transmitJobs != []
        invariant SentWithin(transmitJobs) && Drain(State()) == Drain(old(State()))
        decreases QueueWeight(transmitJobs)
      {
        var more := FlushFront();
        if !more {
          return;
        }
      }
    }

    /** One turn of that loop; `more` is false when the socket would block. */
    method FlushFront() returns (more: bool)
      requires transmitJobs != [] && SentWithin(transmitJobs)
      modifies this
      ensures more ==> SentWithin(transmitJobs) && Drain(State()) == Drain(old(State()))
                       && QueueWeight(transmitJobs) < old(QueueWeight(transmitJobs))
      ensures !more ==> State() == Drain(old(State()))
    {
      hide Push, Complete, QueueWeight;
      ghost var before := State();
      FrontWithin(transmitJobs);
      var job := transmitJobs[0];
      var toSend := |job.buf| - job.sent;
      var bytesSent := Flush(job.buf, job.sent);
      more := bytesSent == |job.buf|;
      transmitJobs := transmitJobs[0 := job.(sent := bytesSent)];
      if more {
        CompleteQueued(State(), job.done);
        RunCallback(job.done);
      }
      outBufferSize := outBufferSize - (toSend - (|job.buf| - bytesSent));
      if more {
        transmitJobs := transmitJobs[1..];
        FrontDone(before);
      }
    }
  }
}
