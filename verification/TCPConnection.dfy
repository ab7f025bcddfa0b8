/** The connection object, proved to be the connection of `Connections`. */
module TCPConnections {
  import opened Basics
  import opened WrappingIntegers
  import opened Segments
  import opened StreamReassemblers
  import opened Receivers
  import opened TCPSenders
  import S = Senders
  import C = Connections

  class TCPConnection {
    const rtTimeout: U16
    const receiver: TCPReceiver
    const sender: TCPSender
    var segmentsOut: seq<Segment>
    var linger: bool
    var sinceSegment: nat
    var active: bool

    /** The sender and everything in it. */
    ghost function SenderParts(): set<object> {
      {sender, sender.stream}
    }

    /** The receiver and everything in it. */
    ghost function ReceiverParts(): set<object> {
      {receiver, receiver.reassembler, receiver.reassembler.output,
       receiver.reassembler.buffer, receiver.reassembler.bitMap}
    }

    /** The parts are sound and share nothing. */
    ghost predicate Joined()
      reads this, sender, sender.stream, receiver, receiver.reassembler, receiver.reassembler.output,
            receiver.reassembler.buffer, receiver.reassembler.bitMap
    {
      && sender.Valid() && receiver.Valid()
      && SenderParts() !! ReceiverParts()
    }

    ghost function Model(): C.Conn
      requires receiver.Valid()
      reads this, sender, sender.stream, receiver, receiver.reassembler, receiver.reassembler.output,
            receiver.reassembler.buffer, receiver.reassembler.bitMap
    {
      C.Conn(rtTimeout, sender.model, receiver.Model(), segmentsOut, linger, sinceSegment, active)
    }

    ghost predicate Valid()
      reads this, sender, sender.stream, receiver, receiver.reassembler, receiver.reassembler.output,
            receiver.reassembler.buffer, receiver.reassembler.bitMap
    {
      Joined() && C.ConnInv(Model())
    }

    constructor (sendCapacity: nat, recvCapacity: nat, rtTimeout: U16, isn: U32)
      requires 0 < recvCapacity
      ensures Valid() && Model() == C.NewConn(sendCapacity, recvCapacity, rtTimeout, isn)
      ensures fresh(SenderParts()) && fresh(ReceiverParts())
    {
      hide S.Inv, TCPSender.Tied, C.ConnInv, StreamReassembler.Valid;
      this.rtTimeout := rtTimeout;
      receiver := new TCPReceiver(recvCapacity);
      sender := new TCPSender(sendCapacity, rtTimeout, isn);
      segmentsOut, linger, sinceSegment, active := [], true, 0, true;
      new;
      C.NewConnInv(sendCapacity, recvCapacity, rtTimeout, isn);
    }

    /** `clean_shutdown`. */
    method CleanShutdown()
      requires Joined() && Model().Valid()
      modifies this`linger, this`active
      ensures Joined() && Model() == C.Clean(old(Model()))
    {
      hide S.Inv, StreamReassembler.Valid;
      if receiver.reassembler.output.inputEnded {
        if !sender.stream.Eof() {
          linger := false;
        } else if sender.bytesInFlight == 0 {
          if !linger || sinceSegment >= 10 * rtTimeout {
            active := false;
          }
        }
      }
    }

    /** The body of the loop in `send_sender_segments`. */
    method DrainOne()
      requires Joined() && sender.segmentsOut != [] && sender.model.queue != []
      modifies this`segmentsOut, sender`segmentsOut, sender`model
      ensures Joined() && |sender.segmentsOut| == |old(sender.segmentsOut)| - 1
      ensures sender.model == old(sender.model).(queue := old(sender.model).queue[1..])
      ensures segmentsOut == old(segmentsOut) + [C.Stamp(old(Model()), old(sender.model).queue[0])]
    {
      hide S.Inv, TCPSender.Tied, StreamReassembler.Valid, Wrap;
      sender.Mirrors();
      var seg := sender.Dequeue();
      if receiver.Ackno().Some? {
        seg := seg.(header := seg.header.(
          ack := true, ackno := receiver.Ackno().value, win := Low16(receiver.WindowSize())));
      }
      segmentsOut := segmentsOut + [seg];
    }

    /** The loop of `send_sender_segments`. */
    method DrainSender()
      requires Joined()
      modifies this`segmentsOut, sender`segmentsOut, sender`model
      ensures Joined()
      ensures segmentsOut == old(segmentsOut) + C.StampAll(old(Model()), old(sender.model).queue)
      ensures sender.model == old(sender.model).(queue := [])
    {
      hide S.Inv, TCPSender.Tied, StreamReassembler.Valid, C.StampAll, C.Stamp, Receiver.Valid;
      ghost var before, all := Model(), C.StampAll(Model(), sender.model.queue);
      sender.Mirrors();
      while sender.segmentsOut != []
        modifies this`segmentsOut, sender`segmentsOut, sender`model
        invariant Joined() && |sender.segmentsOut| == |sender.model.queue|
        invariant segmentsOut + C.StampAll(before, sender.model.queue) == old(segmentsOut) + all
        invariant sender.model == before.snd.(queue := sender.model.queue)
        decreases |sender.segmentsOut|
      {
        C.StampFront(before, sender.model.queue);
        C.StampSame(before, Model(), sender.model.queue[0]);
        ghost var rest := C.StampAll(before, sender.model.queue[1..]);
        DrainOne();
        assert segmentsOut + rest == old(segmentsOut) + all;
      }
      C.StampFront(before, []);
    }

    /** `send_sender_segments`. */
    method SendSenderSegments()
      requires Joined() && Model().Valid()
      modifies this`segmentsOut, this`linger, this`active, sender`segmentsOut, sender`model
      ensures Joined() && Model() == C.Flush(old(Model()))
    {
      hide S.Inv, TCPSender.Tied, StreamReassembler.Valid, C.StampAll, C.Clean;
      DrainSender();
      CleanShutdown();
    }

    /** Both streams fail and the connection dies. */
    method FailStreams()
      requires Joined()
      modifies this`active, sender`model, sender.stream, receiver.reassembler.output
      ensures Joined() && Model() == C.Abort(old(Model())) && sender.segmentsOut == old(sender.segmentsOut)
    {
      hide S.Inv, TCPSender.Tied, StreamReassembler.Valid;
      receiver.FailStream();
      sender.FailStream();
      active := false;
    }

    /** `unclean_shutdown`. */
    method UncleanShutdown()
      requires Joined() && sender.segmentsOut != [] && sender.model.queue != []
      modifies this`segmentsOut, this`active, sender`segmentsOut, sender`model, sender.stream
      modifies receiver.reassembler.output
      ensures Joined() && Model() == C.Unclean(old(Model()))
    {
      hide S.Inv, TCPSender.Tied, StreamReassembler.Valid, Wrap;
      ghost var before := Model();
      FailStreams();
      sender.Mirrors();
      var seg := sender.Dequeue();
      seg := seg.(header := seg.header.(ack := true));
      if receiver.Ackno().Some? {
        seg := seg.(header := seg.header.(ackno := receiver.Ackno().value));
      }
      seg := seg.(header := seg.header.(win := Low16(receiver.WindowSize()), rst := true));
      assert seg == C.ResetOf(before, before.snd.queue[0]);
      segmentsOut := segmentsOut + [seg];
    }

    method ConnectJoined()
      requires Joined() && Model().Valid()
      modifies this, SenderParts()
      ensures Joined() && Model() == C.Connect(old(Model()))
    {
      hide S.Inv, TCPSender.Tied, StreamReassembler.Valid, S.FillWindow, C.Flush;
      C.FillKeeps(sender.model);
      sender.FillWindow();
      SendSenderSegments();
    }

    /** `connect`. */
    method Connect()
      requires Valid()
      modifies this, SenderParts()
      ensures Valid() && Model() == C.Connect(old(Model()))
    {
      hide S.Inv, TCPSender.Tied, StreamReassembler.Valid, C.Connect, C.ConnInv;
      C.ConnectInv(Model());
      ConnectJoined();
    }

    /** `write`; not guarded by `active`. */
    method Write(data: seq<Byte>) returns (written: nat)
      requires Valid()
      modifies this, SenderParts()
      ensures Valid() && (Model(), written) == C.Write(old(Model()), data)
    {
      hide S.Inv, TCPSender.Tied, StreamReassembler.Valid, S.FillWindow, C.Flush, C.ConnInv;
      ghost var before := Model();
      C.WriteKeepsInv(before, data);
      if data == [] {
        return 0;
      }
      C.FillKeeps(before.snd.Write(data));
      written := sender.WriteStream(data);
      sender.FillWindow();
      SendSenderSegments();
    }

    /** `end_input_stream`. */
    method EndInputStream()
      requires Valid()
      modifies this, SenderParts()
      ensures Valid() && Model() == C.EndInput(old(Model()))
    {
      hide S.Inv, TCPSender.Tied, StreamReassembler.Valid, S.FillWindow, C.Flush, C.ConnInv;
      ghost var before := Model();
      C.EndInputInv(before);
      C.FillKeeps(before.snd.EndInput());
      sender.EndStream();
      sender.FillWindow();
      SendSenderSegments();
    }

    /** `tick`; the call of `unclean_shutdown` always finds the segment just retransmitted. */
    method Tick(ms: nat)
      requires Valid()
      modifies this, SenderParts(), receiver.reassembler.output
      ensures Valid() && Model() == C.Elapse(old(Model()), ms)
    {
      hide S.Inv, TCPSender.Tied, StreamReassembler.Valid, S.Tick, C.Flush, C.ConnInv, C.Unclean;
      ghost var before := Model();
      C.ElapseInv(before, ms);
      if !active {
        return;
      }
      S.TickFields(before.snd, ms);
      sinceSegment := sinceSegment + ms;
      sender.Tick(ms);
      sender.Mirrors();
      if sender.retx > C.MAX_RETX_ATTEMPTS {
        UncleanShutdown();
      }
      SendSenderSegments();
    }

    /** The end of `segment_received`: acknowledge, answer, reset or transmit. */
    method Respond(seg: Segment)
      requires Joined() && Model().Valid() && active && sender.Recent()
      modifies this, SenderParts(), receiver.reassembler.output
      ensures Joined() && Model() == C.Answer(old(Model()), seg)
    {
      hide S.Inv, TCPSender.Tied, StreamReassembler.Valid, S.AckReceived, C.Flush, C.Unclean;
      ghost var before := Model();
      C.AckKeeps(before.snd, seg.header.ackno, seg.header.win);
      sender.AckReceived(seg.header.ackno, seg.header.win);
      sender.Mirrors();
      if sender.stream.BufferEmpty() && seg.LengthInSequenceSpace() > 0 {
        sender.SendEmptySegment();
      }
      if seg.header.rst {
        sender.SendEmptySegment();
        sender.Mirrors();
        UncleanShutdown();
        return;
      }
      SendSenderSegments();
    }

    /** `segment_received`. */
    method SegmentReceived(seg: Segment)
      requires Valid() && receiver.Headroom(seg) && sender.Recent()
      modifies this, SenderParts(), ReceiverParts()
      ensures Valid() && Model() == C.SegmentReceived(old(Model()), seg)
    {
      hide S.Inv, TCPSender.Tied, StreamReassembler.Valid, Receive, C.Answer, C.Connect, C.ConnInv;
      ghost var before := Model();
      C.NextInv(before, C.Arrive(seg));
      if !active {
        return;
      }
      sinceSegment := 0;
      sender.Mirrors();
      if receiver.Ackno().None? && sender.nextSeqno == 0 {
        if !seg.header.syn {
          return;
        }
        var _ := receiver.SegmentReceived(seg);
        ConnectJoined();
        return;
      }
      if sender.nextSeqno > 0 && sender.bytesInFlight == sender.nextSeqno && receiver.Ackno().None? {
        if seg.payload != [] {
          return;
        }
        if !seg.header.ack {
          if seg.header.syn {
            var _ := receiver.SegmentReceived(seg);
            sender.SendEmptySegment();
          }
          return;
        }
        if seg.header.rst {
          FailStreams();
          return;
        }
      }
      var _ := receiver.SegmentReceived(seg);
      Respond(seg);
    }

    /** The destructor: a connection still active sends a reset. */
    method Destroy()
      requires Valid()
      modifies this, SenderParts(), receiver.reassembler.output
      ensures Joined() && Model() == C.Close(old(Model()))
      ensures !active
    {
      hide S.Inv, TCPSender.Tied, StreamReassembler.Valid, C.Unclean, C.ConnInv;
      if active {
        sender.SendEmptySegment();
        sender.Mirrors();
        UncleanShutdown();
        assert !C.Unclean(old(Model()).(snd := S.SendEmpty(old(Model()).snd))).active by {
          C.UncleanDies(old(Model()));
        }
      }
    }
  }
}
