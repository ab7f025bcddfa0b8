/** Connections that have just been opened, and two short runs that start there. */
module Openings {
  import opened Basics
  import opened WrappingIntegers
  import Reassembly
  import opened Segments
  import R = Receivers
  import opened Senders
  import opened Connections

  /** A connection that has just sent its SYN and whose owner has collected it. */
  predicate JustOpened(c: Conn, isn: U32) {
    && ConnInv(c) && c.active && c.out == [] && c.snd.isn == isn
    && c.snd.outstanding == [SYN] && c.snd.queue == [] && c.snd.nextSeqno == 1 && c.snd.bytesInFlight == 1
    && c.snd.stream.written == [] && !c.snd.stream.ended && !c.snd.finSent
    && Untouched(c.rcv)
  }

  predicate Untouched(r: R.Receiver) {
    r.isn.None? && r.finAbsSeq == 0 && r.reasm.Rpos() == 0 && r.reasm.pending == map[]
  }

  lemma OpenFresh(sendCapacity: nat, recvCapacity: nat, rtTimeout: U16, isn: U32)
    requires 0 < recvCapacity
    ensures var c := Next(NewConn(sendCapacity, recvCapacity, rtTimeout, isn), Open);
            && c.out == [SYN.Wire(isn)] && JustOpened(Next(c, Collect), isn)
            && Next(c, Collect).snd.stream.capacity == sendCapacity
  {
    hide ConnInv, Wrap;
    var c0 := NewConn(sendCapacity, recvCapacity, rtTimeout, isn);
    NewConnInv(sendCapacity, recvCapacity, rtTimeout, isn);
    NextInv(c0, Open);
    NextInv(Next(c0, Open), Collect);
    var w := FillWindow(c0.snd);
    assert w.queue == [SYN];
    assert StampAll(c0.(snd := w), w.queue) == [Stamp(c0.(snd := w), w.queue[0])];
  }

  /** A peer's SYN in answer to none: both are opening at once. The peer is known, and our own SYN still outstanding. */
  lemma PeerSyn(c: Conn, isn: U32, peer: U32)
    requires JustOpened(c, isn)
    ensures var c' := Next(c, Arrive(SYN.Wire(peer)));
            && ConnInv(c') && c'.active && c'.out == [] && c'.snd.isn == isn && c'.rcv.isn == Some(peer)
            && c'.rcv.reasm.Rpos() == 0 && SynOutstanding(c'.snd) && c'.snd.queue == [AbsSegment(1, false, false, [])]
            && !c'.snd.stream.ended
  {
    hide ConnInv;
    NextInv(c, Arrive(SYN.Wire(peer)));
    ReceiveSyn(c.rcv, peer);
  }

  lemma ReceiveSyn(r: R.Receiver, peer: U32)
    requires r.Valid() && Untouched(r)
    ensures var r' := R.Receive(r, SYN.Wire(peer)).0; r'.isn == Some(peer) && r'.reasm.Rpos() == 0
  {
    hide R.Place, Unwrap;
    assert Wrap(0, peer) == peer by { WrapIsMod(0, peer); }
    PlaceNothing(r.(isn := Some(peer)), SYN.Wire(peer), Unwrap(peer, peer, 0));
  }

  lemma PlaceNothing(r: R.Receiver, seg: Segment, abs: nat)
    requires r.Valid() && seg.payload == [] && r.reasm.Rpos() == 0 && r.reasm.pending == map[]
    ensures var r' := R.Place(r, seg, 0, abs).0; r'.isn == r.isn && r'.reasm.Rpos() == 0
  {
    PushNothing(r.reasm, if abs > 0 then abs - 1 else 0, true);
    PushNothing(r.reasm, if abs > 0 then abs - 1 else 0, false);
  }

  lemma PushNothing(r: Reassembly.Reassembler, index: nat, eof: bool)
    requires r.Valid() && r.pending == map[]
    ensures Reassembly.Push(r, [], index, eof).Rpos() == r.Rpos()
  {
    assert Reassembly.Merged(r, [], index) == map[];
  }

  // ----- a dead connection that sends -----

  /** A reset is answered with the first queued segment, and the rest stays queued. */
  lemma ResetLeavesQueue(c: Conn, seg: Segment)
    requires ConnInv(c) && c.active && !Listening(c) && !SynSent(c)
    requires c.out == [] && c.snd.queue != [] && seg.header.rst
    ensures var c' := Next(c, Arrive(seg));
            ConnInv(c') && !c'.active && c'.snd.queue != [] && |c'.out| == 1 && c'.out[0].header.rst
  {
    hide Inv, AckAbs, Answer, R.Receive, Unwrap, BackedOff, Quiet;
    NextInv(c, Arrive(seg));
    AckInv(c.snd, Unwrap(seg.header.ackno, c.snd.isn, c.snd.nextSeqno), seg.header.win);
    var d := c.(sinceSegment := 0);
    AnswerReset(d.(rcv := R.Receive(d.rcv, seg).0), seg);
  }

  lemma AnswerReset(c: Conn, seg: Segment)
    requires c.Valid() && c.out == [] && seg.header.rst
    requires AckReceived(c.snd, seg.header.ackno, seg.header.win).queue != []
    ensures var c' := Answer(c, seg); c'.snd.queue != [] && |c'.out| == 1 && c'.out[0].header.rst && !c'.active
  {
    hide AckReceived;
  }

  /**
   * A write on a dead connection does hand out segments: after a simultaneous open and any reset from the peer, the
   * segment still queued goes out behind the reset.
   */
  lemma WriteAfterReset(sendCapacity: nat, recvCapacity: nat, rtTimeout: U16, isn: U32, peer: U32,
                        seg: Segment, data: seq<Byte>)
    requires 0 < recvCapacity && seg.header.rst && data != []
    ensures var evs := [Open, Collect, Arrive(SYN.Wire(peer)), Arrive(seg)];
            var c := Run(NewConn(sendCapacity, recvCapacity, rtTimeout, isn), evs);
            var c' := Run(NewConn(sendCapacity, recvCapacity, rtTimeout, isn), evs + [Send(data)]);
            && !c.active && |c.out| == 1 && c.out[0].header.rst
            && !c'.active && 1 < |c'.out|
  {
    hide Next, Run, JustOpened, ConnInv;
    var c0 := NewConn(sendCapacity, recvCapacity, rtTimeout, isn);
    var evs := [Open, Collect, Arrive(SYN.Wire(peer)), Arrive(seg)];
    var c2 := Next(Next(c0, Open), Collect);
    var c3 := Next(c2, Arrive(SYN.Wire(peer)));
    RunFour(c0, Open, Collect, Arrive(SYN.Wire(peer)), Arrive(seg));
    RunSnoc(c0, evs, Send(data));
    OpenFresh(sendCapacity, recvCapacity, rtTimeout, isn);
    PeerSyn(c2, isn, peer);
    ResetLeavesQueue(c3, seg);
    DeadWriteIs(Next(c3, Arrive(seg)), data);
  }

  lemma DeadWriteIs(c: Conn, data: seq<Byte>)
    requires ConnInv(c) && !c.active && c.snd.queue != [] && data != []
    ensures |c.out| < |Next(c, Send(data)).out| && !Next(c, Send(data)).active
  {
    hide ConnInv, Write;
    DeadWrite(c, data);
  }

  lemma RunFour(c0: Conn, a: Event, b: Event, c: Event, d: Event)
    requires c0.Valid()
    ensures Run(c0, [a, b, c, d]) == Next(Next(Next(Next(c0, a), b), c), d)
  {
    hide Next, Run;
    RunNothing(c0);
    RunSnoc(c0, [], a);
    RunSnoc(c0, [a], b);
    RunSnoc(c0, [a, b], c);
    RunSnoc(c0, [a, b, c], d);
    FourEvents(a, b, c, d);
  }

  lemma FourEvents(a: Event, b: Event, c: Event, d: Event)
    ensures [] + [a] == [a] && [a] + [b] == [a, b] && [a, b] + [c] == [a, b, c] && [a, b, c] + [d] == [a, b, c, d]
  {
  }

  lemma RunNothing(c: Conn)
    requires c.Valid()
    ensures Run(c, []) == c
  {
  }

  // ----- a stream written after its FIN -----

  /** The peer's SYN with the acknowledgement of ours, opening a window of ten. */
  function SynAck(isn: U32, peer: U32): Segment {
    var seg := SYN.Wire(peer);
    seg.(header := seg.header.(ack := true, ackno := Wrap(1, isn), win := 10))
  }

  /** The handshake is done, the window open, nothing to send. */
  lemma Established(c: Conn, isn: U32, peer: U32)
    requires JustOpened(c, isn)
    ensures var c' := Next(c, Arrive(SynAck(isn, peer)));
            && ConnInv(c') && !c'.snd.stream.error
            && c'.snd.Una() == c'.snd.nextSeqno == 1 && c'.snd.windowSize == 10 && c'.snd.Edge() == 11
            && c'.snd.stream.written == [] && !c'.snd.stream.ended && !c'.snd.finSent
            && c'.snd.stream.capacity == c.snd.stream.capacity
  {
    hide Inv, FillWindow, Settle, Unwrap, R.Receive, Appends, BackedOff, Quiet, StampAll;
    var seg, s := SynAck(isn, peer), c.snd;
    NextInv(c, Arrive(seg));
    UnwrapWrap(1, isn, 1);
    InvValid(s);
    InvTiles(s);
    SettleInv(s, 1, 10);
    SettleContext(s, 1, 10);
    var t := Settle(s, 1, 10);
    AckPops(s, 1, 10);
    InvTiles(t);
    FillIdle(t);
    AckKeeps(s, seg.header.ackno, 10);
    HandleSynAck(c, seg);
  }

  /** Nothing to send: filling the window changes nothing. */
  lemma FillIdle(t: Sender)
    requires t.Valid() && t.synSent && !HasWork(t)
    ensures FillWindow(t) == t
  {
  }

  lemma HandleSynAck(c: Conn, seg: Segment)
    requires c.Valid() && c.active && SynSent(c) && seg.payload == [] && seg.header.ack && !seg.header.rst
    ensures var acked := AckReceived(c.snd, seg.header.ackno, seg.header.win);
            acked.retx <= c.snd.retx && Next(c, Arrive(seg)).snd == acked.(queue := [])
  {
    hide AckReceived, R.Receive, StampAll;
    AckKeeps(c.snd, seg.header.ackno, seg.header.win);
  }

  /** Ending the stream then sends the FIN at once. */
  lemma FinishSends(c: Conn)
    requires ConnInv(c) && c.snd.Una() == c.snd.nextSeqno == 1 && c.snd.windowSize == 10 && c.snd.Edge() == 11
    requires c.snd.stream.written == [] && !c.snd.finSent && !c.snd.stream.error
    ensures var c' := Next(c, Finish);
            && ConnInv(c') && c'.snd.finSent && c'.snd.stream.Eof() && !c'.snd.stream.error
            && c'.snd.stream.capacity == c.snd.stream.capacity
  {
    hide Inv, FillWindow, Flush, Appends, BackedOff, Quiet;
    NextInv(c, Finish);
    var ended := c.snd.EndInput();
    InvValid(c.snd);
    EndInv(c.snd);
    FillMaximal(ended);
    FillInv(ended);
    InvValid(FillWindow(ended));
    FillKeeps(ended);
    FlushKeeps(c.(snd := FillWindow(ended)));
  }
}
