/** How the library summarises sender, receiver and connection, and what the summaries mean. */
module StateSummaries {
  import opened Basics
  import opened WrappingIntegers
  import opened Segments
  import R = Receivers
  import opened Senders
  import opened Connections
  import opened Openings

  datatype SenderState = SenderError | Closed | SynSent | SynAcked | FinSent | FinAcked

  datatype ReceiverState = ReceiverError | Listen | SynRecv | FinRecv

  /** `state_summary` of a sender, from its counters alone. */
  function SenderSummary(s: Sender): SenderState
    requires s.Valid()
  {
    if s.stream.error then SenderError
    else if s.nextSeqno == 0 then Closed
    else if s.nextSeqno == s.bytesInFlight then SynSent
    else if !s.stream.Eof() then SynAcked
    else if s.nextSeqno < |s.stream.written| + 2 then SynAcked
    else if s.bytesInFlight != 0 then FinSent
    else FinAcked
  }

  /** `state_summary` of a receiver. */
  function ReceiverSummary(r: R.Receiver): ReceiverState {
    if r.reasm.out.error then ReceiverError
    else if r.isn.None? then Listen
    else if r.reasm.out.ended then FinRecv
    else SynRecv
  }

  datatype TCPState = TCPState(sender: SenderState, receiver: ReceiverState, active: bool, linger: bool)

  function StateOf(c: Conn): TCPState
    requires c.Valid()
  {
    TCPState(SenderSummary(c.snd), ReceiverSummary(c.rcv), c.active, c.active && c.linger)
  }

  const CLOSED := TCPState(FinAcked, FinRecv, false, false)
  const RESET := TCPState(SenderError, ReceiverError, false, false)

  /** The receiver's state tells what its acknowledgements cover: nothing, the stream so far, or the FIN too. */
  lemma ReceiverSummaryMeans(r: R.Receiver, sent: seq<Byte>, finished: bool, isn: U32)
    requires R.Tracks(r, sent, finished, isn) && !r.reasm.out.error
    ensures ReceiverSummary(r) == Listen <==> r.Ackno() == None
    ensures ReceiverSummary(r) == SynRecv <==> r.isn.Some? && r.AbsAckno() == |r.reasm.out.written| + 1
    ensures ReceiverSummary(r) == FinRecv <==> r.isn.Some? && r.AbsAckno() == |r.reasm.out.written| + 2
  {
    hide Wrap;
  }

  /** The counters tell what was sent and acknowledged. */
  lemma SenderSummaryMeans(s: Sender)
    requires Inv(s) && !s.stream.error
    ensures SenderSummary(s) != SenderError
    ensures SenderSummary(s) == Closed <==> !s.synSent
    ensures SenderSummary(s) == SynSent <==> SynOutstanding(s)
    ensures SenderSummary(s) == FinSent <==> s.finSent && s.stream.Size() == 0 && s.outstanding != []
    ensures SenderSummary(s) == FinAcked <==> s.finSent && s.stream.Size() == 0 && s.outstanding == []
  {
    hide Inv;
    InvTiles(s);
    TilesTotal(s.outstanding, s.Una(), s.nextSeqno);
    FrontSyn(s);
  }

  /** Where a state stands on the way from closed to finished. */
  function Rank(t: SenderState): nat {
    match t
    case SenderError => 5
    case Closed => 0
    case SynSent => 1
    case SynAcked => 2
    case FinSent => 3
    case FinAcked => 4
  }

  /** `t` is what `s` may have become: nothing sent or acknowledged was taken back. */
  predicate Onward(s: Sender, t: Sender) {
    && (s.synSent ==> t.synSent) && (s.finSent ==> t.finSent)
    && s.Una() <= t.Una()
    && s.stream.nread <= t.stream.nread
    && (s.stream.error ==> t.stream.error)
    && (s.stream.ended ==> t.stream.ended)
  }

  lemma OnwardRank(s: Sender, t: Sender)
    requires Inv(s) && Inv(t) && Onward(s, t) && !t.stream.error
    requires s.finSent ==> t.stream.written == s.stream.written
    ensures Rank(SenderSummary(s)) <= Rank(SenderSummary(t))
  {
    hide Inv, SenderSummary;
    SenderSummaryMeans(s);
    SenderSummaryMeans(t);
    InvTiles(s);
    InvTiles(t);
    TilesTotal(s.outstanding, s.Una(), s.nextSeqno);
    TilesTotal(t.outstanding, t.Una(), t.nextSeqno);
    FrontSyn(s);
    FrontSyn(t);
  }

  lemma FillOnward(s: Sender, t: Sender)
    requires Inv(t) && Onward(s, t)
    ensures Onward(s, FillWindow(t)) && FillWindow(t).stream.written == t.stream.written
  {
    hide Inv, FillWindow, Appends;
    FillInv(t);
  }

  lemma AnswerOnward(c: Conn, seg: Segment)
    requires c.Valid() && Inv(c.snd)
    ensures Onward(c.snd, Answer(c, seg).snd) && Answer(c, seg).snd.stream.written == c.snd.stream.written
  {
    hide AckReceived, Flush, Unclean, SendEmpty, Onward, Inv;
    AckOnward(c.snd, seg.header.ackno, seg.header.win);
    AckKeeps(c.snd, seg.header.ackno, seg.header.win);
    var acked := AckReceived(c.snd, seg.header.ackno, seg.header.win);
    var answered := if acked.stream.Size() == 0 && seg.LengthInSequenceSpace() > 0 then SendEmpty(acked) else acked;
    EmptyOnward(c.snd, acked);
    EmptyOnward(c.snd, answered);
    if seg.header.rst {
      UncleanOnward(c.snd, c.(snd := SendEmpty(answered)));
    } else {
      FlushKeeps(c.(snd := answered));
      DrainOnward(c.snd, answered);
    }
  }

  lemma AckOnward(s: Sender, ackno: U32, win: U16)
    requires Inv(s)
    ensures Onward(s, AckReceived(s, ackno, win)) && AckReceived(s, ackno, win).stream.written == s.stream.written
  {
    hide Inv, Quiet, AckAbs, Unwrap;
    InvValid(s);
    AckInv(s, Unwrap(ackno, s.isn, s.nextSeqno), win);
  }

  lemma EmptyOnward(s: Sender, t: Sender)
    requires t.Valid() && Onward(s, t)
    ensures Onward(s, SendEmpty(t)) && SendEmpty(t).stream == t.stream && SendEmpty(t).queue != []
    ensures SendEmpty(t).retx == t.retx
  {
  }

  lemma DrainOnward(s: Sender, t: Sender)
    requires Onward(s, t)
    ensures Onward(s, t.(queue := []))
  {
  }

  lemma UncleanOnward(s: Sender, c: Conn)
    requires c.snd.Valid() && c.rcv.Valid() && c.snd.queue != [] && Onward(s, c.snd)
    ensures Onward(s, Unclean(c).snd) && Unclean(c).snd.stream.written == c.snd.stream.written
  {
  }

  lemma HandleOnward(c: Conn, seg: Segment)
    requires ConnInv(c) && c.active
    ensures Onward(c.snd, Handle(c, seg).snd) && Handle(c, seg).snd.stream.written == c.snd.stream.written
  {
    hide Inv, BackedOff, Quiet, R.Receive, FillWindow, Flush, Answer;
    var received := c.(rcv := R.Receive(c.rcv, seg).0);
    InvValid(c.snd);
    if Listening(c) {
      FilledOnward(received, c.snd);
    } else {
      AnswerOnward(received, seg);
    }
  }

  lemma ElapseOnward(c: Conn, ms: nat)
    requires ConnInv(c)
    ensures Onward(c.snd, Elapse(c, ms).snd) && Elapse(c, ms).snd.stream.written == c.snd.stream.written
  {
    hide Inv, BackedOff, Quiet, Tick, Flush;
    if c.active {
      TickFields(c.snd, ms);
      var t := c.(sinceSegment := c.sinceSegment + ms, snd := Tick(c.snd, ms));
      FlushKeeps(if t.snd.retx > MAX_RETX_ATTEMPTS then Unclean(t) else t);
    }
  }

  lemma NextOnward(c: Conn, e: Event)
    requires ConnInv(c)
    ensures Onward(c.snd, Next(c, e).snd)
    ensures !e.Send? ==> Next(c, e).snd.stream.written == c.snd.stream.written
  {
    hide Inv, BackedOff, Quiet, FillWindow, Elapse, Handle, Flush;
    InvValid(c.snd);
    match e
    case Open => FilledOnward(c, c.snd);
    case Send(data) => WriteInv(c.snd, data); FilledOnward(c, c.snd.Write(data));
    case Finish => EndInv(c.snd); FilledOnward(c, c.snd.EndInput());
    case Arrive(seg) => if c.active { HandleOnward(c.(sinceSegment := 0), seg); }
    case Pass(ms) => ElapseOnward(c, ms);
    case Take(len) =>
    case Collect =>
    case Destroy =>
  }

  lemma FilledOnward(c: Conn, t: Sender)
    requires c.Valid() && Inv(t) && Onward(c.snd, t) && t.retx == c.snd.retx
    ensures FillWindow(t).retx == t.retx
    ensures var f := Flush(c.(snd := FillWindow(t))).snd; Onward(c.snd, f) && f.stream.written == t.stream.written
  {
    hide Inv, FillWindow, Flush;
    InvValid(t);
    FillOnward(c.snd, t);
    FillKeeps(t);
    FlushKeeps(c.(snd := FillWindow(t)));
  }

  /** No call writes to a stream that was ended. */
  predicate NoLateWrites(c: Conn, evs: seq<Event>)
    requires c.Valid()
  {
    evs == [] || (var init := evs[..|evs| - 1];
                  NoLateWrites(c, init) && (evs[|evs| - 1].Send? ==> !Run(c, init).snd.stream.ended))
  }

  /** In any run with no late write and no error the sender's state only moves forward. */
  lemma {:induction false} SummaryForward(c: Conn, evs: seq<Event>, k: nat)
    requires ConnInv(c) && NoLateWrites(c, evs) && k <= |evs| && !Run(c, evs).snd.stream.error
    ensures ConnInv(Run(c, evs))
    ensures Rank(SenderSummary(Run(c, evs[..k]).snd)) <= Rank(SenderSummary(Run(c, evs).snd))
    decreases |evs|
  {
    hide ConnInv, Next, SenderSummary, Inv;
    if evs == [] {
    } else {
      var init, e := evs[..|evs| - 1], evs[|evs| - 1];
      var p := Run(c, init);
      RunInv(c, init);
      NextInv(p, e);
      NextOnward(p, e);
      SenderInv(p);
      SenderInv(Next(p, e));
      InvValid(p.snd);
      OnwardRank(p.snd, Next(p, e).snd);
      if k < |evs| {
        assert evs[..k] == init[..k];
        SummaryForward(c, init, k);
      } else {
        assert evs[..k] == evs;
      }
    }
  }

  lemma SenderInv(c: Conn)
    requires ConnInv(c)
    ensures Inv(c.snd)
  {
  }

  /** Exactly when a write sends the state back: after the FIN, into an emptied stream that still has room. */
  lemma LateWrite(c: Conn, data: seq<Byte>)
    requires ConnInv(c) && !c.snd.stream.error
    ensures Rank(SenderSummary(Write(c, data).0.snd)) < Rank(SenderSummary(c.snd))
            <==> c.snd.finSent && c.snd.stream.Eof() && data != [] && 0 < c.snd.stream.capacity
  {
    hide Inv, SenderSummary, Write, Next, BackedOff, Quiet;
    var s, t := c.snd, Write(c, data).0.snd;
    InvValid(s);
    NextInv(c, Send(data));
    NextOnward(c, Send(data));
    WriteIs(c, data);
    SenderSummaryMeans(s);
    SenderSummaryMeans(t);
    FrontSyn(s);
    FrontSyn(t);
    if !s.finSent || t.stream.written == s.stream.written {
      OnwardRank(s, t);
    }
  }

  /** It does happen: open, hear the SYN acknowledged, end the stream, and write. */
  lemma LateWriteHappens(sendCapacity: nat, recvCapacity: nat, rtTimeout: U16, isn: U32, peer: U32, data: seq<Byte>)
    requires 0 < sendCapacity && 0 < recvCapacity && data != []
    ensures var evs := [Open, Collect, Arrive(SynAck(isn, peer)), Finish];
            var c0 := NewConn(sendCapacity, recvCapacity, rtTimeout, isn);
            Rank(SenderSummary(Run(c0, evs + [Send(data)]).snd)) < Rank(SenderSummary(Run(c0, evs).snd))
  {
    hide Next, Run, JustOpened, ConnInv, SenderSummary, SynAck;
    var c0 := NewConn(sendCapacity, recvCapacity, rtTimeout, isn);
    var evs := [Open, Collect, Arrive(SynAck(isn, peer)), Finish];
    var c2 := Next(Next(c0, Open), Collect);
    var c3 := Next(c2, Arrive(SynAck(isn, peer)));
    RunFour(c0, Open, Collect, Arrive(SynAck(isn, peer)), Finish);
    RunSnoc(c0, evs, Send(data));
    OpenFresh(sendCapacity, recvCapacity, rtTimeout, isn);
    Established(c2, isn, peer);
    FinishSends(c3);
    var c4 := Next(c3, Finish);
    LateWrite(c4, data);
    WriteIs(c4, data);
  }

  /** What a write leaves of the sender's stream. */
  lemma WriteIs(c: Conn, data: seq<Byte>)
    requires ConnInv(c)
    ensures var t := Write(c, data).0.snd;
            && Next(c, Send(data)).snd == t
            && t.stream.written == c.snd.stream.Write(data).written
            && (c.snd.finSent ==> t.stream.nread == c.snd.stream.nread)
            && t.stream.error == c.snd.stream.error
  {
    hide Inv, FillWindow, Flush, BackedOff, Quiet;
    InvValid(c.snd);
    var w := c.snd.Write(data);
    WriteInv(c.snd, data);
    FillKeeps(w);
    FillInv(w);
    if w.finSent { FillAfterFin(w); }
    FlushKeeps(c.(snd := FillWindow(w)));
  }

  lemma FillAfterFin(s: Sender)
    requires s.Valid() && s.synSent && s.finSent
    ensures FillWindow(s) == s
  {
  }

  /** A connection that dies is in the official state CLOSED, or RESET if it failed. */
  lemma DeadIsClosedOrReset(c: Conn, e: Event)
    requires ConnInv(c) && c.active && !Next(c, e).active
    ensures StateOf(Next(c, e)) == if Next(c, e).snd.stream.error then RESET else CLOSED
  {
    hide Next, Inv, BackedOff;
    var c' := Next(c, e);
    NextInv(c, e);
    NextShutdown(c, e);
    InvTiles(c'.snd);
    TilesTotal(c'.snd.outstanding, c'.snd.Una(), c'.snd.nextSeqno);
    if !c'.snd.stream.error { SenderSummaryMeans(c'.snd); }
  }

  /** The two states `segment_received` asks for are the official LISTEN and SYN_SENT. */
  lemma HandshakeStates(c: Conn)
    requires ConnInv(c) && c.active
    ensures Listening(c) <==> StateOf(c).sender == Closed && StateOf(c).receiver == Listen
    ensures Connections.SynSent(c) <==> StateOf(c).sender == SynSent && StateOf(c).receiver == Listen
    ensures Connections.SynSent(c) <==> SynOutstanding(c.snd) && c.rcv.Ackno() == None
    ensures Listening(c) <==> !c.snd.synSent && c.rcv.Ackno() == None
  {
    hide Inv, BackedOff, Quiet, Wrap;
    SenderSummaryMeans(c.snd);
    InvTiles(c.snd);
    TilesTotal(c.snd.outstanding, c.snd.Una(), c.snd.nextSeqno);
    FrontSyn(c.snd);
  }
}
