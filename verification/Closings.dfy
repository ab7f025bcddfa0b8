/** Which end of a connection lingers after both streams are done, and when each one closes. */
module Closings {
  import opened Basics
  import opened WrappingIntegers
  import Reassembly
  import opened Segments
  import R = Receivers
  import opened Senders
  import opened Connections
  import Endpoints
  import opened Exchanges
  import opened Openings

  // ----- when lingering is called off -----

  /** The call transmits, and finds the peer's stream ended while ours is not. */
  predicate SeesEnd(c: Conn, e: Event)
    requires c.Valid()
  {
    Transmits(c, e) && EndedWhileOpen(Next(c, e))
  }

  lemma FlushLinger(c: Conn)
    requires c.Valid()
    ensures Flush(c).linger <==> c.linger && !EndedWhileOpen(Flush(c))
  {
    hide StampAll;
  }

  /** One call calls lingering off exactly if it sees the peer end first. */
  lemma LingerStep(c: Conn, e: Event)
    requires c.Valid()
    ensures Next(c, e).linger <==> c.linger && !SeesEnd(c, e)
  {
    hide FillWindow, Tick, AckReceived, R.Receive, Flush, EndedWhileOpen;
    match e
    case Open => FillKeeps(c.snd); FlushLinger(c.(snd := FillWindow(c.snd)));
    case Send(data) => FillKeeps(c.snd.Write(data)); FlushLinger(c.(snd := FillWindow(c.snd.Write(data))));
    case Finish => FillKeeps(c.snd.EndInput()); FlushLinger(c.(snd := FillWindow(c.snd.EndInput())));
    case Arrive(seg) => ArriveLinger(c, seg);
    case Pass(ms) =>
      if c.active {
        TickFields(c.snd, ms);
        var t := c.(sinceSegment := c.sinceSegment + ms, snd := Tick(c.snd, ms));
        FlushLinger(if t.snd.retx > MAX_RETX_ATTEMPTS then Unclean(t) else t);
      }
    case Take(len) =>
    case Collect =>
    case Destroy =>
  }

  lemma ArriveLinger(c: Conn, seg: Segment)
    requires c.Valid()
    ensures Next(c, Arrive(seg)).linger <==> c.linger && !SeesEnd(c, Arrive(seg))
  {
    hide FillWindow, AckReceived, R.Receive, Flush, EndedWhileOpen;
    var d := c.(sinceSegment := 0, rcv := R.Receive(c.rcv, seg).0);
    if c.active && Listening(c) && seg.header.syn {
      FillKeeps(c.snd);
      FlushLinger(d.(snd := FillWindow(c.snd)));
    } else if Reaches(c, seg) && !seg.header.rst {
      AckKeeps(c.snd, seg.header.ackno, seg.header.win);
      var acked := AckReceived(c.snd, seg.header.ackno, seg.header.win);
      FlushLinger(d.(snd := acked));
      FlushLinger(d.(snd := SendEmpty(acked)));
    }
  }

  /** Some call of the run saw the peer end first. */
  ghost predicate SawEnd(c: Conn, evs: seq<Event>)
    requires c.Valid()
  {
    exists k :: 0 <= k < |evs| && SeesEnd(Run(c, evs[..k]), evs[k])
  }

  lemma SawEndEarlier(c: Conn, init: seq<Event>, e: Event)
    requires c.Valid() && SawEnd(c, init)
    ensures SawEnd(c, init + [e])
  {
    hide Run, SeesEnd;
    var k :| 0 <= k < |init| && SeesEnd(Run(c, init[..k]), init[k]);
    assert (init + [e])[..k] == init[..k] && (init + [e])[k] == init[k];
  }

  lemma SawEndNow(c: Conn, init: seq<Event>, e: Event)
    requires c.Valid() && SeesEnd(Run(c, init), e)
    ensures SawEnd(c, init + [e])
  {
    hide Run, SeesEnd;
    assert (init + [e])[..|init|] == init && (init + [e])[|init|] == e;
  }

  lemma SawEndSnoc(c: Conn, init: seq<Event>, e: Event)
    requires c.Valid() && SawEnd(c, init + [e])
    ensures SawEnd(c, init) || SeesEnd(Run(c, init), e)
  {
    hide Run, SeesEnd;
    var k :| 0 <= k < |init + [e]| && SeesEnd(Run(c, (init + [e])[..k]), (init + [e])[k]);
    if k < |init| {
      assert (init + [e])[..k] == init[..k] && (init + [e])[k] == init[k];
    } else {
      assert (init + [e])[..k] == init;
    }
  }

  /** In every run, whatever the peer sends: the end lingers unless some call of it saw the peer end first. */
  lemma {:induction false} LingersExactly(c: Conn, evs: seq<Event>)
    requires c.Valid()
    ensures Run(c, evs).linger <==> c.linger && !SawEnd(c, evs)
  {
    hide Next, SeesEnd, SawEnd;
    if evs == [] {
      assert !SawEnd(c, evs) by { NoCalls(c); }
    } else {
      var init, e := evs[..|evs| - 1], evs[|evs| - 1];
      LingersExactly(c, init);
      LingerStep(Run(c, init), e);
      assert evs == init + [e];
      if SawEnd(c, evs) { SawEndSnoc(c, init, e); }
      if SawEnd(c, init) { SawEndEarlier(c, init, e); }
      if SeesEnd(Run(c, init), e) { SawEndNow(c, init, e); }
    }
  }

  lemma NoCalls(c: Conn)
    requires c.Valid()
    ensures !SawEnd(c, [])
  {
  }

  // ----- the end that closes second -----

  /** A SYN that brings the FIN along and acknowledges nothing: the peer opens and closes at once. */
  predicate OpensAndEnds(e: Event) {
    e.Arrive? && e.seg.header.syn && e.seg.header.fin && !e.seg.header.ack
  }

  /** Before the peer's SYN nothing is known about the end of its stream. */
  predicate NoEndYet(r: R.Receiver) {
    r.isn.None? ==> r.finAbsSeq == 0 && r.reasm.eofIndex.None? && !r.reasm.out.ended
  }

  lemma ReceiveNoEnd(r: R.Receiver, seg: Segment)
    requires r.Valid() && NoEndYet(r)
    ensures NoEndYet(R.Receive(r, seg).0)
    ensures r.reasm.out.ended ==> R.Receive(r, seg).0.reasm.out.ended
    ensures r.isn.None? && !seg.header.fin ==> !R.Receive(r, seg).0.reasm.out.ended
  {
    hide Unwrap, Reassembly.Emit, Reassembly.Merged;
  }

  /** The peer's end, once known, stays known. */
  lemma EndStays(c: Conn, e: Event)
    requires c.Valid() && NoEndYet(c.rcv)
    ensures NoEndYet(Next(c, e).rcv)
    ensures c.rcv.reasm.out.ended ==> Next(c, e).rcv.reasm.out.ended
  {
    hide Next, R.Receive;
    Endpoints.NextReceiver(c, e);
    if e.Arrive? { ReceiveNoEnd(c.rcv, e.seg); }
  }

  /** A call that does not transmit and leaves the connection active ends no stream, with one exception. */
  lemma StillOpen(c: Conn, e: Event)
    requires ConnInv(c) && NoEndYet(c.rcv) && Next(c, e).active && !Transmits(c, e) && !OpensAndEnds(e)
    ensures c.active && (EndedWhileOpen(Next(c, e)) ==> EndedWhileOpen(c))
  {
    hide FillWindow, Tick, AckReceived, R.Receive, StampAll, NoEndYet, ConnInv;
    StaysDead(c, e);
    if e.Arrive? { ReceiveNoEnd(c.rcv, e.seg); }
  }

  /** The end that has seen the peer's stream end before its own does not linger. */
  predicate NoticedEnd(c: Conn)
    requires c.Valid()
  {
    c.active && EndedWhileOpen(c) ==> !c.linger
  }

  lemma NextNotices(c: Conn, e: Event)
    requires ConnInv(c) && NoEndYet(c.rcv) && NoticedEnd(c) && !OpensAndEnds(e)
    ensures NoticedEnd(Next(c, e))
  {
    hide Next, ConnInv, EndedWhileOpen, Transmits;
    LingerStep(c, e);
    if Next(c, e).active && !Transmits(c, e) { StillOpen(c, e); }
  }

  lemma {:induction false} RunNotices(c: Conn, evs: seq<Event>)
    requires ConnInv(c) && NoEndYet(c.rcv) && NoticedEnd(c) && forall e <- evs :: !OpensAndEnds(e)
    ensures ConnInv(Run(c, evs)) && NoEndYet(Run(c, evs).rcv) && NoticedEnd(Run(c, evs))
    ensures Run(c, evs).active && PeerEndedFirst(c, evs) ==> !Run(c, evs).linger
  {
    hide Next, ConnInv, NoEndYet, NoticedEnd, OpensAndEnds, PeerEndedFirst;
    RunInv(c, evs);
    if evs == [] {
      assert !PeerEndedFirst(c, evs) by { NobodyEnded(c); }
    } else {
      var init, e := evs[..|evs| - 1], evs[|evs| - 1];
      RunNotices(c, init);
      var d := Run(c, init);
      EndStays(d, e);
      NextNotices(d, e);
      LingerStep(d, e);
      StaysDead(d, e);
      assert evs == init + [e];
      if PeerEndedFirst(c, evs) { PeerSnoc(c, init, e); }
      NoticedMeans(Run(c, evs));
    }
  }

  lemma NobodyEnded(c: Conn)
    requires c.Valid()
    ensures !PeerEndedFirst(c, [])
  {
  }

  lemma NoticedMeans(c: Conn)
    requires c.Valid() && NoticedEnd(c)
    ensures c.active && EndedWhileOpen(c) ==> !c.linger
  {
  }

  lemma PeerSnoc(c: Conn, init: seq<Event>, e: Event)
    requires c.Valid() && PeerEndedFirst(c, init + [e])
    ensures PeerEndedFirst(c, init) || EndedWhileOpen(Run(c, init + [e]))
  {
    hide Run, EndedWhileOpen;
    var k :| 0 < k <= |init + [e]| && EndedWhileOpen(Run(c, (init + [e])[..k]));
    if k <= |init| { assert (init + [e])[..k] == init[..k]; } else { assert (init + [e])[..k] == init + [e]; }
  }

  /**
   * The end that closes second does not linger: while a connection is active, it has stopped lingering exactly if
   * the peer's stream ended before ours. The peer must not have opened and closed with one segment that acknowledges
   * nothing.
   */
  lemma SecondDoesNotLinger(sendCapacity: nat, recvCapacity: nat, rtTimeout: U16, isn: U32, evs: seq<Event>)
    requires 0 < recvCapacity && forall e <- evs :: !OpensAndEnds(e)
    ensures var c0 := NewConn(sendCapacity, recvCapacity, rtTimeout, isn);
            Run(c0, evs).active ==> (!Run(c0, evs).linger <==> PeerEndedFirst(c0, evs))
  {
    hide Run, ConnInv, PeerEndedFirst;
    NewConnInv(sendCapacity, recvCapacity, rtTimeout, isn);
    var c0 := NewConn(sendCapacity, recvCapacity, rtTimeout, isn);
    RunNotices(c0, evs);
    RunLingers(c0, evs);
  }

  // ----- when a segment closes the connection -----

  /** Everything sent is acknowledged once the number has been acted on. */
  predicate Completes(s: Sender, abs: nat) {
    s.outstanding == [] || abs == s.nextSeqno
  }

  lemma AckCompletes(s: Sender, abs: nat, win: U16)
    requires Inv(s) && s.synSent && s.finSent && s.stream.Eof()
    ensures var t := AckAbs(s, abs, win);
            t.stream == s.stream && (t.bytesInFlight == 0 <==> Completes(s, abs))
  {
    hide Inv, FillWindow, Settle;
    InvTiles(s);
    if AckValid(s, abs) {
      SettleInv(s, abs, win);
      SettleContext(s, abs, win);
      var t := Settle(s, abs, win);
      InvTiles(t);
      TilesTotal(t.outstanding, t.Una(), t.nextSeqno);
      FillFinished(t);
    }
  }

  lemma FillFinished(t: Sender)
    requires t.Valid() && t.synSent && t.finSent
    ensures FillWindow(t) == t
  {
  }

  /**
   * Our stream is done and its FIN sent. Exactly when a segment then closes the connection: the peer's stream has
   * ended, everything of ours is acknowledged, and the end does not linger. No tick is needed.
   */
  lemma ArrivalCloses(c: Conn, seg: Segment)
    requires ConnInv(c) && Reaches(c, seg) && !seg.header.rst && c.snd.finSent && c.snd.stream.Eof()
    ensures var c' := Next(c, Arrive(seg));
            && !c'.snd.stream.error && !c'.rcv.reasm.out.error
            && (!c'.active <==>
                  && c'.rcv.reasm.out.ended
                  && Completes(c.snd, Unwrap(seg.header.ackno, c.snd.isn, c.snd.nextSeqno))
                  && (!c.linger || c.rtTimeout == 0))
  {
    hide AckAbs, R.Receive, Unwrap, Inv, BackedOff, Quiet, StampAll, Completes;
    ReachesAnswer(c, seg);
    ReceiveKeepsError(c.rcv, seg);
    AckKeeps(c.snd, seg.header.ackno, seg.header.win);
    FinSentSyn(c.snd);
    AckCompletes(c.snd, Unwrap(seg.header.ackno, c.snd.isn, c.snd.nextSeqno), seg.header.win);
  }

  lemma FinSentSyn(s: Sender)
    requires Inv(s) && s.finSent
    ensures s.synSent
  {
  }

  /**
   * So the end that closes second is gone as soon as its FIN is acknowledged: in every run where the peer's stream
   * ended first, the acknowledgement of everything closes the connection, without a tick.
   */
  lemma SecondClosesAtOnce(
    sendCapacity: nat, recvCapacity: nat, rtTimeout: U16, isn: U32, evs: seq<Event>, seg: Segment)
    requires 0 < recvCapacity && forall e <- evs :: !OpensAndEnds(e)
    requires var c0 := NewConn(sendCapacity, recvCapacity, rtTimeout, isn);
             var c := Run(c0, evs);
             && PeerEndedFirst(c0, evs) && Reaches(c, seg) && !seg.header.rst && c.snd.finSent && c.snd.stream.Eof()
    ensures var c := Run(NewConn(sendCapacity, recvCapacity, rtTimeout, isn), evs);
            && !Next(c, Arrive(seg)).snd.stream.error
            && (!Next(c, Arrive(seg)).active
                <==> Completes(c.snd, Unwrap(seg.header.ackno, c.snd.isn, c.snd.nextSeqno)))
  {
    hide Run, ConnInv, PeerEndedFirst, Next, Completes, Unwrap;
    NewConnInv(sendCapacity, recvCapacity, rtTimeout, isn);
    var c0 := NewConn(sendCapacity, recvCapacity, rtTimeout, isn);
    var c := Run(c0, evs);
    RunNotices(c0, evs);
    RunEnded(c0, evs);
    ArrivalCloses(c, seg);
    EndStays(c, Arrive(seg));
  }

  lemma {:induction false} RunEnded(c: Conn, evs: seq<Event>)
    requires c.Valid() && NoEndYet(c.rcv)
    ensures NoEndYet(Run(c, evs).rcv)
    ensures PeerEndedFirst(c, evs) ==> Run(c, evs).rcv.reasm.out.ended
  {
    hide Next, NoEndYet, PeerEndedFirst;
    if evs == [] {
      assert !PeerEndedFirst(c, evs) by { NobodyEnded(c); }
    } else {
      var init, e := evs[..|evs| - 1], evs[|evs| - 1];
      RunEnded(c, init);
      EndStays(Run(c, init), e);
      assert evs == init + [e];
      if PeerEndedFirst(c, evs) { PeerSnoc(c, init, e); }
    }
  }

  // ----- an end that is missed -----

  /** The peer's SYN and FIN in one segment. */
  function SynFin(peer: U32): Segment {
    AbsSegment(0, true, true, []).Wire(peer)
  }

  lemma ReceiveSynFin(r: R.Receiver, peer: U32)
    requires r.Valid() && Untouched(r) && 2 <= r.WindowSize()
    ensures R.Receive(r, SynFin(peer)).0.reasm.out.ended
  {
    hide Reassembly.Emit, Unwrap;
    assert Wrap(0, peer) == peer by { WrapIsMod(0, peer); }
    UnwrapWrap(0, peer, 0);
    PushNothing(r.reasm, 0, true);
  }

  /**
   * The exception is real. Both ends open at once, the peer's SYN brings its FIN along, and our owner then ends the
   * stream: the peer ended first, but no call that transmits saw it, and the end still lingers.
   */
  lemma EndMissed(sendCapacity: nat, recvCapacity: nat, rtTimeout: U16, isn: U32, peer: U32)
    requires 2 <= recvCapacity
    ensures var c0 := NewConn(sendCapacity, recvCapacity, rtTimeout, isn);
            var evs := [Open, Collect, Arrive(SynFin(peer)), Finish];
            PeerEndedFirst(c0, evs) && Run(c0, evs).active && Run(c0, evs).linger
  {
    hide Run, Next, ConnInv, JustOpened;
    var c0 := NewConn(sendCapacity, recvCapacity, rtTimeout, isn);
    OpenFresh(sendCapacity, recvCapacity, rtTimeout, isn);
    OpenLingers(sendCapacity, recvCapacity, rtTimeout, isn);
    var c := Next(Next(c0, Open), Collect);
    MissEnd(c, isn, peer);
    var evs := [Open, Collect, Arrive(SynFin(peer)), Finish];
    RunFour(c0, Open, Collect, Arrive(SynFin(peer)), Finish);
    RunThree(c0, Open, Collect, Arrive(SynFin(peer)));
    assert evs[..3] == [Open, Collect, Arrive(SynFin(peer))];
  }

  lemma RunThree(c0: Conn, a: Event, b: Event, c: Event)
    requires c0.Valid()
    ensures Run(c0, [a, b, c]) == Next(Next(Next(c0, a), b), c)
  {
    hide Next, Run;
    RunNothing(c0);
    RunSnoc(c0, [], a);
    RunSnoc(c0, [a], b);
    RunSnoc(c0, [a, b], c);
    FourEvents(a, b, c, c);
  }

  lemma OpenLingers(sendCapacity: nat, recvCapacity: nat, rtTimeout: U16, isn: U32)
    requires 0 < recvCapacity
    ensures var c := Next(Next(NewConn(sendCapacity, recvCapacity, rtTimeout, isn), Open), Collect);
            c.linger && c.rcv == R.FreshReceiver(recvCapacity)
  {
    hide FillWindow, StampAll;
  }

  lemma MissEnd(c: Conn, isn: U32, peer: U32)
    requires JustOpened(c, isn) && c.linger && 2 <= c.rcv.WindowSize()
    ensures var c' := Next(c, Arrive(SynFin(peer)));
            && EndedWhileOpen(c') && Next(c', Finish).active && Next(c', Finish).linger
  {
    hide ConnInv, R.Receive, StampAll;
    ReceiveSynFin(c.rcv, peer);
  }
}
