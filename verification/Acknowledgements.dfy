/** What an endpoint takes for acknowledged, and what its peer has really assembled. */
module Acknowledgements {
  import opened Basics
  import opened WrappingIntegers
  import Reassembly
  import opened Segments
  import R = Receivers
  import opened Senders
  import opened Connections
  import opened Endpoints
  import opened Openings

  // ----- what an acknowledgement says -----

  /** `abs` is a number the receiver has acknowledged or could have, and the segment carries it. */
  predicate Reported(seg: Segment, abs: nat, isn: U32, r: R.Receiver) {
    r.isn.Some? && 1 <= abs <= r.AbsAckno() && seg.header.ackno == Wrap(abs, isn)
  }

  /** The ACK flag vouches for the number. A reset is sent with the flag and, at times, without a number. */
  ghost predicate Truthful(seg: Segment, isn: U32, r: R.Receiver) {
    seg.header.ack && !seg.header.rst ==> exists abs :: Reported(seg, abs, isn, r)
  }

  /** The number is recent enough for 32 bits to identify it. */
  ghost predicate Timely(seg: Segment, s: Sender, r: R.Receiver) {
    Checkpoint(s.nextSeqno) && exists abs :: Reported(seg, abs, s.isn, r) && InRange(abs, s.nextSeqno)
  }

  /** `y` reports to `x` through `net`; unless `x` has failed, `y` has assembled all that `x` holds acknowledged. */
  ghost predicate AcksHold(x: Conn, y: Conn, net: set<Segment>) {
    && (forall seg <- y.out :: Truthful(seg, x.snd.isn, y.rcv))
    && (forall seg <- net :: Truthful(seg, x.snd.isn, y.rcv))
    && (!x.snd.stream.error ==> x.snd.Una() <= y.rcv.Left())
  }

  ghost predicate WorldAcks(w: World) {
    AcksHold(w.a, w.b, w.toA) && AcksHold(w.b, w.a, w.toB)
  }

  /**
   * An end past its handshake is given an acknowledgement that the flag vouches for and 32 bits identify, or one
   * whose number pops nothing.
   */
  ghost predicate Heeded(w: World, m: Move) {
    m.Deliver? && w.a.active && !Listening(w.a) && !SynSent(w.a) && !m.seg.header.rst ==>
      || (m.seg.header.ack && Timely(m.seg, w.a.snd, w.b.rcv))
      || !Pops(w.a.snd, Unwrap(m.seg.header.ackno, w.a.snd.isn, w.a.snd.nextSeqno))
  }

  ghost predicate TurnHeeded(w: World, t: Turn) {
    match t
    case First(m) => Heeded(w, m)
    case Second(m) => Heeded(w.Swap(), m)
  }

  ghost predicate AllHeeded(w: World, ts: seq<Turn>)
    requires w.a.Valid() && w.b.Valid()
    decreases |ts|
  {
    ts == [] || (TurnHeeded(w, ts[0]) && AllHeeded(OneTurn(w, ts[0]), ts[1..]))
  }

  lemma TruthfulStays(seg: Segment, isn: U32, r: R.Receiver, r': R.Receiver)
    requires r.Valid() && r'.Valid() && Truthful(seg, isn, r) && NoLess(r, r')
    ensures Truthful(seg, isn, r')
  {
    if seg.header.ack && !seg.header.rst {
      var abs :| Reported(seg, abs, isn, r);
      assert Reported(seg, abs, isn, r');
    }
  }

  // ----- what a connection hands out -----

  /** The segment says what this receiver has and takes; while the peer's SYN is unknown, only a reset says anything. */
  predicate FreshAck(seg: Segment, r: R.Receiver)
    requires r.Valid()
  {
    if r.isn.None? then seg.header.ack ==> seg.header.rst else
    && seg.header.ack && seg.header.ackno == Wrap(r.AbsAckno(), r.isn.value)
    && seg.header.win == Low16(r.WindowSize())
  }

  /** What is handed out beyond what was there before is stamped from the receiver as it is now. */
  predicate AddsFresh(c: Conn, c': Conn)
    requires c'.rcv.Valid()
  {
    && c.out <= c'.out
    && forall i :: |c.out| <= i < |c'.out| ==> FreshAck(c'.out[i], c'.rcv)
  }

  lemma FlushAdds(c: Conn, d: Conn)
    requires d.Valid() && AddsFresh(c, d)
    ensures AddsFresh(c, Flush(d))
  {
    hide Stamp, FreshAck;
    FlushKeeps(d);
    var q := d.snd.queue;
    assert Flush(d).out == d.out + StampAll(d, q);
    forall i | |d.out| <= i < |Flush(d).out| ensures FreshAck(Flush(d).out[i], d.rcv) {
      StampFresh(d, q[i - |d.out|]);
    }
  }

  lemma StampFresh(d: Conn, u: AbsSegment)
    requires d.rcv.Valid()
    ensures FreshAck(Stamp(d, u), d.rcv)
  {
    hide Wrap, Low16;
  }

  lemma UncleanAdds(c: Conn, d: Conn)
    requires d.snd.Valid() && d.rcv.Valid() && d.snd.queue != [] && AddsFresh(c, d)
    ensures AddsFresh(c, Unclean(d))
  {
    hide Wrap, Low16;
  }

  lemma AnswerAdds(c: Conn, d: Conn, seg: Segment)
    requires d.Valid() && d.out == c.out
    ensures AddsFresh(c, Answer(d, seg))
  {
    hide AckReceived, Flush, Unclean, FreshAck;
    AckKeeps(d.snd, seg.header.ackno, seg.header.win);
    var acked := AckReceived(d.snd, seg.header.ackno, seg.header.win);
    var answered := if acked.stream.Size() == 0 && seg.LengthInSequenceSpace() > 0 then SendEmpty(acked) else acked;
    if seg.header.rst {
      UncleanAdds(c, d.(snd := SendEmpty(answered)));
    } else {
      FlushAdds(c, d.(snd := answered));
    }
  }

  lemma HandleAdds(c: Conn, seg: Segment)
    requires c.Valid() && c.active
    ensures AddsFresh(c, Handle(c, seg))
  {
    hide FillWindow, R.Receive, Answer, Flush, FreshAck;
    var received := c.(rcv := R.Receive(c.rcv, seg).0);
    if Listening(c) {
      FillKeeps(c.snd);
      FlushAdds(c, received.(snd := FillWindow(c.snd)));
    } else {
      AnswerAdds(c, received, seg);
    }
  }

  lemma ElapseAdds(c: Conn, ms: nat)
    requires c.Valid()
    ensures AddsFresh(c, Elapse(c, ms))
  {
    hide Tick, Flush, Unclean, FreshAck;
    if c.active {
      TickFields(c.snd, ms);
      var t := c.(sinceSegment := c.sinceSegment + ms, snd := Tick(c.snd, ms));
      if t.snd.retx > MAX_RETX_ATTEMPTS {
        UncleanAdds(c, t);
        FlushAdds(c, Unclean(t));
      } else {
        FlushAdds(c, t);
      }
    }
  }

  /** Whatever a call hands out is stamped with what the receiver says after it, or is a reset. */
  lemma NextAdds(c: Conn, e: Event)
    requires c.Valid()
    ensures if e.Collect? then Next(c, e).out == [] else AddsFresh(c, Next(c, e))
  {
    hide FillWindow, Flush, Unclean, Handle, Elapse, FreshAck;
    match e
    case Open => FillKeeps(c.snd); FlushAdds(c, c.(snd := FillWindow(c.snd)));
    case Send(data) => FillKeeps(c.snd.Write(data)); FlushAdds(c, c.(snd := FillWindow(c.snd.Write(data))));
    case Finish => FillKeeps(c.snd.EndInput()); FlushAdds(c, c.(snd := FillWindow(c.snd.EndInput())));
    case Arrive(seg) => if c.active { HandleAdds(c.(sinceSegment := 0), seg); }
    case Pass(ms) => ElapseAdds(c, ms);
    case Take(len) =>
    case Collect =>
    case Destroy => if c.active { UncleanAdds(c, c.(snd := SendEmpty(c.snd))); }
  }

  // ----- what a connection takes for acknowledged -----

  lemma FilledUna(c: Conn, t: Sender)
    requires c.Valid() && Inv(t) && t.retx == c.snd.retx && t.Una() == c.snd.Una()
    ensures FillWindow(t).retx == t.retx
    ensures Flush(c.(snd := FillWindow(t))).snd.Una() == c.snd.Una()
    ensures Flush(c.(snd := FillWindow(t))).snd.stream.error == t.stream.error
  {
    hide Inv, FillWindow, Flush, Appends;
    InvValid(t);
    FillInv(t);
    FillKeeps(t);
    FlushKeeps(c.(snd := FillWindow(t)));
  }

  /** No call of the owner, and no time passing, acknowledges anything; errors stay. */
  lemma OwnUna(c: Conn, e: Event)
    requires ConnInv(c) && !e.Arrive?
    ensures Next(c, e).snd.Una() == c.snd.Una()
    ensures c.snd.stream.error ==> Next(c, e).snd.stream.error
  {
    hide Inv, FillWindow, Flush, Tick, BackedOff, Quiet;
    InvValid(c.snd);
    match e
    case Open => FilledUna(c, c.snd);
    case Send(data) => WriteInv(c.snd, data); FilledUna(c, c.snd.Write(data));
    case Finish => EndInv(c.snd); FilledUna(c, c.snd.EndInput());
    case Pass(ms) =>
      if c.active {
        TickFields(c.snd, ms);
        var t := c.(sinceSegment := c.sinceSegment + ms, snd := Tick(c.snd, ms));
        FlushKeeps(if t.snd.retx > MAX_RETX_ATTEMPTS then Unclean(t) else t);
      }
    case _ =>
  }

  /** An arriving segment acknowledges no more than its number says, and only where acknowledgements are looked at. */
  lemma ArriveUna(c: Conn, seg: Segment)
    requires ConnInv(c)
    ensures var c' := Next(c, Arrive(seg));
            var abs := Unwrap(seg.header.ackno, c.snd.isn, c.snd.nextSeqno);
            || c'.snd.stream.error
            || c'.snd.Una() == c.snd.Una()
            || (&& c.active && !Listening(c) && !seg.header.rst && (SynSent(c) ==> seg.header.ack)
                && Pops(c.snd, abs) && c'.snd.Una() <= abs)
  {
    hide Inv, FillWindow, Flush, Answer, R.Receive, Unwrap, BackedOff, Quiet;
    if c.active {
      var d := c.(sinceSegment := 0);
      var received := d.(rcv := R.Receive(d.rcv, seg).0);
      if Listening(c) {
        FilledUna(received, c.snd);
      } else if SynSent(c) && (seg.payload != [] || !seg.header.ack || seg.header.rst) {
      } else {
        AnsweredUna(received, seg);
      }
    }
  }

  lemma AnsweredUna(c: Conn, seg: Segment)
    requires c.Valid() && Inv(c.snd)
    ensures var c' := Answer(c, seg);
            var abs := Unwrap(seg.header.ackno, c.snd.isn, c.snd.nextSeqno);
            || c'.snd.stream.error
            || c'.snd.Una() == c.snd.Una()
            || (!seg.header.rst && Pops(c.snd, abs) && c'.snd.Una() <= abs)
  {
    hide Inv, AckAbs, Answer, Unwrap, Quiet;
    var abs := Unwrap(seg.header.ackno, c.snd.isn, c.snd.nextSeqno);
    AnswerUna(c, seg);
    AckInv(c.snd, abs, seg.header.win);
    AckPopsExactly(c.snd, abs, seg.header.win);
  }

  // ----- the invariant -----

  /** The number of a truthful, timely acknowledgement is what the sender makes of it. */
  lemma TimelyMeans(seg: Segment, s: Sender, r: R.Receiver)
    requires Timely(seg, s, r)
    ensures r.isn.Some? && Unwrap(seg.header.ackno, s.isn, s.nextSeqno) <= r.AbsAckno()
  {
    hide Unwrap, Wrap;
    var abs :| Reported(seg, abs, s.isn, r) && InRange(abs, s.nextSeqno);
    UnwrapWrap(abs, s.isn, s.nextSeqno);
  }

  /** What a receiver reports never runs ahead of what was sent. */
  lemma ReportBound(x: Conn, y: Conn, net: set<Segment>)
    requires Honest(x) && Follows(x, y, net) && y.rcv.isn.Some?
    ensures y.rcv.AbsAckno() <= x.snd.nextSeqno
  {
    hide Inv, Genuine, BackedOff, Quiet;
    InvValid(x.snd);
    R.AcknoCounts(y.rcv, x.snd.Sent(), x.snd.finSent, x.snd.isn);
  }

  /** During the handshake there is only one number to acknowledge. */
  lemma HandshakeTimely(x: Conn, y: Conn, net: set<Segment>, seg: Segment)
    requires Honest(x) && Follows(x, y, net) && SynSent(x) && seg.header.ack && !seg.header.rst
    requires Truthful(seg, x.snd.isn, y.rcv)
    ensures Timely(seg, x.snd, y.rcv)
  {
    hide Inv, Follows, BackedOff, Quiet, Wrap;
    InvValid(x.snd);
    FrontSyn(x.snd);
    var abs :| Reported(seg, abs, x.snd.isn, y.rcv);
    ReportBound(x, y, net);
    assert InRange(abs, x.snd.nextSeqno);
  }

  /** For streams short enough for 32 bits, every acknowledgement in the network is timely. */
  lemma ShortTimely(x: Conn, y: Conn, net: set<Segment>, seg: Segment)
    requires Honest(x) && Follows(x, y, net) && R.Short(x.snd.stream.written) && seg.header.ack && !seg.header.rst
    requires Truthful(seg, x.snd.isn, y.rcv)
    ensures Timely(seg, x.snd, y.rcv)
  {
    hide Inv, Follows, BackedOff, Quiet, Wrap;
    InvValid(x.snd);
    var abs :| Reported(seg, abs, x.snd.isn, y.rcv);
    ReportBound(x, y, net);
    assert InRange(abs, x.snd.nextSeqno);
  }

  /** So there the flag is all that has to be asked for. */
  lemma FlagSuffices(w: World, seg: Segment)
    requires WorldInv(w) && WorldAcks(w) && R.Short(w.a.snd.stream.written) && seg in w.toA && seg.header.ack
    ensures Heeded(w, Deliver(seg))
  {
    hide Honest, Follows, Truthful, Timely, Unwrap;
    if !seg.header.rst { ShortTimely(w.a, w.b, w.toB, seg); }
  }

  /** The acknowledged side acts: an owner's call, or a segment delivered to it. */
  lemma AckedActs(x: Conn, e: Event, y: Conn, data: set<Segment>, net: set<Segment>)
    requires Honest(x) && Follows(x, y, data) && AcksHold(x, y, net) && MovesOn(x.snd, Next(x, e).snd)
    requires e.Arrive? ==>
               && Truthful(e.seg, x.snd.isn, y.rcv)
               && (x.active && !Listening(x) && !SynSent(x) && !e.seg.header.rst ==>
                     || (e.seg.header.ack && Timely(e.seg, x.snd, y.rcv))
                     || !Pops(x.snd, Unwrap(e.seg.header.ackno, x.snd.isn, x.snd.nextSeqno)))
    ensures AcksHold(Next(x, e), y, net)
  {
    hide Inv, Next, Follows, Truthful, Timely, Unwrap, Genuine, BackedOff, Quiet;
    if e.Arrive? {
      ArriveUna(x, e.seg);
      ArriveError(x, e.seg);
      var x' := Next(x, e);
      if !x'.snd.stream.error && x'.snd.Una() != x.snd.Una() {
        if SynSent(x) { HandshakeTimely(x, y, data, e.seg); }
        TimelyMeans(e.seg, x.snd, y.rcv);
      }
    } else {
      OwnUna(x, e);
    }
  }

  lemma ArriveError(c: Conn, seg: Segment)
    requires ConnInv(c)
    ensures c.snd.stream.error ==> Next(c, Arrive(seg)).snd.stream.error
  {
    hide Inv, Handle, BackedOff, Quiet;
  }

  /** The acknowledging side acts. */
  lemma AckingActs(x: Conn, y: Conn, y': Conn, net: set<Segment>)
    requires y.rcv.Valid() && y'.rcv.Valid() && AcksHold(x, y, net) && NoLess(y.rcv, y'.rcv)
    requires y'.out == [] || AddsFresh(y, y')
    requires y'.rcv.isn.Some? ==> y'.rcv.isn.value == x.snd.isn
    ensures AcksHold(x, y', net)
  {
    hide Truthful, Wrap, FreshAck;
    forall i | 0 <= i < |y'.out| ensures Truthful(y'.out[i], x.snd.isn, y'.rcv) {
      if i < |y.out| {
        assert y'.out[i] in y.out;
        TruthfulStays(y'.out[i], x.snd.isn, y.rcv, y'.rcv);
      } else {
        FreshTruthful(y'.out[i], x.snd.isn, y'.rcv);
      }
    }
    forall seg | seg in net ensures Truthful(seg, x.snd.isn, y'.rcv) {
      TruthfulStays(seg, x.snd.isn, y.rcv, y'.rcv);
    }
  }

  lemma FreshTruthful(seg: Segment, isn: U32, r: R.Receiver)
    requires r.Valid() && FreshAck(seg, r) && (r.isn.Some? ==> r.isn.value == isn)
    ensures Truthful(seg, isn, r)
  {
    hide Wrap;
    if seg.header.ack && !seg.header.rst {
      assert Reported(seg, r.AbsAckno(), isn, r);
    }
  }

  lemma KnownIsn(x: Conn, y: Conn, net: set<Segment>)
    requires x.snd.Valid() && Follows(x, y, net)
    ensures y.rcv.isn.Some? ==> y.rcv.isn.value == x.snd.isn
  {
  }

  lemma EventAcks(w: World, e: Event)
    requires WorldInv(w) && WorldAcks(w) && w.a.Valid()
    requires Honest(Next(w.a, e)) && MovesOn(w.a.snd, Next(w.a, e).snd)
    requires Follows(w.b, Next(w.a, e), w.toA) && NoLess(w.a.rcv, Next(w.a, e).rcv)
    requires e.Arrive? ==> e.seg in w.toA && Heeded(w, Deliver(e.seg))
    ensures WorldAcks(w.(a := Next(w.a, e)))
  {
    hide Honest, Follows, Next, Truthful, Timely, AddsFresh, MovesOn, NoLess;
    HonestValid(w.b);
    AckedActs(w.a, e, w.b, w.toB, w.toA);
    NextAdds(w.a, e);
    KnownIsn(w.b, Next(w.a, e), w.toA);
    AckingActs(w.b, w.a, Next(w.a, e), w.toB);
  }

  lemma PlayAcks(w: World, m: Move)
    requires WorldInv(w) && WorldAcks(w) && w.a.Valid() && w.b.Valid() && Allowed(w, m) && Heeded(w, m)
    ensures WorldAcks(Play(w, m))
  {
    hide Honest, Follows, Next, Truthful, Heeded, NoLess, Readable;
    PlayInv(w, m);
    HonestValid(w.a);
    match m
    case Act(e) => NextHonest(w.a, e); EventAcks(w, e);
    case Post => NextHonest(w.a, Collect); EventAcks(w, Collect); PostAcks(w);
    case Deliver(seg) => NextHonest(w.a, Arrive(seg)); EventAcks(w, Arrive(seg));
    case Lose(seg) =>
  }

  lemma PostAcks(w: World)
    requires w.a.Valid() && WorldAcks(w) && WorldAcks(w.(a := Next(w.a, Collect)))
    ensures WorldAcks(w.(a := Next(w.a, Collect), toB := w.toB + set seg | seg in w.a.out))
  {
    hide Truthful;
  }

  // ----- an orderly end -----

  /** A connection that ended without failing had its whole stream acknowledged and its peer's stream ended. */
  predicate EndedWell(c: Conn) {
    !c.active && !c.snd.stream.error ==>
      && c.rcv.reasm.out.ended && c.snd.stream.ended && c.snd.finSent
      && c.snd.Una() == |c.snd.stream.written| + 2
  }

  lemma NextEndedWell(c: Conn, e: Event)
    requires Honest(c) && EndedWell(c) && (e.Send? ==> !c.snd.stream.ended) && NoLess(c.rcv, Next(c, e).rcv)
    ensures EndedWell(Next(c, e))
  {
    hide Inv, Next, BackedOff, Genuine, AllGenuine;
    var c' := Next(c, e);
    NextHonest(c, e);
    InvValid(c'.snd);
    if c.active {
      NextShutdown(c, e);
    } else if e.Arrive? {
      assert c' == c by { DeadArrive(c, e.seg); }
    } else {
      OwnUna(c, e);
      StaysDead(c, e);
    }
  }

  lemma DeadArrive(c: Conn, seg: Segment)
    requires c.Valid() && !c.active
    ensures Next(c, Arrive(seg)) == c
  {
  }

  ghost predicate Sound(w: World) {
    WorldInv(w) && WorldAcks(w) && EndedWell(w.a) && EndedWell(w.b)
  }

  lemma PlaySound(w: World, m: Move)
    requires Sound(w) && w.a.Valid() && w.b.Valid() && Allowed(w, m) && Heeded(w, m)
    ensures Sound(Play(w, m))
  {
    hide Honest, Follows, Next, AcksHold, Heeded, EndedWell, NoLess, Readable;
    PlayInv(w, m);
    PlayAcks(w, m);
    match m
    case Act(e) => NextEndedWell(w.a, e);
    case Post => NextEndedWell(w.a, Collect);
    case Deliver(seg) => NextEndedWell(w.a, Arrive(seg));
    case Lose(seg) =>
  }

  lemma {:induction false} HistorySound(w: World, ts: seq<Turn>)
    requires Sound(w) && w.a.Valid() && w.b.Valid() && Happens(w, ts) && AllHeeded(w, ts)
    ensures Sound(History(w, ts))
    decreases |ts|
  {
    hide Honest, Follows, AcksHold, EndedWell, Play, Allowed, Heeded;
    if ts != [] {
      match ts[0] {
        case First(m) => PlaySound(w, m);
        case Second(m) => PlaySound(w.Swap(), m);
      }
      HistorySound(OneTurn(w, ts[0]), ts[1..]);
    }
  }

  /** With streams short enough for 32 bits: every segment given to an end past its handshake has the ACK flag. */
  ghost predicate Flagged(w: World, m: Move) {
    m.Deliver? && w.a.active && !Listening(w.a) && !SynSent(w.a) ==>
      m.seg.header.ack && R.Short(w.a.snd.stream.written)
  }

  ghost predicate AllFlagged(w: World, ts: seq<Turn>)
    requires w.a.Valid() && w.b.Valid()
    decreases |ts|
  {
    ts == [] || (
      && (if ts[0].First? then Flagged(w, ts[0].m) else Flagged(w.Swap(), ts[0].m))
      && AllFlagged(OneTurn(w, ts[0]), ts[1..]))
  }

  lemma FlaggedHeeded(w: World, m: Move)
    requires WorldInv(w) && WorldAcks(w) && w.b.Valid() && Allowed(w, m) && Flagged(w, m)
    ensures Heeded(w, m)
  {
    hide Honest, Follows, AcksHold, Timely, Unwrap, Readable;
    if m.Deliver? && w.a.active && !Listening(w.a) && !SynSent(w.a) { FlagSuffices(w, m.seg); }
  }

  /** Then the acknowledgements are all vouched for. */
  lemma {:induction false} FlagsVouch(w: World, ts: seq<Turn>)
    requires Sound(w) && w.a.Valid() && w.b.Valid() && Happens(w, ts) && AllFlagged(w, ts)
    ensures AllHeeded(w, ts)
    decreases |ts|
  {
    hide Honest, Follows, AcksHold, EndedWell, Play, Allowed, Heeded, Flagged;
    if ts != [] {
      match ts[0] {
        case First(m) => FlaggedHeeded(w, m); PlaySound(w, m);
        case Second(m) => FlaggedHeeded(w.Swap(), m); PlaySound(w.Swap(), m);
      }
      FlagsVouch(OneTurn(w, ts[0]), ts[1..]);
    }
  }

  lemma MeetSound(sendA: nat, recvA: nat, rtA: U16, isnA: U32, sendB: nat, recvB: nat, rtB: U16, isnB: U32)
    requires 0 < recvA && 0 < recvB
    ensures Sound(Meet(NewConn(sendA, recvA, rtA, isnA), NewConn(sendB, recvB, rtB, isnB)))
  {
    hide Inv, Steady;
    NewConnInv(sendA, recvA, rtA, isnA);
    NewConnInv(sendB, recvB, rtB, isnB);
  }

  /**
   * The acknowledgement bounds of two complete endpoints: in every history whose acknowledgements are vouched for,
   * what an end that has not failed holds acknowledged has been assembled by its peer, and the peer has assembled
   * nothing that was not sent.
   */
  lemma AckedIsAssembled(
      sendA: nat, recvA: nat, rtA: U16, isnA: U32, sendB: nat, recvB: nat, rtB: U16, isnB: U32, ts: seq<Turn>)
    requires 0 < recvA && 0 < recvB
    requires var w0 := Meet(NewConn(sendA, recvA, rtA, isnA), NewConn(sendB, recvB, rtB, isnB));
             Happens(w0, ts) && AllHeeded(w0, ts)
    ensures var w := History(Meet(NewConn(sendA, recvA, rtA, isnA), NewConn(sendB, recvB, rtB, isnB)), ts);
            && w.b.rcv.Left() <= w.a.snd.nextSeqno && w.a.rcv.Left() <= w.b.snd.nextSeqno
            && (!w.a.snd.stream.error ==> w.a.snd.Una() <= w.b.rcv.Left())
            && (!w.b.snd.stream.error ==> w.b.snd.Una() <= w.a.rcv.Left())
            && (w.a.active ==> !w.a.snd.stream.error) && (w.b.active ==> !w.b.snd.stream.error)
  {
    hide History, Happens, AllHeeded, Truthful, EndedWell, Inv, Genuine, R.Tracks, BackedOff, Quiet;
    var w0 := Meet(NewConn(sendA, recvA, rtA, isnA), NewConn(sendB, recvB, rtB, isnB));
    MeetSound(sendA, recvA, rtA, isnA, sendB, recvB, rtB, isnB);
    HistorySound(w0, ts);
    var w := History(w0, ts);
    if w.b.rcv.isn.Some? { ReportBound(w.a, w.b, w.toB); }
    if w.a.rcv.isn.Some? { ReportBound(w.b, w.a, w.toA); }
  }

  /**
   * What an orderly end is worth: an endpoint that is done and has not failed has delivered its whole stream, its peer
   * has seen it end, and it has itself received the whole of its peer's stream.
   */
  lemma CleanCloseDelivers(
      sendA: nat, recvA: nat, rtA: U16, isnA: U32, sendB: nat, recvB: nat, rtB: U16, isnB: U32, ts: seq<Turn>)
    requires 0 < recvA && 0 < recvB
    requires var w0 := Meet(NewConn(sendA, recvA, rtA, isnA), NewConn(sendB, recvB, rtB, isnB));
             Happens(w0, ts) && AllHeeded(w0, ts)
    ensures var w := History(Meet(NewConn(sendA, recvA, rtA, isnA), NewConn(sendB, recvB, rtB, isnB)), ts);
            !w.a.active && !w.a.snd.stream.error ==>
              && w.b.rcv.reasm.out.ended && w.b.rcv.reasm.out.written == w.a.snd.stream.written
              && w.b.snd.stream.ended && w.a.rcv.reasm.out.written == w.b.snd.stream.written
  {
    hide History, Happens, AllHeeded, Truthful, Inv, Genuine, R.Tracks, BackedOff, Quiet;
    var w0 := Meet(NewConn(sendA, recvA, rtA, isnA), NewConn(sendB, recvB, rtB, isnB));
    MeetSound(sendA, recvA, rtA, isnA, sendB, recvB, rtB, isnB);
    HistorySound(w0, ts);
    var w := History(w0, ts);
    if !w.a.active && !w.a.snd.stream.error {
      WholeDelivered(w.a, w.b, w.toB);
      FollowsMeans(w.a, w.b, w.toB);
      FollowsMeans(w.b, w.a, w.toA);
    }
  }

  lemma WholeDelivered(x: Conn, y: Conn, net: set<Segment>)
    requires Honest(x) && Follows(x, y, net) && |x.snd.stream.written| + 2 <= y.rcv.Left()
    ensures y.rcv.reasm.out.ended
  {
    hide Inv, Genuine, BackedOff, Quiet;
    InvValid(x.snd);
    R.AcknoCounts(y.rcv, x.snd.Sent(), x.snd.finSent, x.snd.isn);
  }

  // ----- what the ignored flag can do -----

  /**
   * With the SYN outstanding and an initial number one below the wrap, any segment without an acknowledgement, sent
   * once the peer is known, counts as an acknowledgement of the SYN: its empty field reads as number one.
   */
  lemma SynPopped(c: Conn, seg: Segment)
    requires ConnInv(c) && c.active && c.rcv.isn.Some? && SynOutstanding(c.snd) && c.snd.isn == TWO32 - 1
    requires !seg.header.ack && !seg.header.rst && seg.header.ackno == 0
    ensures Handle(c, seg).snd.Una() == 1 && Handle(c, seg).snd.isn == c.snd.isn
  {
    hide Handle, Unwrap, Inv, BackedOff, Quiet;
    InvTiles(c.snd);
    FrontSyn(c.snd);
    assert c.snd.nextSeqno == 1;
    assert Wrap(1, c.snd.isn) == 0;
    UnwrapWrap(1, c.snd.isn, 1);
    TilesFront(c.snd.outstanding, 0, 1, 1);
    PopsWithoutFlag(c, seg);
    HandleBound(c, seg);
  }

  lemma HandleBound(c: Conn, seg: Segment)
    requires ConnInv(c) && c.active && !Listening(c) && !SynSent(c) && !seg.header.rst
    ensures var abs := Unwrap(seg.header.ackno, c.snd.isn, c.snd.nextSeqno);
            Handle(c, seg).snd.Una() <= Max(c.snd.Una(), abs) && Handle(c, seg).snd.isn == c.snd.isn
  {
    hide AckAbs, Flush, Unwrap, R.Receive, Inv, BackedOff, Quiet;
    var received := c.(rcv := R.Receive(c.rcv, seg).0);
    AnswerUna(received, seg);
    AckInv(c.snd, Unwrap(seg.header.ackno, c.snd.isn, c.snd.nextSeqno), seg.header.win);
    AckKeeps(c.snd, seg.header.ackno, seg.header.win);
    var acked := AckReceived(c.snd, seg.header.ackno, seg.header.win);
    FlushKeeps(received.(snd := acked));
    FlushKeeps(received.(snd := SendEmpty(acked)));
  }

  /** A sender past its SYN: it will not send it again. */
  predicate PastSyn(s: Sender) {
    Inv(s) && s.synSent && 1 <= s.Una() && forall u <- s.queue :: !u.syn
  }

  lemma NoSynLeft(s: Sender)
    requires Inv(s) && 1 <= s.Una()
    ensures forall u <- s.outstanding :: !u.syn
  {
    forall i | 0 <= i < |s.outstanding| ensures !s.outstanding[i].syn {
      assert s.outstanding[i] in s.outstanding;
      if i > 0 { TilesAbove(s.outstanding, s.Una(), s.nextSeqno, i); }
    }
  }

  lemma FillPast(s: Sender)
    requires PastSyn(s)
    ensures PastSyn(FillWindow(s))
  {
    hide Inv, FillWindow;
    InvValid(s);
    FillInv(s);
    var s' := FillWindow(s);
    NoSynLeft(s');
    var added := s'.outstanding[|s.outstanding|..];
    assert s'.queue == s.queue + added;
    assert forall u <- added :: u in s'.outstanding;
  }

  lemma AckPast(s: Sender, ackno: U32, win: U16)
    requires PastSyn(s)
    ensures PastSyn(AckReceived(s, ackno, win))
  {
    hide Inv, FillWindow, Settle, Unwrap;
    var abs := Unwrap(ackno, s.isn, s.nextSeqno);
    InvValid(s);
    if AckValid(s, abs) {
      SettleInv(s, abs, win);
      SettleFields(s, abs, win);
      FillPast(Settle(s, abs, win));
    }
  }

  lemma TickPast(s: Sender, ms: nat)
    requires PastSyn(s)
    ensures PastSyn(Tick(s, ms))
  {
    hide Inv, Tick;
    InvValid(s);
    TickInv(s, ms);
    TickFields(s, ms);
    NoSynLeft(s);
  }

  lemma EmptyPast(s: Sender)
    requires PastSyn(s)
    ensures PastSyn(SendEmpty(s))
  {
    hide Inv;
    InvValid(s);
    SendEmptyInv(s);
  }

  /** Nothing with a SYN is left to go out. */
  predicate NoMoreSyn(c: Conn) {
    PastSyn(c.snd) && forall seg <- c.out :: !seg.header.syn
  }

  lemma MarksPast(s: Sender, q: seq<AbsSegment>, error: bool)
    requires PastSyn(s) && forall u <- q :: u in s.queue
    ensures PastSyn(s.(queue := q, stream := s.stream.(error := error)))
  {
    hide Tiles, AbsSegment.SliceOf, Low16;
    assert s.(queue := q, stream := s.stream.(error := error)).Sent() == s.Sent();
  }

  lemma FlushPast(c: Conn)
    requires c.Valid() && NoMoreSyn(c)
    ensures NoMoreSyn(Flush(c))
  {
    hide Inv, PastSyn;
    FlushKeeps(c);
    MarksPast(c.snd, [], c.snd.stream.error);
    assert c.snd.(queue := []) == c.snd.(queue := [], stream := c.snd.stream.(error := c.snd.stream.error));
    forall seg | seg in StampAll(c, c.snd.queue) ensures !seg.header.syn {
      var i :| 0 <= i < |c.snd.queue| && seg == StampAll(c, c.snd.queue)[i];
      assert !c.snd.queue[i].syn by { QueuePast(c.snd, i); }
    }
  }

  lemma QueuePast(s: Sender, i: nat)
    requires PastSyn(s) && i < |s.queue|
    ensures !s.queue[i].syn
  {
    hide Inv;
  }

  lemma UncleanPast(c: Conn)
    requires c.snd.Valid() && c.rcv.Valid() && c.snd.queue != [] && NoMoreSyn(c)
    ensures NoMoreSyn(Unclean(c))
  {
    hide Inv, PastSyn;
    QueuePast(c.snd, 0);
    MarksPast(c.snd, c.snd.queue[1..], true);
    assert Unclean(c).snd == c.snd.(queue := c.snd.queue[1..], stream := c.snd.stream.(error := true));
  }

  lemma AnswerPast(c: Conn, seg: Segment)
    requires c.Valid() && PastSyn(AckReceived(c.snd, seg.header.ackno, seg.header.win))
    requires forall other <- c.out :: !other.header.syn
    ensures NoMoreSyn(Answer(c, seg))
  {
    hide AckReceived, Flush, Unclean, PastSyn;
    AckKeeps(c.snd, seg.header.ackno, seg.header.win);
    var acked := AckReceived(c.snd, seg.header.ackno, seg.header.win);
    var answered := if acked.stream.Size() == 0 && seg.LengthInSequenceSpace() > 0 then SendEmpty(acked) else acked;
    EmptyPast(acked);
    EmptyPast(answered);
    if seg.header.rst {
      UncleanPast(c.(snd := SendEmpty(answered)));
    } else {
      FlushPast(c.(snd := answered));
    }
  }

  lemma ElapsePast(c: Conn, ms: nat)
    requires c.Valid() && NoMoreSyn(c)
    ensures NoMoreSyn(Elapse(c, ms))
  {
    hide Tick, Flush, Unclean, PastSyn;
    if c.active {
      TickPast(c.snd, ms);
      TickFields(c.snd, ms);
      var t := c.(sinceSegment := c.sinceSegment + ms, snd := Tick(c.snd, ms));
      if t.snd.retx > MAX_RETX_ATTEMPTS {
        UncleanPast(t);
        FlushPast(Unclean(t));
      } else {
        FlushPast(t);
      }
    }
  }

  lemma FilledPast(c: Conn, t: Sender)
    requires c.Valid() && NoMoreSyn(c) && PastSyn(t) && t.retx == c.snd.retx
    ensures t.Valid() && FillWindow(t).retx == t.retx
    ensures NoMoreSyn(Flush(c.(snd := FillWindow(t))))
  {
    hide Inv, FillWindow, Flush;
    InvValid(t);
    FillPast(t);
    FillKeeps(t);
    FlushPast(c.(snd := FillWindow(t)));
  }

  lemma StreamPast(s: Sender, data: seq<Byte>)
    requires PastSyn(s)
    ensures PastSyn(s.Write(data)) && PastSyn(s.EndInput())
  {
    hide Inv;
    InvValid(s);
    WriteInv(s, data);
    EndInv(s);
  }

  lemma NotHandshaking(c: Conn)
    requires NoMoreSyn(c)
    ensures !Listening(c) && !SynSent(c)
  {
    hide Inv;
    InvValid(c.snd);
  }

  lemma NextPast(c: Conn, e: Event)
    requires c.Valid() && NoMoreSyn(c)
    ensures NoMoreSyn(Next(c, e))
  {
    hide FillWindow, Flush, Unclean, Answer, AckReceived, Elapse, PastSyn, R.Receive;
    match e
    case Open => FilledPast(c, c.snd);
    case Send(data) => StreamPast(c.snd, data); FilledPast(c, c.snd.Write(data));
    case Finish => StreamPast(c.snd, []); FilledPast(c, c.snd.EndInput());
    case Arrive(seg) =>
      if c.active {
        NotHandshaking(c);
        var d := c.(sinceSegment := 0);
        AckPast(c.snd, seg.header.ackno, seg.header.win);
        AnswerPast(d.(rcv := R.Receive(d.rcv, seg).0), seg);
      }
    case Pass(ms) => ElapsePast(c, ms);
    case Take(len) =>
    case Collect =>
    case Destroy => if c.active { EmptyPast(c.snd); UncleanPast(c.(snd := SendEmpty(c.snd))); }
  }

  /** The first end has done with its SYN, and the second has never seen it. */
  predicate Stuck(w: World) {
    NoMoreSyn(w.a) && w.b.rcv.isn.None? && forall seg <- w.toB :: !seg.header.syn
  }

  /** Without a SYN a receiver does not start. */
  lemma StaysUnstarted(c: Conn, e: Event)
    requires c.Valid() && c.rcv.isn.None? && (e.Arrive? ==> !e.seg.header.syn)
    ensures Next(c, e).rcv.isn.None?
  {
    hide Next;
    NextReceiver(c, e);
  }

  lemma TurnStuck(w: World, t: Turn)
    requires w.a.Valid() && w.b.Valid() && Stuck(w) && TurnAllowed(w, t)
    ensures Stuck(OneTurn(w, t))
  {
    hide Next, PastSyn, Readable;
    match t
    case First(m) =>
      if m.Act? { NextPast(w.a, m.e); }
      if m.Post? { NextPast(w.a, Collect); }
      if m.Deliver? { NextPast(w.a, Arrive(m.seg)); }
    case Second(m) =>
      if m.Act? { StaysUnstarted(w.b, m.e); }
      if m.Post? { StaysUnstarted(w.b, Collect); }
      if m.Deliver? { StaysUnstarted(w.b, Arrive(m.seg)); }
  }

  lemma {:induction false} StuckForever(w: World, ts: seq<Turn>)
    requires w.a.Valid() && w.b.Valid() && Stuck(w) && Happens(w, ts)
    ensures Stuck(History(w, ts))
    decreases |ts|
  {
    hide Stuck, OneTurn, TurnAllowed;
    if ts != [] {
      TurnStuck(w, ts[0]);
      StuckForever(OneTurn(w, ts[0]), ts[1..]);
    }
  }

  // ----- a history in which that happens -----

  /** The peer's SYN once more: its empty acknowledgement field pops our own SYN, and nothing will send it again. */
  lemma PeerSynAgain(c: Conn, peer: U32)
    requires ConnInv(c) && c.active && c.out == [] && c.rcv.isn == Some(peer) && c.snd.isn == TWO32 - 1
    requires SynOutstanding(c.snd) && !c.snd.stream.ended && forall u <- c.snd.queue :: !u.syn
    ensures var c' := Next(c, Arrive(SYN.Wire(peer)));
            ConnInv(c') && c'.active && c'.snd.Una() == 1 && NoMoreSyn(c')
  {
    hide ConnInv, Answer, PastSyn, Unwrap, Wrap, R.Receive;
    var seg, d := SYN.Wire(peer), c.(sinceSegment := 0);
    var received := d.(rcv := R.Receive(d.rcv, seg).0);
    NextInv(c, Arrive(seg));
    assert ConnInv(d) by { AnyTime(c); }
    SynPopped(d, seg);
    SynTaken(c, seg);
    assert !Listening(c) && !SynSent(c);
    AnswerPast(received, seg);
    NeverReset(c, seg);
  }

  lemma AnyTime(c: Conn)
    requires ConnInv(c)
    ensures ConnInv(c.(sinceSegment := 0))
  {
    hide Steady;
  }

  /** The sender that took the empty field for an acknowledgement is past its SYN. */
  lemma SynTaken(c: Conn, seg: Segment)
    requires ConnInv(c) && SynOutstanding(c.snd) && c.snd.isn == TWO32 - 1 && seg.header.ackno == 0
    requires forall u <- c.snd.queue :: !u.syn
    ensures PastSyn(AckReceived(c.snd, seg.header.ackno, seg.header.win))
  {
    hide Inv, FillWindow, Settle, Unwrap, BackedOff, Quiet;
    var s := c.snd;
    InvTiles(s);
    FrontSyn(s);
    assert Wrap(1, s.isn) == 0;
    UnwrapWrap(1, s.isn, 1);
    SettleInv(s, 1, seg.header.win);
    SettleFields(s, 1, seg.header.win);
    FrontSyn(Settle(s, 1, seg.header.win));
    FillPast(Settle(s, 1, seg.header.win));
  }

  /** An active connection with more to say stays active unless it is reset. */
  lemma NeverReset(c: Conn, seg: Segment)
    requires ConnInv(c) && c.active && !Listening(c) && !SynSent(c) && !seg.header.rst && !c.snd.stream.ended
    ensures Next(c, Arrive(seg)).active
  {
    hide Inv, R.Receive, AckAbs, Unwrap, BackedOff, Quiet, StampAll;
    AckKeeps(c.snd, seg.header.ackno, seg.header.win);
    AckInv(c.snd, Unwrap(seg.header.ackno, c.snd.isn, c.snd.nextSeqno), seg.header.win);
  }

  /** Both ends open; the first end's SYN is lost, the second's arrives twice. */
  function LostSyn(isnA: U32, isnB: U32): seq<Turn> {
    [First(Act(Open)), First(Post), Second(Lose(SYN.Wire(isnA)))]
    + [Second(Act(Open)), Second(Post), First(Deliver(SYN.Wire(isnB))), First(Deliver(SYN.Wire(isnB)))]
  }

  lemma {:induction false} HistoryConcat(w: World, s: seq<Turn>, t: seq<Turn>)
    requires w.a.Valid() && w.b.Valid()
    ensures History(w, s + t) == History(History(w, s), t)
    ensures Happens(w, s + t) <==> Happens(w, s) && Happens(History(w, s), t)
    decreases |s|
  {
    hide OneTurn, TurnAllowed;
    if s == [] {
      assert s + t == t;
    } else {
      assert (s + t)[1..] == s[1..] + t;
      HistoryConcat(OneTurn(w, s[0]), s[1..], t);
    }
  }

  lemma HistoryOne(w: World, t: Turn)
    requires w.a.Valid() && w.b.Valid()
    ensures History(w, [t]) == OneTurn(w, t)
    ensures Happens(w, [t]) <==> TurnAllowed(w, t)
  {
    hide OneTurn, TurnAllowed;
    assert [t][1..] == [];
  }

  lemma HistoryThree(w: World, a: Turn, b: Turn, c: Turn)
    requires w.a.Valid() && w.b.Valid()
    ensures var w1 := OneTurn(w, a);
            var w2 := OneTurn(w1, b);
            && History(w, [a, b, c]) == OneTurn(w2, c)
            && (Happens(w, [a, b, c]) <==> TurnAllowed(w, a) && TurnAllowed(w1, b) && TurnAllowed(w2, c))
  {
    hide OneTurn, TurnAllowed, History, Happens;
    var w1 := OneTurn(w, a);
    HistoryOne(w, a);
    HistoryOne(w1, b);
    HistoryOne(OneTurn(w1, b), c);
    HistoryConcat(w1, [b], [c]);
    HistoryConcat(w, [a], [b] + [c]);
    assert [a, b, c] == [a] + ([b] + [c]);
  }

  lemma SynReadable(b: Conn, isn: U32, r: R.Receiver)
    requires JustOpened(b, isn) && r.reasm.Rpos() == 0
    ensures Readable(SYN.Wire(isn), b.snd, r)
  {
    hide ConnInv, Wrap;
    assert Carries(SYN.Wire(isn), SYN, b.snd.isn) && SYN.SliceOf(b.snd.Sent(), b.snd.finSent);
  }

  /** The first end opens, and its SYN is lost. */
  lemma OpenAndLose(a0: Conn, b0: Conn, isnA: U32)
    requires a0.Valid() && b0.Valid() && Next(a0, Open).out == [SYN.Wire(isnA)]
    ensures var ts := [First(Act(Open)), First(Post), Second(Lose(SYN.Wire(isnA)))];
            && Happens(Meet(a0, b0), ts)
            && History(Meet(a0, b0), ts) == World(Next(Next(a0, Open), Collect), b0, {}, {})
  {
    hide Next, History, Happens;
    HistoryThree(Meet(a0, b0), First(Act(Open)), First(Post), Second(Lose(SYN.Wire(isnA))));
    assert {} + (set seg | seg in [SYN.Wire(isnA)]) == {SYN.Wire(isnA)};
  }

  /** The second end opens, and its SYN arrives twice. */
  lemma OpenAndArrive(a: Conn, b0: Conn, isnA: U32, isnB: U32)
    requires JustOpened(a, isnA) && b0.Valid() && Next(b0, Open).out == [SYN.Wire(isnB)]
    requires JustOpened(Next(Next(b0, Open), Collect), isnB)
    ensures var syn := SYN.Wire(isnB);
            var ts := [Second(Act(Open)), Second(Post), First(Deliver(syn)), First(Deliver(syn))];
            var w := World(a, b0, {}, {});
            && Happens(w, ts)
            && History(w, ts)
               == World(Next(Next(a, Arrive(syn)), Arrive(syn)), Next(Next(b0, Open), Collect), {syn}, {})
  {
    hide Next, History, Happens, JustOpened, Readable;
    var syn := SYN.Wire(isnB);
    var w, b := World(a, b0, {}, {}), Next(Next(b0, Open), Collect);
    OpenedValid(a, isnA);
    HistoryThree(w, Second(Act(Open)), Second(Post), First(Deliver(syn)));
    assert {} + (set seg | seg in [syn]) == {syn};
    var w2 := World(a, b, {syn}, {});
    assert OneTurn(OneTurn(w, Second(Act(Open))), Second(Post)) == w2;
    SynReadable(b, isnB, a.rcv);
    PeerSyn(a, isnA, isnB);
    SynReadable(b, isnB, Next(a, Arrive(syn)).rcv);
    HistoryOne(OneTurn(w2, First(Deliver(syn))), First(Deliver(syn)));
    HistoryConcat(w, [Second(Act(Open)), Second(Post), First(Deliver(syn))], [First(Deliver(syn))]);
    assert [Second(Act(Open)), Second(Post), First(Deliver(syn)), First(Deliver(syn))]
        == [Second(Act(Open)), Second(Post), First(Deliver(syn))] + [First(Deliver(syn))];
  }

  lemma OpenedValid(c: Conn, isn: U32)
    requires JustOpened(c, isn)
    ensures c.Valid() && c.rcv.reasm.Rpos() == 0
  {
    hide Steady;
  }

  /**
   * The ignored flag can break the acknowledgement bounds for good. With both ends opening and the first end's initial
   * number one below the wrap, its SYN is lost and its peer's SYN arrives twice. The first end, still active, then
   * holds its SYN acknowledged, its peer has not seen it, and in no continuation ever will.
   */
  lemma FlaglessSyn(sendA: nat, recvA: nat, rtA: U16, sendB: nat, recvB: nat, rtB: U16, isnB: U32, more: seq<Turn>)
    requires 0 < recvA && 0 < recvB
    ensures var isnA := TWO32 - 1;
            var w0 := Meet(NewConn(sendA, recvA, rtA, isnA), NewConn(sendB, recvB, rtB, isnB));
            var w := History(w0, LostSyn(isnA, isnB));
            && Happens(w0, LostSyn(isnA, isnB))
            && w.a.active && w.a.snd.Una() == 1 && w.b.rcv.Left() == 0
            && (Happens(w, more) ==> History(w, more).b.rcv.Left() == 0)
  {
    hide Next, History, Happens, JustOpened, Stuck;
    var isnA, synB := TWO32 - 1, SYN.Wire(isnB);
    var a0, b0 := NewConn(sendA, recvA, rtA, isnA), NewConn(sendB, recvB, rtB, isnB);
    OpenFresh(sendA, recvA, rtA, isnA);
    OpenFresh(sendB, recvB, rtB, isnB);
    var a, b := Next(Next(a0, Open), Collect), Next(Next(b0, Open), Collect);
    OpenAndLose(a0, b0, isnA);
    OpenAndArrive(a, b0, isnA, isnB);
    HistoryConcat(Meet(a0, b0), LostSyn(isnA, isnB)[..3], LostSyn(isnA, isnB)[3..]);
    assert LostSyn(isnA, isnB)[..3] == [First(Act(Open)), First(Post), Second(Lose(SYN.Wire(isnA)))];
    assert LostSyn(isnA, isnB)[3..] == [Second(Act(Open)), Second(Post), First(Deliver(synB)), First(Deliver(synB))];
    assert LostSyn(isnA, isnB) == LostSyn(isnA, isnB)[..3] + LostSyn(isnA, isnB)[3..];
    PeerSyn(a, isnA, isnB);
    PeerSynAgain(Next(a, Arrive(synB)), isnB);
    var w := History(Meet(a0, b0), LostSyn(isnA, isnB));
    assert Stuck(w) by { StuckNow(w, isnB); }
    if Happens(w, more) {
      StuckForever(w, more);
      StuckLeft(History(w, more));
    }
    StuckLeft(w);
  }

  lemma StuckNow(w: World, isnB: U32)
    requires NoMoreSyn(w.a) && JustOpened(w.b, isnB) && w.toB == {}
    ensures Stuck(w)
  {
    hide PastSyn, ConnInv;
  }

  lemma StuckLeft(w: World)
    requires Stuck(w)
    ensures w.b.rcv.Left() == 0
  {
    hide PastSyn;
  }
}
