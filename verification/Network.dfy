/** One sender and one receiver joined by a network that loses, repeats and reorders both ways. */
module Network {
  import opened Basics
  import opened WrappingIntegers
  import opened Reassembly
  import opened Segments
  import opened Receivers
  import opened Senders

  /** An acknowledgement in the network; on the wire its number is cut to 32 bits. */
  datatype Ack = Ack(abs: nat, win: U16)

  datatype System = System(snd: Sender, rcv: Receiver, data: set<AbsSegment>, acks: set<Ack>)

  datatype Event =
    | Write(bytes: seq<Byte>)
    | End
    | Fill
    | Elapse(ms: nat)
    | Transmit
    | DeliverData(u: AbsSegment)
    | DropData(u: AbsSegment)
    | Consume(len: nat)
    | EmitAck
    | DeliverAck(a: Ack)
    | DropAck(a: Ack)

  predicate Valid(s: System) {
    s.snd.Valid() && s.rcv.Valid()
  }

  /** The acknowledgement a receiver sends now; its window field has 16 bits. */
  function AckOf(r: Receiver): Ack
    requires r.Valid()
  {
    Ack(r.AbsAckno(), Low16(r.WindowSize()))
  }

  /**
   * When an event can happen. The writer does not write after ending its stream. What is delivered
   * is in the network and recent enough for 32 bits to identify it, and so is the oldest outstanding segment
   * when an acknowledgement is held against it.
   */
  predicate Enabled(s: System, e: Event) {
    match e
    case Write(_) => !s.snd.stream.ended
    case DeliverData(u) => u in s.data && Resolvable(s.rcv, u)
    case DropData(u) => u in s.data
    case EmitAck => s.rcv.isn.Some?
    case DeliverAck(a) =>
      && a in s.acks && Checkpoint(s.snd.nextSeqno) && InRange(a.abs, s.snd.nextSeqno)
      && s.snd.bytesInFlight <= TWO31
    case DropAck(a) => a in s.acks
    case _ => true
  }

  function Apply(s: System, e: Event): (s': System)
    requires Valid(s)
    ensures Valid(s')
  {
    match e
    case Write(bytes) => s.(snd := s.snd.Write(bytes))
    case End => s.(snd := s.snd.EndInput())
    case Fill => s.(snd := FillWindow(s.snd))
    case Elapse(ms) => s.(snd := Tick(s.snd, ms))
    case Transmit => s.(snd := s.snd.(queue := []), data := s.data + set u | u in s.snd.queue)
    case DeliverData(u) => s.(rcv := Receive(s.rcv, u.Wire(s.snd.isn)).0)
    case DropData(u) => s.(data := s.data - {u})
    case Consume(len) => s.(rcv := s.rcv.Read(len))
    case EmitAck => s.(acks := s.acks + {AckOf(s.rcv)})
    case DeliverAck(a) => s.(snd := AckReceived(s.snd, Wrap(a.abs, s.snd.isn), a.win))
    case DropAck(a) => s.(acks := s.acks - {a})
  }

  function Start(sendCapacity: nat, recvCapacity: nat, retxTimeout: U16, isn: U32): (s: System)
    requires 0 < recvCapacity
    ensures Valid(s)
  {
    System(FreshSender(sendCapacity, retxTimeout, isn), FreshReceiver(recvCapacity), {}, {})
  }

  function Run(s: System, evs: seq<Event>): (s': System)
    requires Valid(s)
    ensures Valid(s')
    decreases |evs|
  {
    if evs == [] then s else Run(Apply(s, evs[0]), evs[1..])
  }

  /** Every event of the run can happen when its turn comes. */
  predicate Possible(s: System, evs: seq<Event>)
    requires Valid(s)
    decreases |evs|
  {
    evs == [] || (Enabled(s, evs[0]) && Possible(Apply(s, evs[0]), evs[1..]))
  }

  // ----- the invariant of the whole system -----

  predicate InNetwork(data: set<AbsSegment>, sent: seq<Byte>, finished: bool, limit: nat) {
    forall u <- data :: u.SliceOf(sent, finished) && u.End() <= limit
  }

  /** Every acknowledgement in the network was true when sent, and is not ahead of the receiver now. */
  predicate AcksTrue(acks: set<Ack>, rcv: Receiver)
    requires rcv.Valid()
  {
    forall a <- acks ::
      rcv.isn.Some? && 1 <= a.abs <= rcv.AbsAckno() && a.abs + a.win <= rcv.AbsAckno() + rcv.WindowSize()
  }

  predicate SysInv(s: System)
    ensures SysInv(s) ==> Valid(s)
  {
    && Inv(s.snd)
    && (s.snd.finSent ==> s.snd.stream.nread == |s.snd.stream.written|)
    && Tracks(s.rcv, s.snd.Sent(), s.snd.finSent, s.snd.isn)
    && (s.rcv.isn.Some? ==> s.snd.synSent)
    && InNetwork(s.data, s.snd.Sent(), s.snd.finSent, s.snd.nextSeqno)
    && AcksTrue(s.acks, s.rcv)
    && s.snd.Una() <= s.rcv.Left()
  }

  lemma StartInv(sendCapacity: nat, recvCapacity: nat, retxTimeout: U16, isn: U32)
    requires 0 < recvCapacity
    ensures SysInv(Start(sendCapacity, recvCapacity, retxTimeout, isn))
  {
    FreshInv(sendCapacity, retxTimeout, isn);
  }

  lemma NetworkStays(data: set<AbsSegment>, sent: seq<Byte>, finished: bool, limit: nat,
                     sent': seq<Byte>, finished': bool, limit': nat)
    requires InNetwork(data, sent, finished, limit)
    requires sent <= sent' && limit <= limit' && (finished ==> finished' && sent' == sent)
    ensures InNetwork(data, sent', finished', limit')
  {
    hide AbsSegment.SliceOf;
    forall u | u in data ensures u.SliceOf(sent', finished') {
      SliceStays(u, sent, finished, sent', finished');
    }
  }

  /** What a sender's own step must do for the system to stay sound. */
  lemma SenderMoves(s: System, t': Sender)
    requires SysInv(s) && Inv(t') && MovesOn(s.snd, t') && t'.Una() <= s.rcv.Left()
    ensures SysInv(s.(snd := t'))
  {
    hide Inv, Tracks, InNetwork, AcksTrue;
    InvValid(s.snd);
    InvValid(t');
    var t := s.snd;
    assert t.Sent() <= t'.Sent();
    assert t.finSent ==> t'.Sent() == t.Sent();
    TracksMoreSent(s.rcv, t.Sent(), t.finSent, t'.Sent(), t'.finSent, t.isn);
    NetworkStays(s.data, t.Sent(), t.finSent, t.nextSeqno, t'.Sent(), t'.finSent, t'.nextSeqno);
  }

  lemma FillStep(s: System)
    requires SysInv(s)
    ensures SysInv(Apply(s, Fill))
  {
    hide Inv, FillWindow, Appends, Tracks, InNetwork, AcksTrue;
    FillInv(s.snd);
    SenderMoves(s, FillWindow(s.snd));
  }

  lemma WriteStep(s: System, bytes: seq<Byte>)
    requires SysInv(s) && !s.snd.stream.ended
    ensures SysInv(Apply(s, Write(bytes)))
  {
    hide Inv, Tracks, InNetwork, AcksTrue;
    InvValid(s.snd);
    WriteInv(s.snd, bytes);
    SenderMoves(s, s.snd.Write(bytes));
  }

  lemma EndStep(s: System)
    requires SysInv(s)
    ensures SysInv(Apply(s, End))
  {
    hide Inv, Tracks, InNetwork, AcksTrue;
    InvValid(s.snd);
    EndInv(s.snd);
    SenderMoves(s, s.snd.EndInput());
  }

  lemma ElapseStep(s: System, ms: nat)
    requires SysInv(s)
    ensures SysInv(Apply(s, Elapse(ms)))
  {
    hide Inv, Tick, Tracks, InNetwork, AcksTrue;
    InvValid(s.snd);
    TickInv(s.snd, ms);
    TickFields(s.snd, ms);
    SenderMoves(s, Tick(s.snd, ms));
  }

  lemma TransmitStep(s: System)
    requires SysInv(s)
    ensures SysInv(Apply(s, Transmit))
  {
    hide Inv, Tracks, AbsSegment.SliceOf, AcksTrue;
    DrainInv(s.snd);
  }

  lemma DeliverDataStep(s: System, u: AbsSegment)
    requires SysInv(s) && Enabled(s, DeliverData(u))
    ensures SysInv(Apply(s, DeliverData(u)))
  {
    hide Inv, Tracks, Receive;
    InvValid(s.snd);
    ReceiveTracks(s.rcv, u, s.snd.Sent(), s.snd.finSent, s.snd.isn);
    SynStarts(s.rcv, u, s.snd.isn);
  }

  lemma ConsumeStep(s: System, len: nat)
    requires SysInv(s)
    ensures SysInv(Apply(s, Consume(len)))
  {
    hide Inv, InNetwork;
  }

  lemma EmitAckStep(s: System)
    requires SysInv(s) && s.rcv.isn.Some?
    ensures SysInv(Apply(s, EmitAck))
  {
    hide Inv, InNetwork, Tracks;
  }

  /** What the sender makes of an acknowledgement it can resolve. */
  lemma AckResolves(t: Sender, a: Ack)
    requires t.Valid() && Checkpoint(t.nextSeqno) && InRange(a.abs, t.nextSeqno)
    ensures AckReceived(t, Wrap(a.abs, t.isn), a.win) == AckAbs(t, a.abs, a.win)
  {
    hide Unwrap, Wrap, AckAbs;
    UnwrapWrap(a.abs, t.isn, t.nextSeqno);
  }

  lemma DeliverAckStep(s: System, a: Ack)
    requires SysInv(s) && Enabled(s, DeliverAck(a))
    ensures SysInv(Apply(s, DeliverAck(a)))
  {
    hide Inv, Tracks, InNetwork, AckReceived, AckAbs;
    InvValid(s.snd);
    AckResolves(s.snd, a);
    AckInv(s.snd, a.abs, a.win);
    SenderMoves(s, AckAbs(s.snd, a.abs, a.win));
  }

  /** Every event keeps the system sound. */
  lemma StepInv(s: System, e: Event)
    requires SysInv(s) && Enabled(s, e)
    ensures SysInv(Apply(s, e))
  {
    hide Inv, Tracks, Receive, AckReceived, FillWindow, Tick;
    match e
    case Write(bytes) => WriteStep(s, bytes);
    case End => EndStep(s);
    case Fill => FillStep(s);
    case Elapse(ms) => ElapseStep(s, ms);
    case Transmit => TransmitStep(s);
    case DeliverData(u) => DeliverDataStep(s, u);
    case DropData(u) =>
    case Consume(len) => ConsumeStep(s, len);
    case EmitAck => EmitAckStep(s);
    case DeliverAck(a) => DeliverAckStep(s, a);
    case DropAck(a) =>
  }

  lemma {:induction false} RunInv(s: System, evs: seq<Event>)
    requires SysInv(s) && Possible(s, evs)
    ensures SysInv(Run(s, evs))
    decreases |evs|
  {
    hide SysInv, Apply, Enabled;
    if evs != [] {
      StepInv(s, evs[0]);
      RunInv(Apply(s, evs[0]), evs[1..]);
    }
  }

  /**
   * End to end, in every run over a network that drops, repeats and reorders: what the receiver has
   * written is a prefix of what the sender was given; the receiver's stream ends only once the
   * sender's has ended and all of it has arrived; what the sender holds acknowledged has been
   * assembled, segment by segment, while nothing was assembled that was not sent.
   */
  lemma EndToEnd(sendCapacity: nat, recvCapacity: nat, retxTimeout: U16, isn: U32, evs: seq<Event>)
    requires 0 < recvCapacity
    requires Possible(Start(sendCapacity, recvCapacity, retxTimeout, isn), evs)
    ensures var s := Run(Start(sendCapacity, recvCapacity, retxTimeout, isn), evs);
            && s.rcv.reasm.out.written <= s.snd.stream.written
            && (s.rcv.reasm.out.ended ==>
                  s.snd.stream.ended && s.snd.finSent && s.rcv.reasm.out.written == s.snd.stream.written)
            && s.snd.Una() <= s.rcv.Left() <= s.snd.nextSeqno
            && (forall u <- s.snd.outstanding :: s.snd.Una() <= u.start)
            && (forall u: AbsSegment ::
                  u.SliceOf(s.snd.Sent(), s.snd.finSent) && u.End() <= s.snd.Una() ==> Assembled(u, s.rcv))
  {
    StartInv(sendCapacity, recvCapacity, retxTimeout, isn);
    RunInv(Start(sendCapacity, recvCapacity, retxTimeout, isn), evs);
    var s := Run(Start(sendCapacity, recvCapacity, retxTimeout, isn), evs);
    SoundMeans(s);
    forall u: AbsSegment | u.SliceOf(s.snd.Sent(), s.snd.finSent) && u.End() <= s.snd.Una()
      ensures Assembled(u, s.rcv)
    {
      AckedAssembled(s, u);
    }
  }

  /** The segment's bytes stand in the receiver's output at their place; its SYN and its FIN have been taken in. */
  predicate Assembled(u: AbsSegment, r: Receiver) {
    && u.End() <= r.Left()
    && (u.payload != [] ==>
          u.Index() + |u.payload| <= r.reasm.Rpos()
          && r.reasm.out.written[u.Index()..u.Index() + |u.payload|] == u.payload)
    && (u.syn ==> r.isn.Some?)
    && (u.fin ==> r.reasm.out.ended)
  }

  /** Any slice of what was sent, once acknowledged to its end, has been assembled. */
  lemma AckedAssembled(s: System, u: AbsSegment)
    requires SysInv(s) && u.SliceOf(s.snd.Sent(), s.snd.finSent) && u.End() <= s.snd.Una()
    ensures Assembled(u, s.rcv)
  {
    hide Inv, InNetwork, AcksTrue;
    InvValid(s.snd);
    AcknoCounts(s.rcv, s.snd.Sent(), s.snd.finSent, s.snd.isn);
    var sent, out := s.snd.Sent(), s.rcv.reasm.out.written;
    if u.payload != [] {
      var lo, hi := u.Index(), u.Index() + |u.payload|;
      assert hi <= |out|;
      assert out[lo..hi] == sent[lo..hi];
    }
  }

  lemma SoundMeans(s: System)
    requires SysInv(s)
    ensures s.rcv.reasm.out.written <= s.snd.stream.written
    ensures s.rcv.reasm.out.ended ==>
              s.snd.stream.ended && s.snd.finSent && s.rcv.reasm.out.written == s.snd.stream.written
    ensures s.snd.Una() <= s.rcv.Left() <= s.snd.nextSeqno
    ensures forall u <- s.snd.outstanding :: s.snd.Una() <= u.start
  {
    hide InNetwork, AcksTrue, AllSlices;
    AcknoCounts(s.rcv, s.snd.Sent(), s.snd.finSent, s.snd.isn);
    forall i | 0 <= i < |s.snd.outstanding|
      ensures s.snd.Una() <= s.snd.outstanding[i].start
    {
      if i > 0 { TilesAbove(s.snd.outstanding, s.snd.Una(), s.snd.nextSeqno, i); }
    }
  }

  /** Of a stream short enough for 32 bits, everything in the network can be delivered. */
  lemma ShortStreamsResolve(s: System)
    requires SysInv(s) && |s.snd.stream.written| + 2 < TWO31
    ensures forall u <- s.data :: Enabled(s, DeliverData(u))
    ensures forall a <- s.acks :: Enabled(s, DeliverAck(a))
  {
    hide Inv;
    InvValid(s.snd);
    FrontSyn(s.snd);
    SoundMeans(s);
  }

  // ----- flow control -----

  /** `a` promises no more than `b` does. */
  predicate NoLater(a: Ack, b: Ack) {
    a.abs <= b.abs && a.abs + a.win <= b.abs + b.win
  }

  /** The acknowledgements emitted so far, in order. */
  function Logged(s: System, e: Event, log: seq<Ack>): seq<Ack>
    requires Valid(s)
  {
    if e.EmitAck? then log + [AckOf(s.rcv)] else log
  }

  /** A delivery takes a copy of the emission `pick`, and none from before the last one delivered. */
  predicate PicksOn(e: Event, pick: nat, log: seq<Ack>, last: nat) {
    e.DeliverAck? ==> last <= pick < |log| && log[pick] == e.a
  }

  function LastAfter(e: Event, pick: nat, last: nat): nat {
    if e.DeliverAck? then pick else last
  }

  /**
   * Acknowledgements arrive in the order the receiver emitted them, some lost, some repeated: `picks` tells
   * for each delivery which emission it is a copy of.
   */
  predicate EmissionOrder(s: System, evs: seq<Event>, picks: seq<nat>, log: seq<Ack>, last: nat)
    requires Valid(s) && |picks| == |evs|
    decreases |evs|
  {
    evs == [] || (
      && PicksOn(evs[0], picks[0], log, last)
      && EmissionOrder(
           Apply(s, evs[0]), evs[1..], picks[1..], Logged(s, evs[0], log), LastAfter(evs[0], picks[0], last)))
  }

  predicate Ascending(log: seq<Ack>) {
    forall i, j :: 0 <= i <= j < |log| ==> NoLater(log[i], log[j])
  }

  /** Emissions ascend up to what the receiver promises now, and the sender knows none past the last delivered. */
  predicate LogInv(s: System, log: seq<Ack>, last: nat)
    requires Valid(s)
  {
    && s.rcv.reasm.out.capacity < TWO16
    && Ascending(log)
    && (log != [] ==> s.rcv.isn.Some?)
    && (forall a <- log :: a.abs <= s.rcv.AbsAckno() && a.abs + a.win <= s.rcv.AbsAckno() + s.rcv.WindowSize())
    && ((s.snd.lastAck == 0 && s.snd.windowSize == 0)
        || (last < |log| && s.snd.lastAck <= log[last].abs && s.snd.Edge() <= log[last].abs + log[last].win))
  }

  /** Each emission is at or above every one before it, whatever became of those. */
  lemma NewestAck(s: System, log: seq<Ack>, last: nat)
    requires Valid(s) && LogInv(s, log, last)
    ensures forall a <- log :: NoLater(a, AckOf(s.rcv))
    ensures Ascending(log + [AckOf(s.rcv)])
    ensures AckOf(s.rcv).abs + AckOf(s.rcv).win == s.rcv.AbsAckno() + s.rcv.WindowSize()
  {
    var log', n := log + [AckOf(s.rcv)], AckOf(s.rcv);
    assert n.win == s.rcv.WindowSize();
    forall i, j | 0 <= i <= j < |log'| ensures NoLater(log'[i], log'[j]) {
      if j == |log| && i < j { assert log'[i] in log; }
    }
  }

  /** The acknowledgement moves neither the sender's number nor its edge back. */
  predicate InOrder(s: System, e: Event) {
    e.DeliverAck? && AckValid(s.snd, e.a.abs) ==> s.snd.lastAck <= e.a.abs && s.snd.Edge() <= e.a.abs + e.a.win
  }

  /** Delivery in the order of emission is in order, and stays so. */
  lemma LogStep(s: System, e: Event, pick: nat, log: seq<Ack>, last: nat)
    requires SysInv(s) && Enabled(s, e) && LogInv(s, log, last) && PicksOn(e, pick, log, last)
    ensures InOrder(s, e)
    ensures LogInv(Apply(s, e), Logged(s, e, log), LastAfter(e, pick, last))
  {
    hide SysInv, Enabled, Apply, Low16;
    PromisesStay(s, e);
    if e.EmitAck? {
      NewestAck(s, log, last);
    } else if e.DeliverAck? {
      assert last < |log| ==> NoLater(log[last], log[pick]);
    }
    EdgeMoves(s, e);
  }

  /** Whatever happens, the receiver's number and right edge do not move back. */
  lemma PromisesStay(s: System, e: Event)
    requires SysInv(s) && Enabled(s, e)
    ensures var r, r' := s.rcv, Apply(s, e).rcv;
            && (r.isn.Some? ==> r'.isn.Some? && r.AbsAckno() <= r'.AbsAckno())
            && r.AbsAckno() + r.WindowSize() <= r'.AbsAckno() + r'.WindowSize()
            && r'.reasm.out.capacity == r.reasm.out.capacity
            && (e.EmitAck? ==> r.isn.Some?)
  {
    hide Inv, Tracks, AcksTrue, AckReceived, FillWindow, Tick, Receive;
    InvValid(s.snd);
    match e
    case DeliverData(u) => ReceiveTracks(s.rcv, u, s.snd.Sent(), s.snd.finSent, s.snd.isn);
    case Consume(len) => ConsumeEdge(s, len);
    case _ =>
  }

  /** Only an acceptable acknowledgement changes what the sender knows of the receiver. */
  lemma EdgeMoves(s: System, e: Event)
    requires SysInv(s) && Enabled(s, e)
    ensures var t, t' := s.snd, Apply(s, e).snd;
            if e.DeliverAck? && AckValid(t, e.a.abs) then t'.lastAck == e.a.abs && t'.windowSize == e.a.win
            else t'.lastAck == t.lastAck && t'.windowSize == t.windowSize
  {
    hide Inv, Tracks, InNetwork, AcksTrue, AckReceived, AckAbs, FillWindow, Tick, Receive, Appends;
    InvValid(s.snd);
    match e
    case Fill => FillInv(s.snd);
    case Elapse(ms) => TickFields(s.snd, ms);
    case DeliverAck(a) =>
      AckResolves(s.snd, a);
      AckInv(s.snd, a.abs, a.win);
      if !AckValid(s.snd, a.abs) { AckRefused(s.snd, a.abs, a.win); } else { AckWindow(s.snd, a.abs, a.win); }
    case _ =>
  }

  lemma ConsumeEdge(s: System, len: nat)
    requires SysInv(s)
    ensures var r := s.rcv.Read(len);
            && r.isn == s.rcv.isn && r.AbsAckno() == s.rcv.AbsAckno()
            && r.reasm.out.capacity == s.rcv.reasm.out.capacity
            && s.rcv.WindowSize() <= r.WindowSize()
  {
    hide Inv, InNetwork, AcksTrue;
  }

  lemma AckWindow(t: Sender, abs: nat, win: U16)
    requires Inv(t) && AckValid(t, abs)
    ensures AckAbs(t, abs, win).windowSize == win
  {
    hide Inv, Settle, FillWindow, Appends;
    InvValid(t);
    SettleInv(t, abs, win);
    SettleContext(t, abs, win);
    FillInv(Settle(t, abs, win));
  }

  predicate FlowInv(s: System)
    requires Valid(s)
  {
    && WithinEdge(s.snd)
    && (s.snd.Edge() == 0 || (s.rcv.isn.Some? && s.snd.Edge() <= s.rcv.AbsAckno() + s.rcv.WindowSize()))
  }

  lemma FlowStep(s: System, e: Event)
    requires SysInv(s) && FlowInv(s) && Enabled(s, e) && InOrder(s, e)
    ensures FlowInv(Apply(s, e))
  {
    hide Inv, Tracks, AckReceived, AckAbs, FillWindow, Tick, Receive, Appends, AbsSegment.SliceOf;
    InvValid(s.snd);
    match e
    case Fill => FillInv(s.snd); FillWithinEdge(s.snd);
    case Elapse(ms) => TickFields(s.snd, ms);
    case DeliverData(u) => ReceiveTracks(s.rcv, u, s.snd.Sent(), s.snd.finSent, s.snd.isn);
    case Consume(len) =>
      assert Tracks(s.rcv.Read(len), s.snd.Sent(), s.snd.finSent, s.snd.isn) by { ConsumeStep(s, len); }
      RightEdge(s.rcv, s.snd.Sent(), s.snd.finSent, s.snd.isn);
      RightEdge(s.rcv.Read(len), s.snd.Sent(), s.snd.finSent, s.snd.isn);
    case DeliverAck(a) =>
      AckResolves(s.snd, a);
      AckInv(s.snd, a.abs, a.win);
      if AckValid(s.snd, a.abs) {
        AckWithinEdge(s.snd, a.abs, a.win);
      } else {
        assert AckAbs(s.snd, a.abs, a.win) == s.snd by { AckRefused(s.snd, a.abs, a.win); }
      }
    case _ =>
  }

  lemma AckRefused(t: Sender, abs: nat, win: U16)
    requires t.Valid() && !AckValid(t, abs)
    ensures AckAbs(t, abs, win) == t
  {
  }

  lemma {:induction false} RunFlow(s: System, evs: seq<Event>, picks: seq<nat>, log: seq<Ack>, last: nat)
    requires SysInv(s) && FlowInv(s) && LogInv(s, log, last)
    requires Possible(s, evs) && |picks| == |evs| && EmissionOrder(s, evs, picks, log, last)
    ensures FlowInv(Run(s, evs))
    decreases |evs|
  {
    hide SysInv, FlowInv, LogInv, Apply, Enabled, InOrder, PicksOn, Logged;
    if evs != [] {
      StepInv(s, evs[0]);
      LogStep(s, evs[0], picks[0], log, last);
      FlowStep(s, evs[0]);
      RunFlow(Apply(s, evs[0]), evs[1..], picks[1..], Logged(s, evs[0], log), LastAfter(evs[0], picks[0], last));
    }
  }

  /**
   * Flow control: in every run that delivers acknowledgements in the order of their emission, the sender is
   * within the right edge it was given last, but for one number probing a closed window, and that edge is
   * one the receiver granted.
   */
  lemma FlowControl(sendCapacity: nat, recvCapacity: nat, retxTimeout: U16, isn: U32, evs: seq<Event>, picks: seq<nat>)
    requires 0 < recvCapacity < TWO16 && |picks| == |evs|
    requires var s0 := Start(sendCapacity, recvCapacity, retxTimeout, isn);
             Possible(s0, evs) && EmissionOrder(s0, evs, picks, [], 0)
    ensures var s := Run(Start(sendCapacity, recvCapacity, retxTimeout, isn), evs);
            && (s.snd.nextSeqno <= s.snd.Edge() || (s.snd.windowSize == 0 && s.snd.nextSeqno == s.snd.Edge() + 1))
            && (s.rcv.isn.Some? ==> s.snd.nextSeqno <= s.rcv.AbsAckno() + s.rcv.WindowSize() + 1)
            && s.snd.freeSpace == Low16(s.snd.Edge() - s.snd.nextSeqno)
  {
    hide EmissionOrder, Possible, Run, Inv;
    var s0 := Start(sendCapacity, recvCapacity, retxTimeout, isn);
    StartInv(sendCapacity, recvCapacity, retxTimeout, isn);
    RunInv(s0, evs);
    RunFlow(s0, evs, picks, [], 0);
    InvValid(Run(s0, evs).snd);
  }

  // ----- how much is in flight -----

  predicate Small(q: seq<AbsSegment>) {
    forall u <- q :: |u.payload| <= MAX_PAYLOAD_SIZE
  }

  lemma FillSmall(t: Sender)
    requires Inv(t) && Small(t.outstanding)
    ensures Small(FillWindow(t).outstanding)
  {
    hide Inv, FillWindow;
    InvValid(t);
    FillInv(t);
    var q, q' := t.outstanding, FillWindow(t).outstanding;
    forall i | 0 <= i < |q'| ensures |q'[i].payload| <= MAX_PAYLOAD_SIZE {
      if i < |q| { assert q'[i] == q[i]; }
    }
  }

  lemma AckSmall(t: Sender, abs: nat, win: U16)
    requires Inv(t) && Small(t.outstanding)
    ensures Small(AckAbs(t, abs, win).outstanding)
  {
    hide Inv, FillWindow, Settle;
    InvValid(t);
    if AckValid(t, abs) {
      SettleInv(t, abs, win);
      SettleSmall(t, abs, win);
      FillSmall(Settle(t, abs, win));
    }
  }

  lemma SettleSmall(t: Sender, abs: nat, win: U16)
    requires t.Valid() && Small(t.outstanding)
    ensures Small(Settle(t, abs, win).outstanding)
  {
    hide Settle, DropAcked, Low16, Total;
    SettleFields(t, abs, win);
    DropAckedIsSuffix(t.outstanding, abs);
  }

  lemma SmallStep(s: System, e: Event)
    requires SysInv(s) && Enabled(s, e) && Small(s.snd.outstanding)
    ensures Small(Apply(s, e).snd.outstanding)
  {
    hide Inv, Tracks, InNetwork, AcksTrue, AckReceived, AckAbs, FillWindow, Tick, Receive, Small;
    InvValid(s.snd);
    match e
    case Fill => FillSmall(s.snd);
    case Elapse(ms) => TickFields(s.snd, ms);
    case DeliverAck(a) => AckResolves(s.snd, a); AckSmall(s.snd, a.abs, a.win);
    case _ =>
  }

  lemma {:induction false} RunSmall(s: System, evs: seq<Event>)
    requires SysInv(s) && Possible(s, evs) && Small(s.snd.outstanding)
    ensures SysInv(Run(s, evs)) && Small(Run(s, evs).snd.outstanding)
    decreases |evs|
  {
    hide SysInv, Apply, Enabled, Small;
    if evs != [] {
      StepInv(s, evs[0]);
      SmallStep(s, evs[0]);
      RunSmall(Apply(s, evs[0]), evs[1..]);
    }
  }

  /** Under flow control no more is in flight than a window and a segment, far below what 32 bits can tell apart. */
  lemma FewInFlight(sendCapacity: nat, recvCapacity: nat, retxTimeout: U16, isn: U32, evs: seq<Event>, picks: seq<nat>)
    requires 0 < recvCapacity < TWO16 && |picks| == |evs|
    requires var s0 := Start(sendCapacity, recvCapacity, retxTimeout, isn);
             Possible(s0, evs) && EmissionOrder(s0, evs, picks, [], 0)
    ensures var t := Run(Start(sendCapacity, recvCapacity, retxTimeout, isn), evs).snd;
            t.bytesInFlight <= t.windowSize + MAX_PAYLOAD_SIZE + 2
  {
    hide EmissionOrder, Possible, Run, SysInv, Inv;
    var s0 := Start(sendCapacity, recvCapacity, retxTimeout, isn);
    StartInv(sendCapacity, recvCapacity, retxTimeout, isn);
    RunSmall(s0, evs);
    FlowControl(sendCapacity, recvCapacity, retxTimeout, isn, evs, picks);
    var s := Run(s0, evs);
    InvOf(s);
    InvTiles(s.snd);
    if s.snd.outstanding != [] { FrontLength(s.snd); }
  }

  lemma FrontLength(t: Sender)
    requires Inv(t) && Small(t.outstanding) && t.outstanding != []
    ensures t.outstanding[0].start == t.Una() && t.outstanding[0].Length() <= MAX_PAYLOAD_SIZE + 2
  {
    hide AllSlices, Low16;
    assert t.outstanding[0] in t.outstanding;
  }

  // ----- memory -----

  /** The receiver's right edge. */
  function Granted(r: Receiver): nat
    requires r.Valid()
  {
    r.AbsAckno() + r.WindowSize()
  }

  /** The segment ends by the edge, or is the one number right at it. */
  predicate Fitting(u: AbsSegment, edge: nat) {
    u.End() <= edge || (edge <= u.start && u.End() <= edge + 1)
  }

  predicate AllFitting(us: seq<AbsSegment>, edge: nat) {
    forall u <- us :: Fitting(u, edge)
  }

  predicate KeptInv(s: System)
    requires Valid(s)
  {
    && InsideEdge(s.rcv.reasm)
    && (forall u <- s.data :: Fitting(u, Granted(s.rcv)))
    && AllFitting(s.snd.queue, Granted(s.rcv))
    && AllFitting(s.snd.outstanding, Granted(s.rcv))
  }

  /** What fits an edge fits a later one. */
  lemma FittingStays(u: AbsSegment, edge: nat, edge': nat)
    requires Fitting(u, edge) && edge <= edge'
    ensures Fitting(u, edge')
  {
  }

  /** What filling the window adds fits the edge the sender was given. */
  lemma FillFits(t: Sender, edge: nat)
    requires Inv(t) && WithinEdge(t) && t.Edge() <= edge && 1 <= edge
    requires AllFitting(t.queue, edge) && AllFitting(t.outstanding, edge)
    ensures var t' := FillWindow(t); AllFitting(t'.queue, edge) && AllFitting(t'.outstanding, edge)
  {
    hide Inv, FillWindow, AbsSegment.SliceOf;
    InvValid(t);
    FillInv(t);
    FillWithinEdge(t);
    var t' := FillWindow(t);
    var added := t'.outstanding[|t.outstanding|..];
    assert t'.outstanding == t.outstanding + added && t'.queue == t.queue + added;
    forall u | u in added ensures Fitting(u, edge) {
      assert u in t'.outstanding;
      if u !in t.outstanding { AddedFits(t, u); }
    }
  }

  /** A new segment ends by the sender's edge, or is the SYN, or is a probe of one number at the edge. */
  lemma AddedFits(t: Sender, u: AbsSegment)
    requires Inv(t) && WithinEdge(t) && u in FillWindow(t).outstanding && u !in t.outstanding
    ensures u.End() <= t.Edge() || u.End() <= 1 || (u.start == t.Edge() && u.End() == u.start + 1)
  {
    hide Inv, SendData, FillLoop, AbsSegment.SliceOf;
    InvValid(t);
    FillInv(t);
    FillWithinEdge(t);
    var t' := FillWindow(t);
    OutstandingEnds(t', u);
    InvValid(t');
    if t.synSent && t.windowSize == 0 {
      ProbeAdds(t);
    }
  }

  lemma OutstandingEnds(t: Sender, u: AbsSegment)
    requires Inv(t) && u in t.outstanding
    ensures u.End() <= t.nextSeqno
  {
    hide AbsSegment.SliceOf, Tiles, Low16;
  }

  lemma ProbeAdds(t: Sender)
    requires Inv(t) && t.synSent && t.windowSize == 0
    ensures var t' := FillWindow(t);
            || t' == t
            || (&& t.freeSpace == 0 && |t'.outstanding| == |t.outstanding| + 1
                && t'.outstanding[..|t.outstanding|] == t.outstanding
                && t'.outstanding[|t.outstanding|].start == t.nextSeqno
                && t'.outstanding[|t.outstanding|].End() == t.nextSeqno + 1)
  {
    hide Inv, SendData;
    InvValid(t);
    if FillWindow(t) != t {
      SendDataInv(t, Min(1, t.stream.Size()), t.stream.Eof());
    }
  }

  /** A segment that fits leaves no byte beyond what an empty buffer could take. */
  lemma ReceiveInside(r: Receiver, u: AbsSegment, sent: seq<Byte>, finished: bool, isn: U32)
    requires Tracks(r, sent, finished, isn) && u.SliceOf(sent, finished) && Resolvable(r, u)
    requires InsideEdge(r.reasm) && Fitting(u, Granted(r))
    ensures InsideEdge(Receive(r, u.Wire(isn)).0.reasm)
  {
    hide Receive, Agrees, Push, InsideEdge;
    ReceiveResolves(r, u, isn);
    RightEdge(r, sent, finished, isn);
    AgreesBound(r.reasm, sent);
    if r.isn.Some? || u.syn {
      var started := r.(isn := Some(isn));
      var r' := Place(started, u.Wire(isn), r.Left(), u.start).0;
      if r' != started {
        PolitePush(r.reasm, u.payload, u.Index(), u.Index() + |u.payload| + 2 == r'.finAbsSeq);
      }
    }
  }

  lemma KeptReceives(s: System, u: AbsSegment)
    requires SysInv(s) && KeptInv(s) && Enabled(s, DeliverData(u))
    ensures KeptInv(Apply(s, DeliverData(u)))
  {
    hide Inv, Tracks, AcksTrue, Receive, InsideEdge, Fitting, AbsSegment.SliceOf;
    InvValid(s.snd);
    ReceiveInside(s.rcv, u, s.snd.Sent(), s.snd.finSent, s.snd.isn);
    PromisesStay(s, DeliverData(u));
    GrantsStay(s, Apply(s, DeliverData(u)));
  }

  /** A right edge that does not retract keeps everything fitting. */
  lemma GrantsStay(s: System, s': System)
    requires Valid(s) && Valid(s') && KeptInv(s) && Granted(s.rcv) <= Granted(s'.rcv)
    requires s'.snd == s.snd && s'.data == s.data && InsideEdge(s'.rcv.reasm)
    ensures KeptInv(s')
  {
    hide Granted, Fitting, InsideEdge;
    forall u | Fitting(u, Granted(s.rcv)) ensures Fitting(u, Granted(s'.rcv)) {
      FittingStays(u, Granted(s.rcv), Granted(s'.rcv));
    }
  }

  /** What an acknowledgement makes the sender do fits as well. */
  lemma AckFits(t: Sender, abs: nat, win: U16, edge: nat)
    requires Inv(t) && WithinEdge(t) && AckValid(t, abs)
    requires t.lastAck <= abs && t.Edge() <= abs + win <= edge && 1 <= edge
    requires AllFitting(t.queue, edge) && AllFitting(t.outstanding, edge)
    ensures var t' := AckAbs(t, abs, win); AllFitting(t'.queue, edge) && AllFitting(t'.outstanding, edge)
  {
    hide Inv, FillWindow, Settle, AllFitting;
    InvValid(t);
    SettleInv(t, abs, win);
    SettleContext(t, abs, win);
    SettleFits(t, abs, win, edge);
    FillFits(Settle(t, abs, win), edge);
  }

  lemma SettleFits(t: Sender, abs: nat, win: U16, edge: nat)
    requires t.Valid() && AllFitting(t.queue, edge) && AllFitting(t.outstanding, edge)
    ensures AllFitting(Settle(t, abs, win).queue, edge) && AllFitting(Settle(t, abs, win).outstanding, edge)
  {
    hide Settle, DropAcked, Fitting, Low16, Total;
    SettleFields(t, abs, win);
    DropAckedIsSuffix(t.outstanding, abs);
  }

  lemma KeptStep(s: System, e: Event)
    requires SysInv(s) && FlowInv(s) && KeptInv(s) && Enabled(s, e) && InOrder(s, e)
    ensures KeptInv(Apply(s, e))
  {
    hide Inv, Tracks, InNetwork, AckReceived, AckAbs, FillWindow, Tick, Receive, InsideEdge, Fitting;
    InvValid(s.snd);
    match e
    case Fill => FillFits(s.snd, Granted(s.rcv));
    case Elapse(ms) => TickFields(s.snd, ms);
    case DeliverData(u) => KeptReceives(s, u);
    case Consume(len) =>
      ConsumeEdge(s, len);
      assert InsideEdge(s.rcv.Read(len).reasm) by { ReadInside(s.rcv, len); }
      GrantsStay(s, Apply(s, e));
    case DeliverAck(a) =>
      AckResolves(s.snd, a);
      if AckValid(s.snd, a.abs) {
        AckFits(s.snd, a.abs, a.win, Granted(s.rcv));
      } else {
        AckRefused(s.snd, a.abs, a.win);
      }
    case _ =>
  }

  lemma ReadInside(r: Receiver, len: nat)
    requires r.Valid() && InsideEdge(r.reasm)
    ensures InsideEdge(r.Read(len).reasm)
  {
  }

  lemma {:induction false} RunKept(s: System, evs: seq<Event>, picks: seq<nat>, log: seq<Ack>, last: nat)
    requires SysInv(s) && FlowInv(s) && KeptInv(s) && LogInv(s, log, last)
    requires Possible(s, evs) && |picks| == |evs| && EmissionOrder(s, evs, picks, log, last)
    ensures KeptInv(Run(s, evs))
    decreases |evs|
  {
    hide SysInv, FlowInv, KeptInv, LogInv, Apply, Enabled, InOrder, PicksOn, Logged;
    if evs != [] {
      StepInv(s, evs[0]);
      LogStep(s, evs[0], picks[0], log, last);
      FlowStep(s, evs[0]);
      KeptStep(s, evs[0]);
      RunKept(Apply(s, evs[0]), evs[1..], picks[1..], Logged(s, evs[0], log), LastAfter(evs[0], picks[0], last));
    }
  }

  /**
   * Memory: in every run that delivers acknowledgements in the order of their emission, the bytes buffered and the
   * bytes waiting at the receiver stay within its capacity together. What is in the network ends by the
   * receiver's right edge, or is a probe of the one number at it.
   */
  lemma MemoryBounded(
      sendCapacity: nat, recvCapacity: nat, retxTimeout: U16, isn: U32, evs: seq<Event>, picks: seq<nat>)
    requires 0 < recvCapacity < TWO16 && |picks| == |evs|
    requires var s0 := Start(sendCapacity, recvCapacity, retxTimeout, isn);
             Possible(s0, evs) && EmissionOrder(s0, evs, picks, [], 0)
    ensures var s := Run(Start(sendCapacity, recvCapacity, retxTimeout, isn), evs);
            && Kept(s.rcv.reasm) <= s.rcv.reasm.out.capacity == recvCapacity
            && (forall u <- s.data :: Fitting(u, s.rcv.AbsAckno() + s.rcv.WindowSize()))
  {
    hide EmissionOrder, Possible, Run, SysInv, Fitting;
    var s0 := Start(sendCapacity, recvCapacity, retxTimeout, isn);
    StartInv(sendCapacity, recvCapacity, retxTimeout, isn);
    RunKept(s0, evs, picks, [], 0);
    RunCapacity(s0, evs);
    InsideKept(Run(s0, evs).rcv.reasm);
  }

  lemma {:induction false} RunCapacity(s: System, evs: seq<Event>)
    requires SysInv(s) && Possible(s, evs)
    ensures Run(s, evs).rcv.reasm.out.capacity == s.rcv.reasm.out.capacity
    decreases |evs|
  {
    hide SysInv, Apply, Enabled;
    if evs != [] {
      StepInv(s, evs[0]);
      PromisesStay(s, evs[0]);
      RunCapacity(Apply(s, evs[0]), evs[1..]);
    }
  }

  // ----- acknowledgements out of order -----

  /** Ten bytes, a receiver with room for four, and its last two acknowledgements delivered in the wrong order. */
  function StaleRun(data: seq<Byte>): seq<Event>
    requires |data| == 10
  {
    [Fill, Write(data), Transmit, DeliverData(SYN), EmitAck]
    + [DeliverAck(Ack(1, 4)), Transmit, DeliverData(AbsSegment(1, false, false, data[..4])), Consume(2), EmitAck]
    + [Consume(2), EmitAck, DeliverAck(Ack(5, 4)), DeliverAck(Ack(5, 2)), Transmit]
  }

  /** Where the run stands: the sender's numbers and the receiver's, with nothing queued and nothing ended. */
  predicate Standing(s: System, data: seq<Byte>, next: nat, abs: nat, nread: nat) {
    && SysInv(s)
    && s.snd.nextSeqno == next && s.snd.synSent && !s.snd.finSent
    && s.snd.stream.written == data && !s.snd.stream.ended
    && s.rcv.isn.Some? && s.rcv.AbsAckno() == abs && s.rcv.reasm.out.capacity == 4 && s.rcv.reasm.out.nread == nread
  }

  /** With no FIN sent, the window is what the reader left of the capacity. */
  lemma StandingWindow(s: System, data: seq<Byte>, next: nat, abs: nat, nread: nat)
    requires Standing(s, data, next, abs, nread)
    ensures s.rcv.WindowSize() == 5 + nread - abs
  {
    hide Inv, InNetwork, AcksTrue;
    RightEdge(s.rcv, s.snd.Sent(), s.snd.finSent, s.snd.isn);
  }

  lemma Delivered(s: System, u: AbsSegment)
    requires SysInv(s) && u in s.data && s.snd.nextSeqno == u.End() < TWO16 && 0 < u.Length()
    requires (s.rcv.isn.Some? || u.syn) && u.start <= s.rcv.Left() && u.End() <= s.rcv.Left() + s.rcv.WindowSize()
    ensures var r := Apply(s, DeliverData(u)).rcv;
            && Enabled(s, DeliverData(u))
            && r.isn.Some? && r.AbsAckno() == u.End()
            && r.reasm.out.nread == s.rcv.reasm.out.nread && r.reasm.out.capacity == s.rcv.reasm.out.capacity
  {
    hide Inv, Tracks, Receive, AcksTrue, AbsSegment.SliceOf;
    InvValid(s.snd);
    SoundMeans(s);
    AcknoCounts(s.rcv, s.snd.Sent(), s.snd.finSent, s.snd.isn);
    ReceiveTracks(s.rcv, u, s.snd.Sent(), s.snd.finSent, s.snd.isn);
    ReceiveDelivers(s.rcv, u, s.snd.Sent(), s.snd.finSent, s.snd.isn);
    StepInv(s, DeliverData(u));
    SoundMeans(Apply(s, DeliverData(u)));
  }

  /** The SYN is sent, the bytes are written, the SYN is in the network. */
  lemma StaleStart(data: seq<Byte>, retxTimeout: U16, isn: U32)
    requires |data| == 10
    ensures var s := Apply(Apply(Apply(Start(10, 4, retxTimeout, isn), Fill), Write(data)), Transmit);
            && SysInv(s) && SYN in s.data && s.rcv == FreshReceiver(4)
            && s.snd.nextSeqno == 1 && s.snd.Una() == 0 && s.snd.synSent && !s.snd.finSent
            && s.snd.stream.written == data && !s.snd.stream.ended && s.snd.stream.nread == 0 && s.snd.queue == []
            && Enabled(Apply(Start(10, 4, retxTimeout, isn), Fill), Write(data))
  {
    hide SysInv, FillWindow;
    var s0 := Start(10, 4, retxTimeout, isn);
    StartInv(10, 4, retxTimeout, isn);
    SynFirst(10, retxTimeout, isn);
    var s1 := Apply(s0, Fill);
    var s2 := Apply(s1, Write(data));
    StepInv(s0, Fill);
    StepInv(s1, Write(data));
    StepInv(s2, Transmit);
  }

  /** The SYN arrives and is answered. */
  lemma StaleSyn(s: System, data: seq<Byte>)
    requires SysInv(s) && SYN in s.data && s.rcv == FreshReceiver(4)
    requires s.snd.nextSeqno == 1 && s.snd.synSent && !s.snd.finSent
    requires s.snd.stream.written == data && !s.snd.stream.ended
    ensures var s4 := Apply(s, DeliverData(SYN));
            var s5 := Apply(s4, EmitAck);
            && Enabled(s, DeliverData(SYN)) && Enabled(s4, EmitAck)
            && Standing(s5, data, 1, 1, 0) && s5.snd == s.snd && Ack(1, 4) in s5.acks
  {
    hide SysInv, Receive;
    var s4 := Apply(s, DeliverData(SYN));
    Delivered(s, SYN);
    StepInv(s, DeliverData(SYN));
    StepInv(s4, EmitAck);
    assert Standing(s4, data, 1, 1, 0);
    StandingWindow(s4, data, 1, 1, 0);
  }

  lemma StaleOpening(data: seq<Byte>, retxTimeout: U16, isn: U32)
    requires |data| == 10
    ensures var s0 := Start(10, 4, retxTimeout, isn);
            var evs := [Fill, Write(data), Transmit, DeliverData(SYN), EmitAck];
            var s := Run(s0, evs);
            && Possible(s0, evs) && Standing(s, data, 1, 1, 0) && Ack(1, 4) in s.acks
            && s.snd.Una() == 0 && s.snd.stream.nread == 0 && s.snd.queue == []
  {
    hide SysInv, Apply, Run, Possible, Standing, Start;
    var s0 := Start(10, 4, retxTimeout, isn);
    RunFive(s0, Fill, Write(data), Transmit, DeliverData(SYN), EmitAck);
    StaleStart(data, retxTimeout, isn);
    StaleSyn(Apply(Apply(Apply(s0, Fill), Write(data)), Transmit), data);
  }

  /** Two bytes are read, and the receiver says so. */
  lemma ReadAndAck(s: System, data: seq<Byte>, abs: nat, nread: nat)
    requires Standing(s, data, 5, abs, nread) && nread + 3 <= abs <= 5 + nread
    ensures var s1 := Apply(s, Consume(2));
            var s2 := Apply(s1, EmitAck);
            && Enabled(s, Consume(2)) && Enabled(s1, EmitAck)
            && Standing(s2, data, 5, abs, nread + 2) && s2.snd == s.snd
            && s2.acks == s.acks + {Ack(abs, 7 + nread - abs)}
  {
    hide SysInv;
    var s1 := Apply(s, Consume(2));
    StepInv(s, Consume(2));
    StepInv(s1, EmitAck);
    ConsumeEdge(s, 2);
    StandingWindow(s, data, 5, abs, nread);
    assert Standing(s1, data, 5, abs, nread + 2);
    StandingWindow(s1, data, 5, abs, nread + 2);
  }

  /** The SYN is acknowledged, and four bytes arrive. */
  lemma StaleData(s: System, data: seq<Byte>)
    requires |data| == 10 && Standing(s, data, 1, 1, 0) && Ack(1, 4) in s.acks
    requires s.snd.Una() == 0 && s.snd.stream.nread == 0 && s.snd.queue == []
    ensures var u := AbsSegment(1, false, false, data[..4]);
            var s1 := Apply(s, DeliverAck(Ack(1, 4)));
            var s2 := Apply(s1, Transmit);
            && Enabled(s, DeliverAck(Ack(1, 4))) && Enabled(s2, DeliverData(u))
            && Standing(Apply(s2, DeliverData(u)), data, 5, 5, 0)
  {
    hide SysInv, AckReceived, AckAbs, Receive, Inv;
    var u := AbsSegment(1, false, false, data[..4]);
    var a := Ack(1, 4);
    InvOf(s);
    InvValid(s.snd);
    AckResolves(s.snd, a);
    OneSegment(s.snd);
    AckInv(s.snd, 1, 4);
    assert s.snd.stream.Buffered()[..4] == data[..4];
    var s1 := Apply(s, DeliverAck(a));
    var s2 := Apply(s1, Transmit);
    StepInv(s, DeliverAck(a));
    StepInv(s1, Transmit);
    assert u in s2.data;
    StandingWindow(s, data, 1, 1, 0);
    Delivered(s2, u);
    StepInv(s2, DeliverData(u));
  }

  lemma StaleMiddle(s: System, data: seq<Byte>)
    requires |data| == 10 && Standing(s, data, 1, 1, 0) && Ack(1, 4) in s.acks
    requires s.snd.Una() == 0 && s.snd.stream.nread == 0 && s.snd.queue == []
    ensures var u := AbsSegment(1, false, false, data[..4]);
            var evs := [DeliverAck(Ack(1, 4)), Transmit, DeliverData(u), Consume(2), EmitAck];
            var s' := Run(s, evs);
            Possible(s, evs) && Standing(s', data, 5, 5, 2) && Ack(5, 2) in s'.acks
  {
    hide SysInv, Apply, Run, Possible, Standing;
    var u := AbsSegment(1, false, false, data[..4]);
    var a := Ack(1, 4);
    StandingValid(s, data, 1, 1, 0);
    RunFive(s, DeliverAck(a), Transmit, DeliverData(u), Consume(2), EmitAck);
    StaleData(s, data);
    ReadAndAck(Apply(Apply(Apply(s, DeliverAck(a)), Transmit), DeliverData(u)), data, 5, 0);
  }

  lemma StandingValid(s: System, data: seq<Byte>, next: nat, abs: nat, nread: nat)
    requires Standing(s, data, next, abs, nread)
    ensures Valid(s)
  {
    hide Inv, Tracks, InNetwork, AcksTrue;
  }

  lemma StaleEnding(s: System, data: seq<Byte>)
    requires |data| == 10 && Standing(s, data, 5, 5, 2) && Ack(5, 2) in s.acks
    ensures var evs := [Consume(2), EmitAck, DeliverAck(Ack(5, 4)), DeliverAck(Ack(5, 2)), Transmit];
            var s' := Run(s, evs);
            && Possible(s, evs)
            && s'.snd.Edge() == 7 && s'.snd.windowSize == 2
            && s'.rcv.AbsAckno() + s'.rcv.WindowSize() == 9 < s'.snd.nextSeqno
  {
    hide SysInv, Apply, Run, Possible, Standing;
    var a, b := Ack(5, 4), Ack(5, 2);
    StandingValid(s, data, 5, 5, 2);
    RunFive(s, Consume(2), EmitAck, DeliverAck(a), DeliverAck(b), Transmit);
    ReadAndAck(s, data, 5, 2);
    var s2 := Apply(Apply(s, Consume(2)), EmitAck);
    StaleTwice(s2, data);
    TransmitKeeps(Apply(Apply(s2, DeliverAck(a)), DeliverAck(b)));
  }

  lemma TransmitKeeps(s: System)
    requires Valid(s)
    ensures var s' := Apply(s, Transmit);
            && Enabled(s, Transmit) && s'.rcv == s.rcv && s'.snd == s.snd.(queue := [])
  {
  }

  /** The newer acknowledgement, and then the older. */
  lemma StaleTwice(s: System, data: seq<Byte>)
    requires |data| == 10 && Standing(s, data, 5, 5, 4) && Ack(5, 2) in s.acks && Ack(5, 4) in s.acks
    ensures var s3 := Apply(s, DeliverAck(Ack(5, 4)));
            var s4 := Apply(s3, DeliverAck(Ack(5, 2)));
            && Enabled(s, DeliverAck(Ack(5, 4))) && Enabled(s3, DeliverAck(Ack(5, 2)))
            && s4.snd.Edge() == 7 && s4.snd.windowSize == 2
            && s4.rcv.AbsAckno() + s4.rcv.WindowSize() == 9 < s4.snd.nextSeqno
  {
    hide SysInv, AckReceived, AckAbs, Inv;
    var a, b := Ack(5, 4), Ack(5, 2);
    var s3 := Apply(s, DeliverAck(a));
    StandingWindow(s, data, 5, 5, 4);
    InvOf(s);
    InvValid(s.snd);
    FrontSyn(s.snd);
    SoundMeans(s);
    AckResolves(s.snd, a);
    AckInv(s.snd, 5, 4);
    AckFills(s.snd, 5, 4);
    StepInv(s, DeliverAck(a));
    InvOf(s3);
    InvValid(s3.snd);
    FrontSyn(s3.snd);
    SoundMeans(s3);
    AckResolves(s3.snd, b);
    AckInv(s3.snd, 5, 2);
    AckWindow(s3.snd, 5, 2);
    StaleSends(s3.snd);
  }

  lemma StaleSends(t: Sender)
    requires Inv(t) && AckValid(t, 5) && t.nextSeqno == 9 && !t.finSent && |t.stream.written| == 10
    ensures 9 < AckAbs(t, 5, 2).nextSeqno
  {
    hide Inv, AckAbs;
    InvValid(t);
    OverrunsExactly(t, 5, 2);
  }

  /**
   * Out of order, flow control fails: the receiver emits "5, window 2" and then, two bytes read, "5, window 4".
   * Delivered the other way round, they make the sender send past both edges, and past anything the receiver has
   * room for, with the window open.
   */
  lemma StaleAckOverruns(data: seq<Byte>, retxTimeout: U16, isn: U32)
    requires |data| == 10
    ensures var s0 := Start(10, 4, retxTimeout, isn);
            var s := Run(s0, StaleRun(data));
            && Possible(s0, StaleRun(data))
            && s.snd.windowSize != 0 && s.snd.Edge() < s.rcv.AbsAckno() + s.rcv.WindowSize() < s.snd.nextSeqno
  {
    hide Standing, Run, Possible;
    var s0 := Start(10, 4, retxTimeout, isn);
    var p := [Fill, Write(data), Transmit, DeliverData(SYN), EmitAck];
    var u := AbsSegment(1, false, false, data[..4]);
    var q := [DeliverAck(Ack(1, 4)), Transmit, DeliverData(u), Consume(2), EmitAck];
    var r := [Consume(2), EmitAck, DeliverAck(Ack(5, 4)), DeliverAck(Ack(5, 2)), Transmit];
    StaleOpening(data, retxTimeout, isn);
    StaleMiddle(Run(s0, p), data);
    StaleEnding(Run(Run(s0, p), q), data);
    RunConcat(s0, p, q);
    RunConcat(s0, p + q, r);
  }

  lemma {:induction false} RunConcat(s: System, a: seq<Event>, b: seq<Event>)
    requires Valid(s)
    ensures Run(s, a + b) == Run(Run(s, a), b)
    ensures Possible(s, a + b) <==> Possible(s, a) && Possible(Run(s, a), b)
    decreases |a|
  {
    hide Apply, Enabled;
    if a == [] {
      assert a + b == b;
    } else {
      assert (a + b)[1..] == a[1..] + b;
      RunConcat(Apply(s, a[0]), a[1..], b);
    }
  }

  // ----- progress -----

  /** The receiver's window covers the part of the oldest outstanding segment it has not yet seen. */
  predicate Covered(s: System)
    requires Valid(s)
  {
    && s.snd.outstanding != []
    && s.snd.outstanding[0].End() <= s.rcv.Left() + s.rcv.WindowSize()
  }

  /** One retransmission round: the timer goes off, the oldest segment arrives, its acknowledgement comes back. */
  function Round(s: System, ms: nat): seq<Event>
    requires Valid(s) && s.snd.outstanding != []
  {
    var u := s.snd.outstanding[0];
    var rcv := Receive(s.rcv, u.Wire(s.snd.isn)).0;
    [Elapse(ms), Transmit, DeliverData(u), EmitAck, DeliverAck(AckOf(rcv))]
  }

  lemma RunCons(s: System, e: Event, rest: seq<Event>)
    requires Valid(s)
    ensures Run(s, [e] + rest) == Run(Apply(s, e), rest)
    ensures Possible(s, [e] + rest) <==> Enabled(s, e) && Possible(Apply(s, e), rest)
  {
    hide Apply, Enabled;
    assert ([e] + rest)[1..] == rest;
  }

  lemma RunNone(s: System)
    requires Valid(s)
    ensures Run(s, []) == s && Possible(s, [])
  {
  }

  lemma RunFive(s: System, a: Event, b: Event, c: Event, d: Event, e: Event)
    requires Valid(s)
    ensures var s4 := Apply(Apply(Apply(Apply(s, a), b), c), d);
            && Run(s, [a, b, c, d, e]) == Apply(s4, e)
            && (Possible(s, [a, b, c, d, e]) <==>
                  && Enabled(s, a) && Enabled(Apply(s, a), b) && Enabled(Apply(Apply(s, a), b), c)
                  && Enabled(Apply(Apply(Apply(s, a), b), c), d) && Enabled(s4, e))
  {
    hide Apply, Enabled, Run, Possible;
    var s2 := Apply(Apply(s, a), b);
    RunTwo(s, a, b);
    RunTwo(s2, c, d);
    RunOne(Apply(Apply(s2, c), d), e);
    RunConcat(s2, [c, d], [e]);
    RunConcat(s, [a, b], [c, d] + [e]);
    FiveEvents(a, b, c, d, e);
  }

  lemma FiveEvents(a: Event, b: Event, c: Event, d: Event, e: Event)
    ensures [a, b, c, d, e] == [a, b] + ([c, d] + [e])
  {
  }

  lemma RunOne(s: System, a: Event)
    requires Valid(s)
    ensures Run(s, [a]) == Apply(s, a)
    ensures Possible(s, [a]) <==> Enabled(s, a)
  {
    hide Apply, Enabled, Run, Possible;
    assert [a] == [a] + [];
    RunCons(s, a, []);
    RunNone(Apply(s, a));
  }

  lemma RunTwo(s: System, a: Event, b: Event)
    requires Valid(s)
    ensures Run(s, [a, b]) == Apply(Apply(s, a), b)
    ensures Possible(s, [a, b]) <==> Enabled(s, a) && Enabled(Apply(s, a), b)
  {
    hide Apply, Enabled, Run, Possible;
    assert [a, b] == [a] + [b];
    RunCons(s, a, [b]);
    RunOne(Apply(s, a), b);
  }

  /** The delivered segment is assembled whole. */
  lemma FrontArrives(s: System)
    requires SysInv(s) && Covered(s) && Resolvable(s.rcv, s.snd.outstanding[0])
    ensures var r := Receive(s.rcv, s.snd.outstanding[0].Wire(s.snd.isn)).0;
            && r.isn.Some?
            && s.snd.outstanding[0].End() <= r.AbsAckno()
  {
    hide Receive, Tracks, InNetwork, AcksTrue, AbsSegment.SliceOf;
    var u := s.snd.outstanding[0];
    assert u in s.snd.outstanding;
    FrontSyn(s.snd);
    assert u.start == s.snd.Una() && 0 < u.Length();
    ReceiveDelivers(s.rcv, u, s.snd.Sent(), s.snd.finSent, s.snd.isn);
  }

  /** The acknowledgement that comes back takes the sender past the segment. */
  lemma RoundAcks(s: System, t: Sender, abs: nat, win: U16)
    requires SysInv(s) && Covered(s) && Inv(t) && t.outstanding == s.snd.outstanding
    requires t.Una() == s.snd.Una() && s.snd.outstanding[0].End() <= abs <= t.nextSeqno
    ensures s.snd.outstanding[0].End() <= AckAbs(t, abs, win).Una()
    ensures s.snd.Una() < s.snd.outstanding[0].End()
  {
    hide AckAbs, Tracks, InNetwork, AcksTrue, AbsSegment.SliceOf;
    AckPops(t, abs, win);
  }

  /** After such a round the oldest unacknowledged number is past that segment. */
  lemma RoundAdvances(s: System, ms: nat)
    requires SysInv(s) && Covered(s) && Expires(s.snd, ms) && Possible(s, Round(s, ms))
    ensures SysInv(Run(s, Round(s, ms)))
    ensures s.snd.outstanding[0].End() <= Run(s, Round(s, ms)).snd.Una()
    ensures s.snd.Una() < s.snd.outstanding[0].End()
  {
    hide SysInv, Receive, AckReceived, AckAbs, Tick, Inv, Resolvable;
    var evs := Round(s, ms);
    RunFive(s, evs[0], evs[1], evs[2], evs[3], evs[4]);
    var s1 := Apply(s, evs[0]);
    var s2 := Apply(s1, evs[1]);
    var s3 := Apply(s2, evs[2]);
    var s4 := Apply(s3, evs[3]);
    StepInv(s, evs[0]);
    StepInv(s1, evs[1]);
    StepInv(s2, evs[2]);
    StepInv(s3, evs[3]);
    StepInv(s4, evs[4]);
    TickFields(s.snd, ms);
    FrontArrives(s);
    SoundMeans(s4);
    InvOf(s4);
    RoundAcks(s, s4.snd, evs[4].a.abs, evs[4].a.win);
    AckResolves(s4.snd, evs[4].a);
  }

  lemma InvOf(s: System)
    requires SysInv(s)
    ensures Inv(s.snd)
  {
  }

  /** A run made of single events and of whole rounds. */
  datatype Move = Single(e: Event) | Whole(ms: nat)

  predicate CanMove(s: System, m: Move)
    requires Valid(s)
  {
    match m
    case Single(e) => Enabled(s, e)
    case Whole(ms) => Covered(s) && Expires(s.snd, ms) && Possible(s, Round(s, ms))
  }

  function DoMove(s: System, m: Move): (s': System)
    requires Valid(s) && CanMove(s, m)
    ensures Valid(s')
  {
    match m
    case Single(e) => Apply(s, e)
    case Whole(ms) => Run(s, Round(s, ms))
  }

  predicate CanPlay(s: System, ms: seq<Move>)
    requires Valid(s)
    decreases |ms|
  {
    ms == [] || (CanMove(s, ms[0]) && CanPlay(DoMove(s, ms[0]), ms[1..]))
  }

  function Play(s: System, ms: seq<Move>): (s': System)
    requires Valid(s) && CanPlay(s, ms)
    ensures Valid(s')
    decreases |ms|
  {
    if ms == [] then s else Play(DoMove(s, ms[0]), ms[1..])
  }

  function Rounds(ms: seq<Move>): nat {
    if ms == [] then 0 else (if ms[0].Whole? then 1 else 0) + Rounds(ms[1..])
  }

  /** The oldest unacknowledged number never moves back. */
  lemma UnaStep(s: System, e: Event)
    requires SysInv(s) && Enabled(s, e)
    ensures s.snd.Una() <= Apply(s, e).snd.Una()
  {
    hide Inv, Tracks, AckReceived, AckAbs, FillWindow, Tick, Receive, Appends, AbsSegment.SliceOf;
    InvValid(s.snd);
    match e
    case Fill => FillInv(s.snd);
    case Elapse(ms) => TickFields(s.snd, ms);
    case DeliverAck(a) => AckResolves(s.snd, a); AckInv(s.snd, a.abs, a.win);
    case _ =>
  }

  lemma MoveAdvances(s: System, m: Move)
    requires SysInv(s) && CanMove(s, m)
    ensures SysInv(DoMove(s, m))
    ensures s.snd.Una() + (if m.Whole? then 1 else 0) <= DoMove(s, m).snd.Una()
  {
    hide SysInv, Apply, Run, Round, Enabled, Covered, Expires;
    match m
    case Single(e) => StepInv(s, e); UnaStep(s, e);
    case Whole(ms) => RoundAdvances(s, ms);
  }

  /** Each round, however many other events happen in between, acknowledges at least one more number. */
  lemma {:induction false} RoundsAdvance(s: System, ms: seq<Move>)
    requires SysInv(s) && CanPlay(s, ms)
    ensures SysInv(Play(s, ms))
    ensures s.snd.Una() + Rounds(ms) <= Play(s, ms).snd.Una()
    decreases |ms|
  {
    hide SysInv, DoMove, CanMove;
    if ms != [] {
      MoveAdvances(s, ms[0]);
      RoundsAdvance(DoMove(s, ms[0]), ms[1..]);
    }
  }

  /**
   * Progress: a stream of n bytes takes at most n + 2 rounds; after that many, SYN, bytes and FIN are all
   * acknowledged, nothing is in flight, and the receiver has written the whole stream and ended it.
   */
  lemma Progress(sendCapacity: nat, recvCapacity: nat, retxTimeout: U16, isn: U32, ms: seq<Move>)
    requires 0 < recvCapacity && CanPlay(Start(sendCapacity, recvCapacity, retxTimeout, isn), ms)
    ensures var s := Play(Start(sendCapacity, recvCapacity, retxTimeout, isn), ms);
            var n := |s.snd.stream.written|;
            && Rounds(ms) <= n + 2
            && (Rounds(ms) == n + 2 ==>
                  && s.snd.finSent && s.snd.Una() == s.snd.nextSeqno == n + 2 && s.snd.outstanding == []
                  && s.rcv.reasm.out.ended && s.rcv.reasm.out.written == s.snd.stream.written)
  {
    var s0 := Start(sendCapacity, recvCapacity, retxTimeout, isn);
    StartInv(sendCapacity, recvCapacity, retxTimeout, isn);
    RoundsAdvance(s0, ms);
    AllAcked(Play(s0, ms));
  }

  /** An oldest number of n + 2 means the whole stream was delivered. */
  lemma AllAcked(s: System)
    requires SysInv(s)
    ensures var n := |s.snd.stream.written|;
            && s.snd.Una() <= n + 2
            && (s.snd.Una() == n + 2 ==>
                  && s.snd.finSent && s.snd.nextSeqno == n + 2 && s.snd.outstanding == []
                  && s.rcv.reasm.out.ended && s.rcv.reasm.out.written == s.snd.stream.written)
  {
    hide InNetwork, AcksTrue, AllSlices, Agrees;
    TilesTotal(s.snd.outstanding, s.snd.Una(), s.snd.nextSeqno);
    AcknoCounts(s.rcv, s.snd.Sent(), s.snd.finSent, s.snd.isn);
    SoundMeans(s);
  }

  /** Until an ended stream is fully acknowledged, filling the window leaves a segment to retransmit. */
  lemma RoundAvailable(s: System)
    requires SysInv(s) && s.snd.stream.ended
    ensures var s' := Apply(s, Fill);
            s'.snd.Una() == |s.snd.stream.written| + 2 || s'.snd.outstanding != []
  {
    hide Inv, FillWindow, Tracks, InNetwork, AcksTrue, Appends;
    FillStep(s);
    FillInv(s.snd);
    FillQuiet(s.snd);
    InvTiles(FillWindow(s.snd));
    InvValid(s.snd);
    TilesTotal(FillWindow(s.snd).outstanding, FillWindow(s.snd).Una(), FillWindow(s.snd).nextSeqno);
  }

  // ----- completion is always within reach -----

  /** How many acknowledgements and how many numbers to assemble are still missing, together. */
  function Missing(s: System): int {
    2 * (|s.snd.stream.written| + 2) - s.snd.Una() - s.rcv.Left()
  }

  /** An ended stream, short enough for 32 bits. */
  predicate Ending(s: System)
    ensures Ending(s) ==> Valid(s)
  {
    SysInv(s) && s.snd.stream.ended && |s.snd.stream.written| + 2 < TWO31
  }

  /** What is left of the timeout. */
  function WaitFor(t: Sender): (ms: nat)
    ensures ms <= t.rto
  {
    if t.elapsed < t.rto then t.rto - t.elapsed else 0
  }

  /** Fill the window, read everything, and retransmit the oldest segment with an answer. */
  function Attempt(s: System): (evs: seq<Event>)
    requires Valid(s) && Apply(s, Fill).snd.outstanding != []
  {
    var f := Apply(s, Fill);
    var r := f.rcv.Read(f.rcv.reasm.out.Size());
    var u := f.snd.outstanding[0];
    [Fill, Consume(f.rcv.reasm.out.Size())]
    + [Elapse(WaitFor(f.snd)), Transmit, DeliverData(u), EmitAck, DeliverAck(AckOf(Receive(r, u.Wire(f.snd.isn)).0))]
  }

  /** The first two events leave an outstanding segment and an open window. */
  lemma Prepared(s: System)
    requires Ending(s) && s.snd.Una() < |s.snd.stream.written| + 2
    ensures var f := Apply(s, Fill);
            var g := Apply(f, Consume(f.rcv.reasm.out.Size()));
            && Ending(f) && f.snd.outstanding != [] && f.rcv == s.rcv
            && Ending(g) && g.snd == f.snd && 0 < g.rcv.WindowSize() && g.rcv.Left() == s.rcv.Left()
            && g.snd.Una() == s.snd.Una() && g.snd.stream.written == s.snd.stream.written
  {
    hide Inv, FillWindow, Tracks, InNetwork, AcksTrue, Appends;
    var f := Apply(s, Fill);
    RoundAvailable(s);
    FillStep(s);
    FillInv(s.snd);
    ConsumeStep(f, f.rcv.reasm.out.Size());
    ConsumeEdge(f, f.rcv.reasm.out.Size());
  }

  /** The oldest segment, delivered to an open window, moves the receiver on unless it had it all. */
  lemma FrontMoves(s: System)
    requires Ending(s) && s.snd.outstanding != [] && 0 < s.rcv.WindowSize()
    ensures var u := s.snd.outstanding[0];
            var r := Receive(s.rcv, u.Wire(s.snd.isn)).0;
            && Resolvable(s.rcv, u)
            && r.isn.Some? && s.rcv.Left() <= r.Left() && (u.End() <= s.rcv.Left() || s.rcv.Left() < r.Left())
            && s.snd.Una() == u.start < u.End()
  {
    hide Receive, Tracks, InNetwork, AcksTrue, AbsSegment.SliceOf;
    var u := s.snd.outstanding[0];
    assert u in s.snd.outstanding;
    FrontSyn(s.snd);
    SoundMeans(s);
    AcknoCounts(s.rcv, s.snd.Sent(), s.snd.finSent, s.snd.isn);
    ReceiveTracks(s.rcv, u, s.snd.Sent(), s.snd.finSent, s.snd.isn);
    if s.rcv.Left() < u.End() {
      ReceiveProgress(s.rcv, u, s.snd.Sent(), s.snd.finSent, s.snd.isn);
    }
  }

  /** The timer goes off and the segment arrives again. */
  lemma Resent(s: System)
    requires Ending(s) && s.snd.outstanding != [] && 0 < s.rcv.WindowSize()
    ensures var u := s.snd.outstanding[0];
            var s1 := Apply(s, Elapse(WaitFor(s.snd)));
            var s2 := Apply(s1, Transmit);
            var s3 := Apply(s2, DeliverData(u));
            && Enabled(s2, DeliverData(u)) && Ending(s3) && s3.rcv == Receive(s.rcv, u.Wire(s.snd.isn)).0
            && s3.snd.Una() == s.snd.Una() && s3.snd.outstanding == s.snd.outstanding && s3.snd.stream == s.snd.stream
  {
    hide SysInv, Receive, Tick, Resolvable;
    var u := s.snd.outstanding[0];
    var ms := WaitFor(s.snd);
    var s1 := Apply(s, Elapse(ms));
    var s2 := Apply(s1, Transmit);
    FrontMoves(s);
    TimerRuns(s);
    TickFields(s.snd, ms);
    StepInv(s, Elapse(ms));
    StepInv(s1, Transmit);
    assert u in s2.data;
    StepInv(s2, DeliverData(u));
  }

  /** The last five events: the segment goes out again, and the answer comes back. */
  lemma Answered(s: System)
    requires Ending(s) && s.snd.outstanding != [] && 0 < s.rcv.WindowSize()
    ensures var u := s.snd.outstanding[0];
            var a := AckOf(Receive(s.rcv, u.Wire(s.snd.isn)).0);
            var evs := [Elapse(WaitFor(s.snd)), Transmit, DeliverData(u), EmitAck, DeliverAck(a)];
            var s' := Run(s, evs);
            && Possible(s, evs) && Ending(s') && Missing(s') < Missing(s)
            && s'.snd.stream.written == s.snd.stream.written
  {
    hide Receive, Run, Possible, Apply, Enabled, SysInv, AckOf;
    var u := s.snd.outstanding[0];
    var a := AckOf(Receive(s.rcv, u.Wire(s.snd.isn)).0);
    var ms := WaitFor(s.snd);
    RunFive(s, Elapse(ms), Transmit, DeliverData(u), EmitAck, DeliverAck(a));
    Resent(s);
    FrontMoves(s);
    assert Enabled(s, Elapse(ms)) && Enabled(Apply(s, Elapse(ms)), Transmit) by { AlwaysEnabled(s, ms); }
    Replied(Apply(Apply(Apply(s, Elapse(ms)), Transmit), DeliverData(u)));
  }

  lemma AlwaysEnabled(s: System, ms: nat)
    requires Valid(s)
    ensures Enabled(s, Elapse(ms)) && Enabled(Apply(s, Elapse(ms)), Transmit)
  {
    hide Tick;
  }

  /** The receiver's answer is emitted and delivered. */
  lemma Replied(s: System)
    requires Ending(s) && s.snd.outstanding != [] && s.rcv.isn.Some?
    ensures var a := AckOf(s.rcv);
            var s4 := Apply(s, EmitAck);
            var s' := Apply(s4, DeliverAck(a));
            && Enabled(s, EmitAck) && Enabled(s4, DeliverAck(a)) && Ending(s') && s'.rcv == s.rcv
            && s'.snd.stream.written == s.snd.stream.written && s.snd.Una() <= s'.snd.Una()
            && (s.snd.outstanding[0].End() <= s.rcv.Left() ==> s.snd.outstanding[0].End() <= s'.snd.Una())
  {
    hide SysInv, AckReceived;
    var a := AckOf(s.rcv);
    var s4 := Apply(s, EmitAck);
    StepInv(s, EmitAck);
    ShortStreamsResolve(s4);
    assert a in s4.acks;
    StepInv(s4, DeliverAck(a));
    AnswerCounts(s4, s.snd.outstanding[0], a);
  }

  lemma TimerRuns(s: System)
    requires SysInv(s) && s.snd.outstanding != []
    ensures Expires(s.snd, WaitFor(s.snd))
  {
    hide Tracks, InNetwork, AcksTrue, Tiles, AllSlices;
    assert s.snd.rto <= s.snd.elapsed + WaitFor(s.snd) < TWO32;
  }

  /** The receiver's own acknowledgement takes the sender past the front segment if the receiver has it. */
  lemma AnswerCounts(s: System, u: AbsSegment, a: Ack)
    requires SysInv(s) && s.snd.outstanding != [] && u == s.snd.outstanding[0] && s.rcv.isn.Some? && a == AckOf(s.rcv)
    requires Enabled(s, DeliverAck(a))
    ensures var t := Apply(s, DeliverAck(a)).snd;
            && s.snd.Una() <= t.Una() && (u.End() <= s.rcv.Left() ==> u.End() <= t.Una())
            && t.stream.written == s.snd.stream.written && t.stream.ended == s.snd.stream.ended
  {
    hide AckReceived, AckAbs, Inv, Tracks, InNetwork, AcksTrue;
    SoundMeans(s);
    AckResolves(s.snd, a);
    AckInv(s.snd, a.abs, a.win);
    if u.End() <= s.rcv.Left() {
      AckPops(s.snd, a.abs, a.win);
    }
  }

  /** Every attempt gets something through. */
  lemma AttemptAdvances(s: System)
    requires Ending(s) && s.snd.Una() < |s.snd.stream.written| + 2
    ensures Apply(s, Fill).snd.outstanding != []
    ensures var s' := Run(s, Attempt(s));
            && Possible(s, Attempt(s)) && Ending(s') && Missing(s') < Missing(s)
            && s'.snd.stream.written == s.snd.stream.written
  {
    hide Ending, Run, Possible, Apply, Receive;
    Prepared(s);
    var f := Apply(s, Fill);
    var len := f.rcv.reasm.out.Size();
    var g := Apply(f, Consume(len));
    Answered(g);
    RunTwo(s, Fill, Consume(len));
    assert g.rcv == f.rcv.Read(len) by { ConsumeIs(f, len); }
    RunConcat(s, [Fill, Consume(len)], Attempt(s)[2..]);
    assert Attempt(s) == [Fill, Consume(len)] + Attempt(s)[2..];
  }

  lemma ConsumeIs(s: System, len: nat)
    requires Valid(s)
    ensures Apply(s, Consume(len)).rcv == s.rcv.Read(len)
  {
  }

  /** From any state of an ended stream, attempts upon attempts get everything acknowledged. */
  lemma {:induction false} Completes(s: System) returns (evs: seq<Event>)
    requires Ending(s)
    ensures Possible(s, evs) && Ending(Run(s, evs))
    ensures Run(s, evs).snd.stream.written == s.snd.stream.written
    ensures Run(s, evs).snd.Una() == |s.snd.stream.written| + 2
    decreases Missing(s)
  {
    hide Ending, Run, Possible, Attempt;
    EndingBound(s);
    if s.snd.Una() == |s.snd.stream.written| + 2 {
      RunNone(s);
      return [];
    }
    AttemptAdvances(s);
    var s' := Run(s, Attempt(s));
    EndingBound(s');
    var rest := Completes(s');
    RunConcat(s, Attempt(s), rest);
    return Attempt(s) + rest;
  }

  lemma EndingBound(s: System)
    requires Ending(s)
    ensures s.snd.Una() <= |s.snd.stream.written| + 2 && 0 <= Missing(s)
  {
    hide Inv, Tracks, InNetwork, AcksTrue;
    AllAcked(s);
    SoundMeans(s);
    InvValid(s.snd);
  }

  /**
   * No dead end: from every sound state of an ended stream short enough for 32 bits, some run delivers and
   * acknowledges all of it, whatever was lost, however small the receiver's buffer, and even past an overrun.
   */
  lemma CompletionReachable(s: System)
    requires SysInv(s) && s.snd.stream.ended && |s.snd.stream.written| + 2 < TWO31
    ensures exists evs ::
              && Possible(s, evs)
              && var s' := Run(s, evs);
              && s'.snd.Una() == |s.snd.stream.written| + 2 && s'.snd.outstanding == []
              && s'.rcv.reasm.out.ended && s'.rcv.reasm.out.written == s.snd.stream.written
  {
    hide SysInv, Run, Possible;
    var evs := Completes(s);
    AllAcked(Run(s, evs));
  }
}
