/** A complete TCP endpoint: what each call does to it, and what holds in every run. */
module Connections {
  import opened Basics
  import opened WrappingIntegers
  import Reassembly
  import opened Segments
  import opened Receivers
  import opened Senders

  const MAX_RETX_ATTEMPTS := 8

  datatype Conn = Conn(
    rtTimeout: U16, snd: Sender, rcv: Receiver, out: seq<Segment>,
    linger: bool, sinceSegment: nat, active: bool)
  {
    /** While the connection is active, it has not yet retransmitted too often. */
    predicate Valid() {
      && snd.Valid() && rcv.Valid()
      && (active ==> snd.retx <= MAX_RETX_ATTEMPTS)
    }
  }

  function NewConn(sendCapacity: nat, recvCapacity: nat, rtTimeout: U16, isn: U32): (c: Conn)
    requires 0 < recvCapacity
    ensures c.Valid()
  {
    Conn(rtTimeout, FreshSender(sendCapacity, rtTimeout, isn), FreshReceiver(recvCapacity), [], true, 0, true)
  }

  /** A segment of the sender with the receiver's fields filled in, once the peer's SYN is known. */
  function Stamp(c: Conn, u: AbsSegment): Segment
    requires c.rcv.Valid()
  {
    var seg := u.Wire(c.snd.isn);
    if c.rcv.isn.None? then seg else
    seg.(header := seg.header.(ack := true, ackno := c.rcv.Ackno().value, win := Low16(c.rcv.WindowSize())))
  }

  function StampAll(c: Conn, q: seq<AbsSegment>): (r: seq<Segment>)
    requires c.rcv.Valid()
    ensures |r| == |q| && forall i :: 0 <= i < |q| ==> r[i] == Stamp(c, q[i])
  {
    if q == [] then [] else [Stamp(c, q[0])] + StampAll(c, q[1..])
  }

  lemma StampSame(c: Conn, d: Conn, u: AbsSegment)
    requires c.rcv.Valid() && d.rcv == c.rcv && d.snd.isn == c.snd.isn
    ensures Stamp(d, u) == Stamp(c, u)
  {
  }

  lemma StampFront(c: Conn, q: seq<AbsSegment>)
    requires c.rcv.Valid()
    ensures q == [] ==> StampAll(c, q) == []
    ensures q != [] ==> StampAll(c, q) == [Stamp(c, q[0])] + StampAll(c, q[1..])
  {
  }

  /** `clean_shutdown`. */
  function Clean(c: Conn): (c': Conn)
    requires c.Valid()
    ensures c'.Valid()
  {
    if !c.rcv.reasm.out.ended then c
    else if !c.snd.stream.Eof() then c.(linger := false)
    else if c.snd.bytesInFlight == 0 && (!c.linger || c.sinceSegment >= 10 * c.rtTimeout) then c.(active := false)
    else c
  }

  /** `send_sender_segments`. */
  function Flush(c: Conn): (c': Conn)
    requires c.Valid()
    ensures c'.Valid()
  {
    Clean(c.(out := c.out + StampAll(c, c.snd.queue), snd := c.snd.(queue := [])))
  }

  /** Both streams marked as failed, the connection dead. */
  function Abort(c: Conn): (c': Conn)
    requires c.snd.Valid() && c.rcv.Valid()
    ensures c'.Valid()
  {
    c.(snd := c.snd.(stream := c.snd.stream.SetError()),
       rcv := c.rcv.(reasm := c.rcv.reasm.(out := c.rcv.reasm.out.SetError())),
       active := false)
  }

  /** The reset segment made from the front of the sender's queue. */
  function ResetOf(c: Conn, u: AbsSegment): Segment
    requires c.rcv.Valid()
  {
    var seg := u.Wire(c.snd.isn);
    seg.(header := seg.header.(
      ack := true,
      ackno := if c.rcv.isn.Some? then c.rcv.Ackno().value else seg.header.ackno,
      win := Low16(c.rcv.WindowSize()),
      rst := true))
  }

  /** `unclean_shutdown`; it turns a queued segment into the reset, so there must be one. */
  function Unclean(c: Conn): (c': Conn)
    requires c.snd.Valid() && c.rcv.Valid() && c.snd.queue != []
    ensures c'.Valid()
  {
    var a := Abort(c);
    a.(out := c.out + [ResetOf(c, c.snd.queue[0])], snd := a.snd.(queue := c.snd.queue[1..]))
  }

  lemma UncleanDies(c: Conn)
    requires c.Valid()
    ensures !Unclean(c.(snd := SendEmpty(c.snd))).active
  {
  }

  function Connect(c: Conn): (c': Conn)
    requires c.Valid()
    ensures c'.Valid()
  {
    FillKeeps(c.snd);
    Flush(c.(snd := FillWindow(c.snd)))
  }

  /** The new state and how many bytes were accepted. */
  function Write(c: Conn, data: seq<Byte>): (r: (Conn, nat))
    requires c.Valid()
    ensures r.0.Valid()
  {
    if data == [] then (c, 0) else
    var written := c.snd.Write(data);
    FillKeeps(written);
    (Flush(c.(snd := FillWindow(written))), |written.stream.written| - |c.snd.stream.written|)
  }

  function EndInput(c: Conn): (c': Conn)
    requires c.Valid()
    ensures c'.Valid()
  {
    FillKeeps(c.snd.EndInput());
    Flush(c.(snd := FillWindow(c.snd.EndInput())))
  }

  function Elapse(c: Conn, ms: nat): (c': Conn)
    requires c.Valid()
    ensures c'.Valid()
  {
    if !c.active then c else
    TickFields(c.snd, ms);
    var t := c.(sinceSegment := c.sinceSegment + ms, snd := Tick(c.snd, ms));
    Flush(if t.snd.retx > MAX_RETX_ATTEMPTS then Unclean(t) else t)
  }

  /** The peer's SYN has not been seen and nothing has been sent. */
  predicate Listening(c: Conn) {
    c.rcv.isn.None? && c.snd.nextSeqno == 0
  }

  /** The SYN was sent, nothing was acknowledged, and the peer's SYN has not been seen. */
  predicate SynSent(c: Conn) {
    c.snd.nextSeqno > 0 && c.snd.bytesInFlight == c.snd.nextSeqno && c.rcv.isn.None?
  }

  /** The end of `segment_received`: act on the acknowledgement, answer, and reset or transmit. */
  function Answer(c: Conn, seg: Segment): (c': Conn)
    requires c.Valid()
    ensures c'.Valid()
  {
    AckKeeps(c.snd, seg.header.ackno, seg.header.win);
    var acked := AckReceived(c.snd, seg.header.ackno, seg.header.win);
    var answered := if acked.stream.Size() == 0 && seg.LengthInSequenceSpace() > 0 then SendEmpty(acked) else acked;
    if seg.header.rst then Unclean(c.(snd := SendEmpty(answered)))
    else Flush(c.(snd := answered))
  }

  /** `segment_received` for an active connection, once the time of the last segment is noted. */
  function Handle(c: Conn, seg: Segment): (c': Conn)
    requires c.Valid() && c.active
    ensures c'.Valid()
  {
    var received := c.(rcv := Receive(c.rcv, seg).0);
    if Listening(c) then
      if !seg.header.syn then c else Connect(received)
    else if SynSent(c) && seg.payload != [] then c
    else if SynSent(c) && !seg.header.ack then
      if seg.header.syn then received.(snd := SendEmpty(c.snd)) else c
    else if SynSent(c) && seg.header.rst then Abort(c)
    else Answer(received, seg)
  }

  function SegmentReceived(c: Conn, seg: Segment): (c': Conn)
    requires c.Valid()
    ensures c'.Valid()
  {
    if c.active then Handle(c.(sinceSegment := 0), seg) else c
  }

  /** The destructor: a connection still active is reset. */
  function Close(c: Conn): (c': Conn)
    requires c.Valid()
    ensures c'.Valid()
  {
    if c.active then Unclean(c.(snd := SendEmpty(c.snd))) else c
  }

  /** Filling the window leaves the retransmission count alone. */
  lemma FillKeeps(s: Sender)
    requires s.Valid()
    ensures FillWindow(s).retx == s.retx
  {
    if s.synSent && !SynOutstanding(s) && HasWork(s) && !s.finSent && s.windowSize != 0 {
      FillLoopKeeps(s);
    }
  }

  lemma {:induction false} FillLoopKeeps(s: Sender)
    requires s.Valid() && s.synSent && HasWork(s)
    ensures FillLoop(s).retx == s.retx
    decreases s.freeSpace
  {
    if s.freeSpace > 0 {
      var t := SendData(s, PayloadSize(s), FinFits(s));
      if t.stream.Size() > 0 { FillLoopKeeps(t); }
    }
  }

  /** An acknowledgement does not raise the retransmission count. */
  lemma AckKeeps(s: Sender, ackno: U32, win: U16)
    requires s.Valid()
    ensures AckReceived(s, ackno, win).retx <= s.retx
  {
    hide FillWindow, Unwrap;
    var abs := Unwrap(ackno, s.isn, s.nextSeqno);
    if AckValid(s, abs) {
      FillKeeps(Settle(s, abs, win));
    }
  }

  // ----- every run -----

  /**
   * What happens to a connection, in any order: calls of its owner, segments from any peer, time. In the program
   * nothing follows `Destroy`; runs that go on are covered all the same.
   */
  datatype Event =
    | Open
    | Send(data: seq<Byte>)
    | Finish
    | Arrive(seg: Segment)
    | Pass(ms: nat)
    | Take(len: nat)
    | Collect
    | Destroy

  function Next(c: Conn, e: Event): (c': Conn)
    requires c.Valid()
    ensures c'.Valid()
  {
    match e
    case Open => Connect(c)
    case Send(data) => Write(c, data).0
    case Finish => EndInput(c)
    case Arrive(seg) => SegmentReceived(c, seg)
    case Pass(ms) => Elapse(c, ms)
    case Take(len) => c.(rcv := c.rcv.Read(len))
    case Collect => c.(out := [])
    case Destroy => Close(c)
  }

  function Run(c: Conn, evs: seq<Event>): (c': Conn)
    requires c.Valid()
    ensures c'.Valid()
  {
    if evs == [] then c else Next(Run(c, evs[..|evs| - 1]), evs[|evs| - 1])
  }

  /** The segments handed out by a call. */
  function Handed(c: Conn, c': Conn): seq<Segment> {
    if c.out <= c'.out then c'.out[|c.out|..] else []
  }

  /** The sender's invariant, its timer, and that it owes the peer nothing it could send now. */
  predicate Steady(s: Sender) {
    && Inv(s)
    && BackedOff(s)
    && (if s.synSent then Quiet(s) else !HasWork(s))
  }

  predicate ConnInv(c: Conn)
    ensures ConnInv(c) ==> c.Valid()
  {
    && c.Valid()
    && Steady(c.snd)
    && c.rtTimeout == c.snd.initialRto
    && (c.active ==> !c.snd.stream.error && !c.rcv.reasm.out.error)
    && (c.rcv.isn.None? ==> !c.rcv.reasm.out.ended)
  }

  lemma FillSteady(s: Sender)
    requires Inv(s) && BackedOff(s)
    ensures Steady(FillWindow(s)) && FillWindow(s).initialRto == s.initialRto
    ensures FillWindow(s).stream.error == s.stream.error
  {
    hide Inv, FillWindow, Appends;
    FillInv(s);
    FillQuiet(s);
  }

  lemma AckSteady(s: Sender, ackno: U32, win: U16)
    requires Steady(s)
    ensures var s' := AckReceived(s, ackno, win);
            Steady(s') && s'.initialRto == s.initialRto && s'.stream.error == s.stream.error
  {
    hide Inv, AckAbs, Unwrap, BackedOff;
    var abs := Unwrap(ackno, s.isn, s.nextSeqno);
    AckInv(s, abs, win);
    AckBackedOff(s, abs, win);
    AckSynSent(s, abs, win);
  }

  /** An acknowledgement acted on leaves the SYN sent; one refused leaves everything alone. */
  lemma AckSynSent(s: Sender, abs: nat, win: U16)
    requires Inv(s)
    ensures if AckValid(s, abs) then AckAbs(s, abs, win).synSent else AckAbs(s, abs, win) == s
  {
    hide Inv, FillWindow, Settle, Appends, SameContext;
    InvValid(s);
    if AckValid(s, abs) {
      SettleInv(s, abs, win);
      FillInv(Settle(s, abs, win));
    }
  }

  lemma TickSteady(s: Sender, ms: nat)
    requires Steady(s) && s.retx <= 8
    ensures Steady(Tick(s, ms))
  {
    hide Inv, Tick;
    InvValid(s);
    TickInv(s, ms);
    TickFields(s, ms);
    TickBackedOff(s, ms);
  }

  lemma EmptySteady(s: Sender)
    requires Steady(s)
    ensures Steady(SendEmpty(s))
  {
    hide Inv;
    InvValid(s);
    SendEmptyInv(s);
  }

  /** The fields the invariants do not speak about: the queue to transmit, the error mark. */
  lemma MarksSteady(s: Sender, q: seq<AbsSegment>, error: bool)
    requires Steady(s) && forall u <- q :: u in s.queue
    ensures Steady(s.(queue := q, stream := s.stream.(error := error)))
  {
    hide Tiles, AbsSegment.SliceOf, Doubled, Low16;
    assert s.(queue := q, stream := s.stream.(error := error)).Sent() == s.Sent();
  }

  /** Flushing empties the sender's queue and changes nothing else of sender or receiver. */
  lemma FlushKeeps(c: Conn)
    requires c.Valid()
    ensures Flush(c).snd == c.snd.(queue := []) && Flush(c).rcv == c.rcv
  {
  }

  lemma FlushInv(c: Conn)
    requires ConnInv(c)
    ensures ConnInv(Flush(c))
  {
    hide Steady;
    MarksSteady(c.snd, [], c.snd.stream.error);
    assert c.snd.(queue := []) == c.snd.(queue := [], stream := c.snd.stream.(error := c.snd.stream.error));
  }

  lemma UncleanInv(c: Conn)
    requires c.snd.Valid() && c.rcv.Valid() && Steady(c.snd) && c.rtTimeout == c.snd.initialRto && c.snd.queue != []
    requires c.rcv.isn.None? ==> !c.rcv.reasm.out.ended
    ensures ConnInv(Unclean(c))
  {
    hide Steady;
    MarksSteady(c.snd, c.snd.queue[1..], true);
  }

  lemma AbortInv(c: Conn)
    requires ConnInv(c)
    ensures ConnInv(Abort(c))
  {
    hide Steady;
    MarksSteady(c.snd, c.snd.queue, true);
    assert c.snd.(queue := c.snd.queue, stream := c.snd.stream.(error := true)) == Abort(c).snd;
  }

  lemma ConnectInv(c: Conn)
    requires ConnInv(c)
    ensures ConnInv(Connect(c))
  {
    hide Inv, FillWindow, Flush, BackedOff;
    FillSteady(c.snd);
    FillKeeps(c.snd);
    FlushInv(c.(snd := FillWindow(c.snd)));
  }

  lemma WriteKeepsInv(c: Conn, data: seq<Byte>)
    requires ConnInv(c)
    ensures ConnInv(Write(c, data).0)
  {
    hide Inv, FillWindow, Flush;
    InvValid(c.snd);
    WriteInv(c.snd, data);
    var written := c.snd.Write(data);
    FillSteady(written);
    FillKeeps(written);
    FlushInv(c.(snd := FillWindow(written)));
  }

  lemma EndInputInv(c: Conn)
    requires ConnInv(c)
    ensures ConnInv(EndInput(c))
  {
    hide Inv, FillWindow, Flush;
    InvValid(c.snd);
    EndInv(c.snd);
    var ended := c.snd.EndInput();
    FillSteady(ended);
    FillKeeps(ended);
    FlushInv(c.(snd := FillWindow(ended)));
  }

  lemma ElapseInv(c: Conn, ms: nat)
    requires ConnInv(c)
    ensures ConnInv(Elapse(c, ms))
  {
    hide Steady, Tick, Flush, Unclean;
    if c.active {
      TickSteady(c.snd, ms);
      TickFields(c.snd, ms);
      var t := c.(sinceSegment := c.sinceSegment + ms, snd := Tick(c.snd, ms));
      if t.snd.retx > MAX_RETX_ATTEMPTS {
        UncleanInv(t);
        FlushInv(Unclean(t));
      } else {
        FlushInv(t);
      }
    }
  }

  /** Receiving a segment marks no error, and ends nothing before a SYN. */
  lemma ReceiveKeepsError(r: Receiver, seg: Segment)
    requires r.Valid() && (r.isn.None? ==> !r.reasm.out.ended)
    ensures Receive(r, seg).0.reasm.out.error == r.reasm.out.error
    ensures Receive(r, seg).0.isn.None? ==> !Receive(r, seg).0.reasm.out.ended
  {
    hide Unwrap, Wrap;
  }

  lemma HandleInv(c: Conn, seg: Segment)
    requires ConnInv(c) && c.active
    ensures ConnInv(Handle(c, seg))
  {
    hide Steady, Receive, AckReceived, Flush, Unclean, Connect, Abort;
    ReceiveKeepsError(c.rcv, seg);
    var received := c.(rcv := Receive(c.rcv, seg).0);
    EmptySteady(c.snd);
    if Listening(c) {
      ConnectInv(received);
    } else if SynSent(c) && (seg.payload != [] || !seg.header.ack) {
    } else if SynSent(c) && seg.header.rst {
      AbortInv(c);
    } else {
      AckSteady(c.snd, seg.header.ackno, seg.header.win);
      AckKeeps(c.snd, seg.header.ackno, seg.header.win);
      var acked := AckReceived(c.snd, seg.header.ackno, seg.header.win);
      var answered := if acked.stream.Size() == 0 && seg.LengthInSequenceSpace() > 0 then SendEmpty(acked) else acked;
      EmptySteady(acked);
      EmptySteady(answered);
      if seg.header.rst {
        UncleanInv(received.(snd := SendEmpty(answered)));
      } else {
        FlushInv(received.(snd := answered));
      }
    }
  }

  lemma CloseInv(c: Conn)
    requires ConnInv(c)
    ensures ConnInv(Close(c))
  {
    hide Steady, Unclean;
    if c.active {
      EmptySteady(c.snd);
      UncleanInv(c.(snd := SendEmpty(c.snd)));
    }
  }

  lemma NextInv(c: Conn, e: Event)
    requires ConnInv(c)
    ensures ConnInv(Next(c, e))
  {
    hide Steady, Connect, Write, EndInput, Handle, Elapse, Close;
    match e
    case Open => ConnectInv(c);
    case Send(data) => WriteKeepsInv(c, data);
    case Finish => EndInputInv(c);
    case Arrive(seg) => if c.active { HandleInv(c.(sinceSegment := 0), seg); }
    case Pass(ms) => ElapseInv(c, ms);
    case Take(len) =>
    case Collect =>
    case Destroy => CloseInv(c);
  }

  /** The invariant holds in every run, whatever the peer sends. */
  lemma {:induction false} RunInv(c: Conn, evs: seq<Event>)
    requires ConnInv(c)
    ensures ConnInv(Run(c, evs))
  {
    hide ConnInv, Next;
    if evs != [] {
      RunInv(c, evs[..|evs| - 1]);
      NextInv(Run(c, evs[..|evs| - 1]), evs[|evs| - 1]);
    }
  }

  // ----- shutdown -----

  predicate Failed(c: Conn) {
    c.snd.stream.error && c.rcv.reasm.out.error
  }

  /** What `clean_shutdown` found when it let the connection go. */
  predicate Finished(c: Conn)
    requires c.Valid()
  {
    && !c.snd.stream.error && !c.rcv.reasm.out.error
    && c.rcv.reasm.out.ended && c.snd.stream.Eof() && c.snd.bytesInFlight == 0
    && (!c.linger || c.sinceSegment >= 10 * c.rtTimeout)
  }

  /** How one call may move a connection from `c` to `c'`. */
  predicate Shutdown(c: Conn, c': Conn)
    requires c'.Valid()
  {
    && (c.active && !c'.active ==> Failed(c') || Finished(c'))
    && (c.linger && !c'.linger ==> c'.rcv.reasm.out.ended && !c'.snd.stream.Eof())
  }

  lemma FlushShutdown(c: Conn, b: Conn)
    requires c.Valid() && b.linger == c.linger
    requires b.active && !c.active ==> Failed(c)
    requires b.active ==> Failed(c) || (!c.snd.stream.error && !c.rcv.reasm.out.error)
    ensures Shutdown(b, Flush(c))
    ensures Flush(c).sinceSegment == c.sinceSegment && Flush(c).rtTimeout == c.rtTimeout
  {
  }

  lemma HandleShutdown(c: Conn, seg: Segment)
    requires ConnInv(c) && c.active
    ensures Shutdown(c, Handle(c, seg))
    ensures Handle(c, seg).sinceSegment == c.sinceSegment && Handle(c, seg).rtTimeout == c.rtTimeout
  {
    hide Steady, Receive, AckReceived, Flush, FillWindow;
    ReceiveKeepsError(c.rcv, seg);
    var received := c.(rcv := Receive(c.rcv, seg).0);
    if Listening(c) {
      assert Inv(c.snd) by { SteadyInv(c.snd); }
      FillError(c.snd);
      FillKeeps(c.snd);
      FlushShutdown(received.(snd := FillWindow(c.snd)), c);
    } else if SynSent(c) && (seg.payload != [] || !seg.header.ack || seg.header.rst) {
    } else {
      AckSteady(c.snd, seg.header.ackno, seg.header.win);
      AckKeeps(c.snd, seg.header.ackno, seg.header.win);
      var acked := AckReceived(c.snd, seg.header.ackno, seg.header.win);
      var answered := if acked.stream.Size() == 0 && seg.LengthInSequenceSpace() > 0 then SendEmpty(acked) else acked;
      if !seg.header.rst {
        FlushShutdown(received.(snd := answered), c);
      }
    }
  }

  lemma SteadyInv(s: Sender)
    requires Steady(s)
    ensures Inv(s)
  {
  }

  lemma FillError(s: Sender)
    requires Inv(s)
    ensures FillWindow(s).stream.error == s.stream.error
  {
    hide Inv, FillWindow, Appends;
    FillInv(s);
  }

  lemma NextShutdown(c: Conn, e: Event)
    requires ConnInv(c)
    ensures Shutdown(c, Next(c, e))
    ensures var c' := Next(c, e);
            && c'.sinceSegment == (if !c.active then c.sinceSegment
                                   else if e.Arrive? then 0 else c.sinceSegment + (if e.Pass? then e.ms else 0))
            && c'.rtTimeout == c.rtTimeout
  {
    hide Flush, Handle, FillWindow, Tick, Inv, BackedOff;
    match e
    case Open =>
      FillError(c.snd); FillKeeps(c.snd);
      FlushShutdown(c.(snd := FillWindow(c.snd)), c);
    case Send(data) =>
      if data != [] {
        var written := c.snd.Write(data);
        WriteInv(c.snd, data); FillError(written); FillKeeps(written);
        FlushShutdown(c.(snd := FillWindow(written)), c);
      }
    case Finish =>
      var ended := c.snd.EndInput();
      EndInv(c.snd); FillError(ended); FillKeeps(ended);
      FlushShutdown(c.(snd := FillWindow(ended)), c);
    case Arrive(seg) =>
      if c.active { HandleShutdown(c.(sinceSegment := 0), seg); }
    case Pass(ms) =>
      if c.active {
        TickFields(c.snd, ms);
        var t := c.(sinceSegment := c.sinceSegment + ms, snd := Tick(c.snd, ms));
        FlushShutdown(if t.snd.retx > MAX_RETX_ATTEMPTS then Unclean(t) else t, c);
      }
    case Take(len) =>
    case Collect =>
    case Destroy =>
  }

  /** Milliseconds ticked since the last segment arrived. */
  function QuietTime(evs: seq<Event>): nat {
    if evs == [] then 0 else
    match evs[|evs| - 1]
    case Arrive(_) => 0
    case Pass(ms) => QuietTime(evs[..|evs| - 1]) + ms
    case _ => QuietTime(evs[..|evs| - 1])
  }

  /** At some point of the run the peer's stream had ended and ours had not. */
  ghost predicate PeerEndedFirst(c: Conn, evs: seq<Event>)
    requires c.Valid()
  {
    exists k :: 0 < k <= |evs| && EndedWhileOpen(Run(c, evs[..k]))
  }

  predicate EndedWhileOpen(c: Conn)
    requires c.Valid()
  {
    c.rcv.reasm.out.ended && !c.snd.stream.Eof()
  }

  /** While the connection is active, it counts exactly the time ticked since a segment last arrived. */
  lemma {:induction false} RunWaits(c: Conn, evs: seq<Event>)
    requires ConnInv(c) && c.sinceSegment == 0
    ensures var c' := Run(c, evs);
            && ConnInv(c') && c'.rtTimeout == c.rtTimeout
            && (c'.active ==> c'.sinceSegment == QuietTime(evs))
  {
    RunInv(c, evs);
    if evs != [] {
      hide ConnInv, Next, Shutdown;
      var init, e := evs[..|evs| - 1], evs[|evs| - 1];
      RunWaits(c, init);
      NextShutdown(Run(c, init), e);
      StaysDead(Run(c, init), e);
    }
  }

  lemma PeerEarlier(c: Conn, init: seq<Event>, e: Event)
    requires c.Valid() && PeerEndedFirst(c, init)
    ensures PeerEndedFirst(c, init + [e])
  {
    hide Run, EndedWhileOpen;
    var k :| 0 < k <= |init| && EndedWhileOpen(Run(c, init[..k]));
    assert (init + [e])[..k] == init[..k];
  }

  /** A connection stops lingering only for having seen the peer end first. */
  lemma {:induction false} RunLingers(c: Conn, evs: seq<Event>)
    requires ConnInv(c) && c.linger && c.sinceSegment == 0
    ensures !Run(c, evs).linger ==> PeerEndedFirst(c, evs)
  {
    if evs != [] {
      hide ConnInv, Next, PeerEndedFirst;
      var init, e := evs[..|evs| - 1], evs[|evs| - 1];
      assert evs == init + [e];
      RunLingers(c, init);
      RunWaits(c, init);
      NextShutdown(Run(c, init), e);
      if !Run(c, init).linger {
        PeerEarlier(c, init, e);
      } else if !Run(c, evs).linger {
        PeerNow(c, evs);
      }
    }
  }

  lemma PeerNow(c: Conn, evs: seq<Event>)
    requires c.Valid() && evs != [] && EndedWhileOpen(Run(c, evs))
    ensures PeerEndedFirst(c, evs)
  {
    hide Run, EndedWhileOpen;
    assert evs[..|evs|] == evs;
  }

  /** A dead connection does not come back. */
  lemma StaysDead(c: Conn, e: Event)
    requires ConnInv(c)
    ensures Next(c, e).active ==> c.active
  {
    hide FillWindow, Tick, Receive, AckReceived;
  }

  /**
   * Clean shutdown: whenever a connection that did not fail becomes inactive, the peer's stream has
   * ended, every byte of ours and our FIN were sent and acknowledged, and either the peer ended first
   * or ten timeouts passed since a segment last arrived.
   */
  lemma CleanShutdown(sendCapacity: nat, recvCapacity: nat, rtTimeout: U16, isn: U32, evs: seq<Event>, e: Event)
    requires 0 < recvCapacity
    requires var c := Run(NewConn(sendCapacity, recvCapacity, rtTimeout, isn), evs);
             c.active && !Next(c, e).active && !Next(c, e).snd.stream.error
    ensures var c0 := NewConn(sendCapacity, recvCapacity, rtTimeout, isn);
            var s := Next(Run(c0, evs), e).snd;
            && Next(Run(c0, evs), e).rcv.reasm.out.ended
            && s.stream.ended && s.stream.nread == |s.stream.written|
            && s.finSent && s.Una() == s.nextSeqno == |s.stream.written| + 2 && s.outstanding == []
            && (QuietTime(evs + [e]) >= 10 * rtTimeout || PeerEndedFirst(c0, evs + [e]))
  {
    hide Run, Next, Inv, BackedOff;
    var c0 := NewConn(sendCapacity, recvCapacity, rtTimeout, isn);
    var c := Run(c0, evs);
    var c' := Next(c, e);
    NewConnInv(sendCapacity, recvCapacity, rtTimeout, isn);
    RunWaits(c0, evs);
    NextInv(c, e);
    NextShutdown(c, e);
    InvTiles(c'.snd);
    TilesTotal(c'.snd.outstanding, c'.snd.Una(), c'.snd.nextSeqno);
    RunSnoc(c0, evs, e);
    RunLingers(c0, evs + [e]);
    QuietSnoc(evs, e);
  }

  lemma NewConnInv(sendCapacity: nat, recvCapacity: nat, rtTimeout: U16, isn: U32)
    requires 0 < recvCapacity
    ensures ConnInv(NewConn(sendCapacity, recvCapacity, rtTimeout, isn))
  {
    FreshInv(sendCapacity, rtTimeout, isn);
  }

  lemma RunSnoc(c: Conn, evs: seq<Event>, e: Event)
    requires c.Valid()
    ensures Run(c, evs + [e]) == Next(Run(c, evs), e)
  {
    hide Next;
    assert (evs + [e])[..|evs|] == evs;
  }

  lemma QuietSnoc(evs: seq<Event>, e: Event)
    ensures QuietTime(evs + [e]) == if e.Arrive? then 0 else QuietTime(evs) + (if e.Pass? then e.ms else 0)
  {
    assert (evs + [e])[..|evs|] == evs;
  }

  /**
   * Lingering ends: once the peer's stream has ended and everything of ours is acknowledged, a tick
   * closes the connection as soon as it does not linger or ten timeouts have passed without a segment.
   */
  lemma LingeringEnds(c: Conn, ms: nat)
    requires ConnInv(c) && c.active && c.rcv.reasm.out.ended
    requires c.snd.finSent && c.snd.stream.Size() == 0 && c.snd.outstanding == []
    ensures !Elapse(c, ms).active <==> !c.linger || c.sinceSegment + ms >= 10 * c.rtTimeout
    ensures !Elapse(c, ms).snd.stream.error
  {
    hide Inv, Tick, BackedOff, Quiet, StampAll;
    InvTiles(c.snd);
    TilesTotal(c.snd.outstanding, c.snd.Una(), c.snd.nextSeqno);
    TickFields(c.snd, ms);
  }

  /** An established connection acts on the acknowledgement field of a segment whether or not its ACK flag is set. */
  lemma AckFlagIgnored(c: Conn, seg: Segment)
    requires ConnInv(c) && c.active && !Listening(c) && !SynSent(c)
    ensures Handle(c, seg) == Handle(c, seg.(header := seg.header.(ack := !seg.header.ack)))
  {
    hide AckReceived, Flush, Unclean, Unwrap, Reassembly.Push, Inv, BackedOff, Quiet;
  }

  /**
   * Exactly when a segment that resets nothing takes something for acknowledged: when its number covers the oldest
   * outstanding segment. The ACK flag plays no part in it.
   */
  lemma PopsWithoutFlag(c: Conn, seg: Segment)
    requires ConnInv(c) && c.active && !Listening(c) && !SynSent(c) && !seg.header.rst
    ensures var abs := Unwrap(seg.header.ackno, c.snd.isn, c.snd.nextSeqno);
            c.snd.Una() < Handle(c, seg).snd.Una() <==> Pops(c.snd, abs)
  {
    hide AckReceived, Flush, Unwrap, Receive, Inv, BackedOff, Quiet;
    var received := c.(rcv := Receive(c.rcv, seg).0);
    AnswerUna(received, seg);
    AckPopsExactly(c.snd, Unwrap(seg.header.ackno, c.snd.isn, c.snd.nextSeqno), seg.header.win);
    AckReceivedIs(c.snd, seg.header.ackno, seg.header.win);
  }

  lemma AckReceivedIs(s: Sender, ackno: U32, win: U16)
    requires s.Valid()
    ensures AckReceived(s, ackno, win) == AckAbs(s, Unwrap(ackno, s.isn, s.nextSeqno), win)
  {
  }

  /** After an answer the oldest number is what the acknowledgement made it. */
  lemma AnswerUna(c: Conn, seg: Segment)
    requires c.Valid()
    ensures Answer(c, seg).snd.Una() == AckReceived(c.snd, seg.header.ackno, seg.header.win).Una()
    ensures Answer(c, seg).snd.stream.error
            == (seg.header.rst || AckReceived(c.snd, seg.header.ackno, seg.header.win).stream.error)
  {
    hide AckReceived, Flush;
    AckKeeps(c.snd, seg.header.ackno, seg.header.win);
    var acked := AckReceived(c.snd, seg.header.ackno, seg.header.win);
    FlushKeeps(c.(snd := acked));
    FlushKeeps(c.(snd := SendEmpty(acked)));
  }

  // ----- writing to a dead connection -----

  /** Filling the window would send something. */
  predicate CanSend(s: Sender)
    requires s.Valid()
  {
    || !s.synSent
    || (&& !SynOutstanding(s) && HasWork(s) && !s.finSent
        && (if s.windowSize != 0 then s.freeSpace != 0 else s.freeSpace == 0))
  }

  lemma CanSendSends(s: Sender)
    requires Inv(s)
    ensures |s.queue| < |FillWindow(s).queue| <==> CanSend(s)
    ensures s.queue <= FillWindow(s).queue
  {
    hide Inv, SendData;
    InvValid(s);
    FillInv(s);
    var s' := FillWindow(s);
    assert |s'.queue| - |s.queue| == |s'.outstanding| - |s.outstanding|;
    if s.synSent && CanSend(s) {
      if s.windowSize != 0 { FillLoopInv(s); } else { ProbeQueues(s); }
    }
  }

  lemma ProbeQueues(s: Sender)
    requires s.Valid()
    ensures |SendData(s, Min(1, s.stream.Size()), s.stream.Eof()).queue| == |s.queue| + 1
  {
  }

  /**
   * `write` does not ask whether the connection is active. Exactly when it still hands out segments: there is data,
   * and a segment is left over in the sender's queue or the window can be filled.
   */
  lemma DeadWrite(c: Conn, data: seq<Byte>)
    requires ConnInv(c) && !c.active
    ensures |c.out| < |Write(c, data).0.out| <==> data != [] && (c.snd.queue != [] || CanSend(c.snd.Write(data)))
    ensures !Write(c, data).0.active
  {
    hide Inv, FillWindow, BackedOff, Quiet, CanSend, Stamp;
    InvValid(c.snd);
    var w := c.snd.Write(data);
    WriteInv(c.snd, data);
    CanSendSends(w);
  }

  // ----- giving up -----

  /**
   * Back-off: in every run the timeout has doubled once per consecutive retransmission, at most nine
   * times, and at least the sum of the timeouts that ran out has passed since the last acknowledged segment.
   */
  lemma BackOff(sendCapacity: nat, recvCapacity: nat, rtTimeout: U16, isn: U32, evs: seq<Event>)
    requires 0 < recvCapacity
    ensures var s := Run(NewConn(sendCapacity, recvCapacity, rtTimeout, isn), evs).snd;
            && s.retx <= 9
            && s.rto == Doubled(rtTimeout, s.retx)
            && s.sinceAck >= Doubled(rtTimeout, s.retx) - rtTimeout
  {
    hide Run, Doubled;
    var c0 := NewConn(sendCapacity, recvCapacity, rtTimeout, isn);
    NewConnInv(sendCapacity, recvCapacity, rtTimeout, isn);
    RunWaits(c0, evs);
  }

  /** A tick gives the connection up no sooner than 511 timeouts after a segment was last acknowledged. */
  lemma GiveUp(sendCapacity: nat, recvCapacity: nat, rtTimeout: U16, isn: U32, evs: seq<Event>, ms: nat)
    requires 0 < recvCapacity
    requires var c := Run(NewConn(sendCapacity, recvCapacity, rtTimeout, isn), evs);
             c.active && Elapse(c, ms).snd.stream.error
    ensures var c := Run(NewConn(sendCapacity, recvCapacity, rtTimeout, isn), evs);
            && Elapse(c, ms).snd.retx == MAX_RETX_ATTEMPTS + 1
            && Elapse(c, ms).snd.sinceAck >= 511 * rtTimeout
            && !Elapse(c, ms).active
  {
    hide Run, Doubled, Tick, StampAll;
    var c0 := NewConn(sendCapacity, recvCapacity, rtTimeout, isn);
    var c := Run(c0, evs);
    NewConnInv(sendCapacity, recvCapacity, rtTimeout, isn);
    RunWaits(c0, evs);
    TickSteady(c.snd, ms);
    TickFields(c.snd, ms);
    DoubledNine(rtTimeout, Tick(c.snd, ms).retx);
  }
}
