/** Two complete endpoints over a network that loses, repeats and reorders. */
module Endpoints {
  import opened Basics
  import opened WrappingIntegers
  import Reassembly
  import opened Segments
  import R = Receivers
  import opened Senders
  import opened Connections

  /** The segment is a slice of what the sender has sent. */
  ghost predicate Genuine(seg: Segment, s: Sender)
    requires s.Valid()
  {
    exists u :: Carries(seg, u, s.isn) && u.SliceOf(s.Sent(), s.finSent) && u.End() <= s.nextSeqno
  }

  ghost predicate AllGenuine(segs: seq<Segment>, s: Sender)
    requires s.Valid()
  {
    forall seg <- segs :: Genuine(seg, s)
  }

  lemma GenuineStays(seg: Segment, s: Sender, t: Sender)
    requires Inv(s) && Inv(t) && MovesOn(s, t) && Genuine(seg, s)
    requires s.finSent ==> s.stream.nread == |s.stream.written|
    ensures Genuine(seg, t)
  {
    hide Inv, AbsSegment.SliceOf;
    InvValid(s);
    InvValid(t);
    var u :| Carries(seg, u, s.isn) && u.SliceOf(s.Sent(), s.finSent) && u.End() <= s.nextSeqno;
    SliceStays(u, s.Sent(), s.finSent, t.Sent(), t.finSent);
  }

  lemma AllGenuineStay(segs: seq<Segment>, s: Sender, t: Sender)
    requires Inv(s) && Inv(t) && MovesOn(s, t) && AllGenuine(segs, s)
    requires s.finSent ==> s.stream.nread == |s.stream.written|
    ensures AllGenuine(segs, t)
  {
    hide Inv, Genuine, MovesOn;
    InvValid(s);
    InvValid(t);
    forall seg | seg in segs ensures Genuine(seg, t) {
      GenuineStays(seg, s, t);
    }
  }

  /** Genuineness looks at what was sent, not at the queue or the error mark. */
  lemma GenuineMarks(segs: seq<Segment>, s: Sender, t: Sender)
    requires s.Valid() && t.Valid() && AllGenuine(segs, s)
    requires t.isn == s.isn && t.Sent() == s.Sent() && t.finSent == s.finSent && t.nextSeqno == s.nextSeqno
    ensures AllGenuine(segs, t)
  {
    hide AbsSegment.SliceOf, Carries;
    forall seg | seg in segs ensures Genuine(seg, t) {
      assert Genuine(seg, s);
      var u :| Carries(seg, u, s.isn) && u.SliceOf(s.Sent(), s.finSent) && u.End() <= s.nextSeqno;
      assert Carries(seg, u, t.isn);
    }
  }

  /** A stamped segment of the queue is genuine. */
  lemma StampGenuine(c: Conn, u: AbsSegment)
    requires c.Valid() && Inv(c.snd) && u in c.snd.queue
    ensures Genuine(Stamp(c, u), c.snd) && Genuine(ResetOf(c, u), c.snd)
  {
    hide AbsSegment.SliceOf, Tiles, Wrap;
    assert Carries(Stamp(c, u), u, c.snd.isn) && Carries(ResetOf(c, u), u, c.snd.isn);
  }

  lemma FlushGenuine(c: Conn)
    requires c.Valid() && Inv(c.snd) && AllGenuine(c.out, c.snd)
    ensures AllGenuine(Flush(c).out, Flush(c).snd)
  {
    hide Inv, Genuine, Stamp;
    var all := c.out + StampAll(c, c.snd.queue);
    assert Flush(c).out == all;
    forall seg | seg in StampAll(c, c.snd.queue) ensures Genuine(seg, c.snd) {
      var i :| 0 <= i < |c.snd.queue| && seg == StampAll(c, c.snd.queue)[i];
      StampGenuine(c, c.snd.queue[i]);
    }
    FlushKeeps(c);
    GenuineMarks(all, c.snd, Flush(c).snd);
  }

  lemma UncleanGenuine(c: Conn)
    requires c.snd.Valid() && c.rcv.Valid() && Inv(c.snd) && AllGenuine(c.out, c.snd) && c.snd.queue != []
    ensures AllGenuine(Unclean(c).out, Unclean(c).snd)
  {
    hide Inv, Genuine, ResetOf;
    StampGenuine(c.(active := false), c.snd.queue[0]);
    assert ResetOf(c.(active := false), c.snd.queue[0]) == ResetOf(c, c.snd.queue[0]) by { ResetSame(c); }
    assert Unclean(c).snd.Sent() == c.snd.Sent();
    GenuineMarks(Unclean(c).out, c.snd, Unclean(c).snd);
  }

  lemma ResetSame(c: Conn)
    requires c.rcv.Valid() && c.snd.queue != []
    ensures ResetOf(c.(active := false), c.snd.queue[0]) == ResetOf(c, c.snd.queue[0])
  {
  }

  /** What one connection owes the other: its own state in order, and nothing false in the network. */
  ghost predicate Honest(c: Conn) {
    && ConnInv(c)
    && (c.snd.finSent ==> c.snd.stream.nread == |c.snd.stream.written|)
    && AllGenuine(c.out, c.snd)
  }

  /** A sender's move followed by a flush. */
  lemma FlushMoves(c: Conn, d: Conn)
    requires Honest(c) && ConnInv(d) && d.out == c.out && MovesOn(c.snd, d.snd)
    ensures MovesOn(c.snd, Flush(d).snd) && AllGenuine(Flush(d).out, Flush(d).snd)
  {
    hide Inv, Flush, Genuine, BackedOff, Quiet;
    AllGenuineStay(c.out, c.snd, d.snd);
    FlushGenuine(d);
    FlushKeeps(d);
  }

  /** Nothing but the FIN after the last byte makes the stream finished. */
  lemma StillComplete(s: Sender, t: Sender)
    requires Inv(s) && Inv(t) && MovesOn(s, t)
    requires s.finSent ==> s.stream.nread == |s.stream.written|
    ensures t.finSent ==> t.stream.nread == |t.stream.written|
  {
    hide Inv;
    InvValid(s);
    InvValid(t);
  }

  /** What `t` adds to `s` outside of the stream, the numbers and the flags: queue and error mark. */
  predicate OnlyMarks(s: Sender, t: Sender) {
    t == s.(queue := t.queue, stream := s.stream.(error := t.stream.error)) && (s.stream.error ==> t.stream.error)
  }

  lemma MarksMove(s: Sender, t: Sender, r: Sender, segs: seq<Segment>)
    requires s.Valid() && Inv(t) && r.Valid() && MovesOn(s, t) && OnlyMarks(t, r) && AllGenuine(segs, t)
    ensures MovesOn(s, r) && AllGenuine(segs, r)
  {
    hide Inv, Genuine;
    InvValid(t);
    assert r.Sent() == t.Sent();
    GenuineMarks(segs, t, r);
  }

  /** The sender went from `c.snd` to `t`, and then the window was filled and flushed. */
  lemma FilledHonest(c: Conn, d: Conn, t: Sender)
    requires Honest(c) && Inv(t) && BackedOff(t) && MovesOn(c.snd, t) && t.retx == c.snd.retx
    requires t.initialRto == c.snd.initialRto && t.stream.error == c.snd.stream.error
    requires d.out == c.out && d.rcv.Valid() && d.rtTimeout == c.rtTimeout && d.active == c.active
    requires d.rcv.reasm.out.error == c.rcv.reasm.out.error && (d.rcv.isn.None? ==> !d.rcv.reasm.out.ended)
    requires d.snd == FillWindow(t)
    ensures d.Valid()
    ensures Honest(Flush(d)) && MovesOn(c.snd, Flush(d).snd)
  {
    hide Inv, FillWindow, Flush, Genuine, BackedOff, Quiet, MovesOn;
    InvValid(t);
    FillSteady(t);
    FillKeeps(t);
    FillMoves(t);
    SteadyInv(c.snd);
    SteadyInv(d.snd);
    MovesTrans(c.snd, t, d.snd);
    FlushMoves(c, d);
    FlushInv(d);
    SteadyInv(Flush(d).snd);
    StillComplete(c.snd, Flush(d).snd);
  }

  lemma AnswerHonest(c: Conn, d: Conn, seg: Segment)
    requires Honest(c) && ConnInv(d) && d.snd == c.snd && d.out == c.out && ConnInv(Answer(d, seg))
    ensures Honest(Answer(d, seg)) && MovesOn(c.snd, Answer(d, seg).snd)
  {
    hide Inv, AckAbs, Flush, Unclean, Genuine, BackedOff, Quiet, Unwrap, MovesOn;
    var s := c.snd;
    AckSteady(s, seg.header.ackno, seg.header.win);
    AckKeeps(s, seg.header.ackno, seg.header.win);
    AckMoves(s, Unwrap(seg.header.ackno, s.isn, s.nextSeqno), seg.header.win);
    var acked := AckReceived(s, seg.header.ackno, seg.header.win);
    AllGenuineStay(c.out, s, acked);
    var answered := if acked.stream.Size() == 0 && seg.LengthInSequenceSpace() > 0 then SendEmpty(acked) else acked;
    EmptySteady(acked);
    EmptySteady(answered);
    MarksMove(s, acked, answered, c.out);
    MarksMove(s, answered, SendEmpty(answered), c.out);
    if seg.header.rst {
      var f := d.(snd := SendEmpty(answered));
      UncleanGenuine(f);
      UncleanMarks(f);
      MarksMove(s, f.snd, Unclean(f).snd, []);
    } else {
      var f := d.(snd := answered);
      FlushMoves(c, f);
    }
    StillComplete(s, Answer(d, seg).snd);
  }

  lemma UncleanMarks(c: Conn)
    requires c.snd.Valid() && c.rcv.Valid() && c.snd.queue != []
    ensures OnlyMarks(c.snd, Unclean(c).snd)
  {
  }

  lemma HandleHonest(c: Conn, seg: Segment)
    requires Honest(c) && c.active
    ensures Honest(Handle(c, seg)) && MovesOn(c.snd, Handle(c, seg).snd)
  {
    hide Inv, R.Receive, FillWindow, Flush, Answer, Genuine, BackedOff, Quiet;
    HandleInv(c, seg);
    InvValid(c.snd);
    ReceiveKeepsError(c.rcv, seg);
    var received := c.(rcv := R.Receive(c.rcv, seg).0);
    if Listening(c) {
      FilledHonest(c, received.(snd := FillWindow(c.snd)), c.snd);
    } else if SynSent(c) && (seg.payload != [] || !seg.header.ack) {
      EmptySteady(c.snd);
      MarksMove(c.snd, c.snd, SendEmpty(c.snd), c.out);
    } else if SynSent(c) && seg.header.rst {
      MarksMove(c.snd, c.snd, Abort(c).snd, c.out);
    } else {
      AnswerHonest(c, received, seg);
    }
  }

  lemma ElapseHonest(c: Conn, ms: nat)
    requires Honest(c)
    ensures Honest(Elapse(c, ms)) && MovesOn(c.snd, Elapse(c, ms).snd)
  {
    hide Inv, Tick, Flush, Unclean, Genuine, BackedOff, Quiet;
    InvValid(c.snd);
    if !c.active {
      return;
    }
    ElapseInv(c, ms);
    TickSteady(c.snd, ms);
    TickFields(c.snd, ms);
    var t := c.(sinceSegment := c.sinceSegment + ms, snd := Tick(c.snd, ms));
    AllGenuineStay(c.out, c.snd, t.snd);
    if t.snd.retx > MAX_RETX_ATTEMPTS {
      UncleanGenuine(t);
      UncleanMarks(t);
      UncleanInv(t);
      MarksMove(c.snd, t.snd, Unclean(t).snd, []);
      FlushGenuine(Unclean(t));
      FlushKeeps(Unclean(t));
    } else {
      FlushMoves(c, t);
    }
    StillComplete(c.snd, Elapse(c, ms).snd);
  }

  /** Whatever happens to an honest connection, short of a write after its end, leaves it honest. */
  lemma NextHonest(c: Conn, e: Event)
    requires Honest(c) && (e.Send? ==> !c.snd.stream.ended)
    ensures Honest(Next(c, e)) && MovesOn(c.snd, Next(c, e).snd)
  {
    hide Inv, FillWindow, Flush, Handle, Elapse, Close, Genuine, BackedOff, Quiet;
    InvValid(c.snd);
    match e
    case Open => FilledHonest(c, c.(snd := FillWindow(c.snd)), c.snd);
    case Send(data) =>
      if data != [] {
        WriteInv(c.snd, data);
        SameTimer(c.snd, c.snd.Write(data));
        FilledHonest(c, c.(snd := FillWindow(c.snd.Write(data))), c.snd.Write(data));
      }
    case Finish =>
      EndInv(c.snd);
      SameTimer(c.snd, c.snd.EndInput());
      FilledHonest(c, c.(snd := FillWindow(c.snd.EndInput())), c.snd.EndInput());
    case Arrive(seg) =>
      if c.active { HandleHonest(c.(sinceSegment := 0), seg); }
    case Pass(ms) =>
      ElapseHonest(c, ms);
    case Take(len) =>
    case Collect =>
    case Destroy => CloseHonest(c);
  }

  lemma CloseHonest(c: Conn)
    requires Honest(c)
    ensures Honest(Close(c)) && MovesOn(c.snd, Close(c).snd)
  {
    hide Inv, Unclean, Genuine, BackedOff, Quiet;
    InvValid(c.snd);
    if c.active {
      var f := c.(snd := SendEmpty(c.snd));
      EmptySteady(c.snd);
      CloseInv(c);
      MarksMove(c.snd, c.snd, f.snd, c.out);
      UncleanGenuine(f);
      UncleanMarks(f);
      MarksMove(c.snd, f.snd, Unclean(f).snd, []);
      StillComplete(c.snd, Unclean(f).snd);
    }
  }

  lemma SameTimer(s: Sender, t: Sender)
    requires BackedOff(s) && t == s.(stream := t.stream)
    ensures BackedOff(t)
  {
  }

  // ----- the receiver's side -----

  predicate SameButError(r: R.Receiver, r': R.Receiver) {
    r' == r.(reasm := r.reasm.(out := r.reasm.out.(error := r'.reasm.out.error)))
  }

  lemma AnswerReceiver(c: Conn, seg: Segment)
    requires c.Valid()
    ensures SameButError(c.rcv, Answer(c, seg).rcv)
  {
    hide AckReceived, Flush;
    AckKeeps(c.snd, seg.header.ackno, seg.header.win);
    var acked := AckReceived(c.snd, seg.header.ackno, seg.header.win);
    FlushKeeps(c.(snd := acked));
    FlushKeeps(c.(snd := SendEmpty(acked)));
  }

  lemma HandleReceiver(c: Conn, seg: Segment)
    requires c.Valid() && c.active
    ensures var r := Handle(c, seg).rcv; SameButError(c.rcv, r) || SameButError(R.Receive(c.rcv, seg).0, r)
  {
    hide FillWindow, R.Receive, Answer, Flush;
    var received := c.(rcv := R.Receive(c.rcv, seg).0);
    if Listening(c) {
      FillKeeps(c.snd);
      FlushKeeps(received.(snd := FillWindow(c.snd)));
    } else {
      AnswerReceiver(received, seg);
    }
  }

  lemma ElapseReceiver(c: Conn, ms: nat)
    requires c.Valid()
    ensures SameButError(c.rcv, Elapse(c, ms).rcv)
  {
    hide Tick, Flush;
    if c.active {
      TickFields(c.snd, ms);
      var t := c.(sinceSegment := c.sinceSegment + ms, snd := Tick(c.snd, ms));
      FlushKeeps(if t.snd.retx > MAX_RETX_ATTEMPTS then Unclean(t) else t);
    }
  }

  /** A call reaches the receiver only as a segment received, bytes read, or an error marked. */
  lemma NextReceiver(c: Conn, e: Event)
    requires c.Valid()
    ensures var r := Next(c, e).rcv;
            || SameButError(c.rcv, r)
            || (e.Arrive? && SameButError(R.Receive(c.rcv, e.seg).0, r))
            || (e.Take? && r == c.rcv.Read(e.len))
  {
    hide FillWindow, Flush, Handle, Elapse, R.Receive;
    match e
    case Open => FillKeeps(c.snd); FlushKeeps(c.(snd := FillWindow(c.snd)));
    case Send(data) =>
      FillKeeps(c.snd.Write(data)); FlushKeeps(c.(snd := FillWindow(c.snd.Write(data))));
    case Finish => FillKeeps(c.snd.EndInput()); FlushKeeps(c.(snd := FillWindow(c.snd.EndInput())));
    case Arrive(seg) => if c.active { HandleReceiver(c.(sinceSegment := 0), seg); }
    case Pass(ms) => ElapseReceiver(c, ms);
    case Take(len) =>
    case Collect =>
    case Destroy =>
  }

  lemma TracksMarked(r: R.Receiver, r': R.Receiver, sent: seq<Byte>, finished: bool, isn: U32)
    requires R.Tracks(r, sent, finished, isn) && SameButError(r, r')
    ensures R.Tracks(r', sent, finished, isn)
  {
  }

  lemma TracksRead(r: R.Receiver, len: nat, sent: seq<Byte>, finished: bool, isn: U32)
    requires R.Tracks(r, sent, finished, isn)
    ensures R.Tracks(r.Read(len), sent, finished, isn)
  {
  }

  /** The receiver looks only at the fields a genuine segment carries. */
  lemma ReceiveCarried(r: R.Receiver, seg: Segment, u: AbsSegment, isn: U32)
    requires r.Valid() && Carries(seg, u, isn)
    ensures R.Receive(r, seg) == R.Receive(r, u.Wire(isn))
  {
    hide Wrap, Unwrap, Reassembly.Push;
  }

  // ----- the pair -----

  datatype World = World(a: Conn, b: Conn, toA: set<Segment>, toB: set<Segment>) {
    function Swap(): World {
      World(b, a, toB, toA)
    }
  }

  /** What happens at one end: a call of its owner, its segments going out, one coming in, one getting lost. */
  datatype Move = Act(e: Event) | Post | Deliver(seg: Segment) | Lose(seg: Segment)

  /** A move at the first end, or at the second. */
  datatype Turn = First(m: Move) | Second(m: Move)

  /** The segment reads as a slice of what was sent that is recent enough for 32 bits to identify it. */
  ghost predicate Readable(seg: Segment, s: Sender, r: R.Receiver)
    requires s.Valid()
  {
    exists u :: Carries(seg, u, s.isn) && u.SliceOf(s.Sent(), s.finSent) && u.End() <= s.nextSeqno && R.Resolvable(r, u)
  }

  ghost predicate Allowed(w: World, m: Move)
    requires w.b.Valid()
  {
    match m
    case Act(e) => !e.Arrive? && (e.Send? ==> !w.a.snd.stream.ended)
    case Post => true
    case Deliver(seg) => seg in w.toA && Readable(seg, w.b.snd, w.a.rcv)
    case Lose(seg) => seg in w.toA
  }

  function Play(w: World, m: Move): (w': World)
    requires w.a.Valid() && w.b.Valid()
    ensures w'.a.Valid() && w'.b == w.b
  {
    match m
    case Act(e) => w.(a := Next(w.a, e))
    case Post => w.(a := Next(w.a, Collect), toB := w.toB + set seg | seg in w.a.out)
    case Deliver(seg) => w.(a := Next(w.a, Arrive(seg)))
    case Lose(seg) => w.(toA := w.toA - {seg})
  }

  function OneTurn(w: World, t: Turn): (w': World)
    requires w.a.Valid() && w.b.Valid()
    ensures w'.a.Valid() && w'.b.Valid()
  {
    match t
    case First(m) => Play(w, m)
    case Second(m) => Play(w.Swap(), m).Swap()
  }

  ghost predicate TurnAllowed(w: World, t: Turn)
    requires w.a.Valid() && w.b.Valid()
  {
    match t
    case First(m) => Allowed(w, m)
    case Second(m) => Allowed(w.Swap(), m)
  }

  function History(w: World, ts: seq<Turn>): (w': World)
    requires w.a.Valid() && w.b.Valid()
    ensures w'.a.Valid() && w'.b.Valid()
    decreases |ts|
  {
    if ts == [] then w else History(OneTurn(w, ts[0]), ts[1..])
  }

  ghost predicate Happens(w: World, ts: seq<Turn>)
    requires w.a.Valid() && w.b.Valid()
    decreases |ts|
  {
    ts == [] || (TurnAllowed(w, ts[0]) && Happens(OneTurn(w, ts[0]), ts[1..]))
  }

  /** The stream of `x` as it arrives at `y` through `net`. */
  ghost predicate Follows(x: Conn, y: Conn, net: set<Segment>)
    requires x.snd.Valid()
  {
    && R.Tracks(y.rcv, x.snd.Sent(), x.snd.finSent, x.snd.isn)
    && (y.rcv.isn.Some? ==> x.snd.synSent)
    && forall seg <- net :: Genuine(seg, x.snd)
  }

  ghost predicate WorldInv(w: World) {
    && Honest(w.a) && Honest(w.b)
    && Follows(w.a, w.b, w.toB)
    && Follows(w.b, w.a, w.toA)
  }

  /** The receiver has not lost anything it had assembled, and takes back nothing it has promised. */
  predicate NoLess(r: R.Receiver, r': R.Receiver)
    requires r.Valid() && r'.Valid()
  {
    && (r.isn.Some? ==> r'.isn.Some?)
    && r.Left() <= r'.Left() && r.AbsAckno() <= r'.AbsAckno()
    && r.AbsAckno() + r.WindowSize() <= r'.AbsAckno() + r'.WindowSize()
    && r'.reasm.out.capacity == r.reasm.out.capacity
    && (r.reasm.out.ended ==> r'.reasm.out.ended)
  }

  /** The sending side may act as it likes. */
  lemma SenderActs(x: Conn, x': Conn, y: Conn, net: set<Segment>)
    requires Honest(x) && Honest(x') && MovesOn(x.snd, x'.snd) && Follows(x, y, net)
    ensures Follows(x', y, net)
  {
    hide Inv, R.Tracks, Genuine, BackedOff, Quiet;
    InvValid(x.snd);
    InvValid(x'.snd);
    var s, t := x.snd, x'.snd;
    assert s.Sent() <= t.Sent() && (s.finSent ==> t.Sent() == s.Sent());
    R.TracksMoreSent(y.rcv, s.Sent(), s.finSent, t.Sent(), t.finSent, s.isn);
    forall seg | seg in net ensures Genuine(seg, t) {
      GenuineStays(seg, s, t);
    }
  }

  /** The receiving side may act as it likes. */
  lemma ReceiverActs(x: Conn, y: Conn, e: Event, net: set<Segment>)
    requires Honest(x) && Honest(y) && Follows(x, y, net) && !e.Arrive?
    ensures Follows(x, Next(y, e), net) && NoLess(y.rcv, Next(y, e).rcv)
  {
    hide Inv, Next, R.Tracks, Genuine, BackedOff, Quiet;
    var s := x.snd;
    NextReceiver(y, e);
    if e.Take? && Next(y, e).rcv == y.rcv.Read(e.len) {
      TracksRead(y.rcv, e.len, s.Sent(), s.finSent, s.isn);
    } else {
      TracksMarked(y.rcv, Next(y, e).rcv, s.Sent(), s.finSent, s.isn);
    }
  }

  /** A genuine segment arrives. */
  lemma SegmentArrives(x: Conn, y: Conn, seg: Segment, net: set<Segment>)
    requires Honest(x) && Honest(y) && Follows(x, y, net) && Readable(seg, x.snd, y.rcv)
    ensures Follows(x, Next(y, Arrive(seg)), net) && NoLess(y.rcv, Next(y, Arrive(seg)).rcv)
  {
    hide Inv, Next, NoLess, R.Tracks, R.Receive, R.Resolvable, BackedOff, Quiet, AbsSegment.SliceOf;
    var s := x.snd;
    InvValid(s);
    var u :|
      Carries(seg, u, s.isn) && u.SliceOf(s.Sent(), s.finSent) && u.End() <= s.nextSeqno && R.Resolvable(y.rcv, u);
    ReceiveCarried(y.rcv, seg, u, s.isn);
    R.ReceiveTracks(y.rcv, u, s.Sent(), s.finSent, s.isn);
    R.SynStarts(y.rcv, u, s.isn);
    var r, r' := R.Receive(y.rcv, seg).0, Next(y, Arrive(seg)).rcv;
    ReceivedNoLess(y.rcv, u, s.Sent(), s.finSent, s.isn);
    NextReceiver(y, Arrive(seg));
    if SameButError(y.rcv, r') {
      MarkedNoLess(y.rcv, y.rcv, r');
      TracksMarked(y.rcv, r', s.Sent(), s.finSent, s.isn);
    } else {
      MarkedNoLess(y.rcv, r, r');
      TracksMarked(r, r', s.Sent(), s.finSent, s.isn);
    }
  }

  lemma ReceivedNoLess(r: R.Receiver, u: AbsSegment, sent: seq<Byte>, finished: bool, isn: U32)
    requires R.Tracks(r, sent, finished, isn) && u.SliceOf(sent, finished) && R.Resolvable(r, u)
    ensures NoLess(r, R.Receive(r, u.Wire(isn)).0)
  {
    hide R.Receive, AbsSegment.SliceOf;
    R.ReceiveTracks(r, u, sent, finished, isn);
  }

  lemma MarkedNoLess(r: R.Receiver, q: R.Receiver, r': R.Receiver)
    requires r.Valid() && q.Valid() && (q == r || NoLess(r, q)) && SameButError(q, r')
    ensures r'.Valid() && NoLess(r, r')
  {
  }

  /** Whatever the network holds of a short stream can be delivered. */
  lemma ShortReadable(x: Conn, y: Conn, seg: Segment, net: set<Segment>)
    requires Honest(x) && Honest(y) && Follows(x, y, net) && seg in net && R.Short(x.snd.stream.written)
    ensures Readable(seg, x.snd, y.rcv)
  {
    hide Inv, R.Tracks, R.Resolvable, BackedOff, Quiet, AbsSegment.SliceOf;
    var s := x.snd;
    InvValid(s);
    assert Genuine(seg, s);
    var u :| Carries(seg, u, s.isn) && u.SliceOf(s.Sent(), s.finSent) && u.End() <= s.nextSeqno;
    ShortResolves(y.rcv, u, s);
  }

  lemma ShortResolves(r: R.Receiver, u: AbsSegment, s: Sender)
    requires Inv(s) && R.Short(s.stream.written) && u.End() <= s.nextSeqno
    requires R.Tracks(r, s.Sent(), s.finSent, s.isn)
    ensures R.Resolvable(r, u)
  {
    hide Inv;
    InvValid(s);
    R.AgreesBound(r.reasm, s.Sent());
  }

  lemma PlayInv(w: World, m: Move)
    requires WorldInv(w) && w.b.Valid() && Allowed(w, m)
    ensures WorldInv(Play(w, m)) && NoLess(w.a.rcv, Play(w, m).a.rcv)
  {
    hide Honest, Follows, Next, Readable;
    HonestValid(w.a);
    HonestValid(w.b);
    match m
    case Act(e) =>
      NextHonest(w.a, e);
      SenderActs(w.a, Next(w.a, e), w.b, w.toB);
      ReceiverActs(w.b, w.a, e, w.toA);
    case Post =>
      NextHonest(w.a, Collect);
      SenderActs(w.a, Next(w.a, Collect), w.b, w.toB);
      ReceiverActs(w.b, w.a, Collect, w.toA);
      PostGenuine(w);
    case Deliver(seg) =>
      NextHonest(w.a, Arrive(seg));
      SenderActs(w.a, Next(w.a, Arrive(seg)), w.b, w.toB);
      SegmentArrives(w.b, w.a, seg, w.toA);
    case Lose(seg) =>
      LoseGenuine(w, seg);
  }

  lemma HonestValid(c: Conn)
    requires Honest(c)
    ensures c.Valid() && Inv(c.snd)
  {
  }

  lemma PostGenuine(w: World)
    requires WorldInv(w) && Follows(Next(w.a, Collect), w.b, w.toB)
    ensures Follows(Next(w.a, Collect), w.b, w.toB + set seg | seg in w.a.out)
  {
    hide Genuine, R.Tracks, Inv, BackedOff, Quiet;
  }

  lemma LoseGenuine(w: World, seg: Segment)
    requires WorldInv(w)
    ensures Follows(w.b, w.a, w.toA - {seg})
  {
    hide Genuine, R.Tracks, Inv, BackedOff, Quiet;
  }

  lemma {:induction false} HistoryInv(w: World, ts: seq<Turn>)
    requires WorldInv(w) && w.a.Valid() && w.b.Valid() && Happens(w, ts)
    ensures WorldInv(History(w, ts))
    decreases |ts|
  {
    hide Honest, Follows, Play, Allowed;
    if ts != [] {
      match ts[0] {
        case First(m) => PlayInv(w, m);
        case Second(m) => PlayInv(w.Swap(), m);
      }
      HistoryInv(OneTurn(w, ts[0]), ts[1..]);
    }
  }

  /** Two fresh endpoints, each with its own capacities, timeout and initial sequence number. */
  function Meet(a: Conn, b: Conn): World {
    World(a, b, {}, {})
  }

  /**
   * Whatever the two applications do, whatever is lost, repeated or reordered, and however the
   * connection ends: what each end has received is a prefix of what the other was given to send, and an
   * inbound stream that has ended is the whole of an ended outbound stream.
   */
  lemma BothWays(
      sendA: nat, recvA: nat, rtA: U16, isnA: U32, sendB: nat, recvB: nat, rtB: U16, isnB: U32, ts: seq<Turn>)
    requires 0 < recvA && 0 < recvB
    requires Happens(Meet(NewConn(sendA, recvA, rtA, isnA), NewConn(sendB, recvB, rtB, isnB)), ts)
    ensures var w := History(Meet(NewConn(sendA, recvA, rtA, isnA), NewConn(sendB, recvB, rtB, isnB)), ts);
            && w.b.rcv.reasm.out.written <= w.a.snd.stream.written
            && w.a.rcv.reasm.out.written <= w.b.snd.stream.written
            && (w.b.rcv.reasm.out.ended ==>
                  w.a.snd.stream.ended && w.b.rcv.reasm.out.written == w.a.snd.stream.written)
            && (w.a.rcv.reasm.out.ended ==>
                  w.b.snd.stream.ended && w.a.rcv.reasm.out.written == w.b.snd.stream.written)
  {
    hide History, Happens, Inv, BackedOff, Quiet, Genuine;
    var a, b := NewConn(sendA, recvA, rtA, isnA), NewConn(sendB, recvB, rtB, isnB);
    NewConnInv(sendA, recvA, rtA, isnA);
    NewConnInv(sendB, recvB, rtB, isnB);
    HistoryInv(Meet(a, b), ts);
    var w := History(Meet(a, b), ts);
    FollowsMeans(w.a, w.b, w.toB);
    FollowsMeans(w.b, w.a, w.toA);
  }

  lemma FollowsMeans(x: Conn, y: Conn, net: set<Segment>)
    requires Honest(x) && Follows(x, y, net)
    ensures y.rcv.reasm.out.written <= x.snd.stream.written
    ensures y.rcv.reasm.out.ended ==> x.snd.stream.ended && y.rcv.reasm.out.written == x.snd.stream.written
  {
    hide Inv, Genuine, BackedOff, Quiet;
    InvValid(x.snd);
  }
}
