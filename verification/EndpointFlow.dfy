/** Flow control between two complete endpoints: what the window fields of their segments amount to. */
module EndpointFlow {
  import opened Basics
  import opened WrappingIntegers
  import opened Segments
  import R = Receivers
  import opened Senders
  import opened Connections
  import opened Endpoints
  import opened Acknowledgements
  import N = Network

  // ----- a ledger of what was handed out -----

  /** A segment handed out, and what the receiver behind it promised at that moment. */
  datatype Entry = Entry(seg: Segment, promise: N.Ack)

  function Entries(segs: seq<Segment>, promise: N.Ack): (es: seq<Entry>)
    ensures |es| == |segs| && forall i :: 0 <= i < |segs| ==> es[i] == Entry(segs[i], promise)
  {
    seq(|segs|, i requires 0 <= i < |segs| => Entry(segs[i], promise))
  }

  /** The second end's ledger after a turn. */
  function Entered(w: World, t: Turn, log: seq<Entry>): seq<Entry>
    requires w.a.Valid() && w.b.Valid()
  {
    var b' := OneTurn(w, t).b;
    if t.Second? && !t.m.Post? then log + Entries(Handed(w.b, b'), N.AckOf(b'.rcv)) else log
  }

  /** The entry's segment, if it acknowledges, says what was promised. */
  predicate Faithful(e: Entry, isn: U32) {
    e.seg.header.ack && !e.seg.header.rst ==>
      e.seg.header.ackno == Wrap(e.promise.abs, isn) && e.seg.header.win == e.promise.win
  }

  predicate Rising(log: seq<Entry>) {
    forall i, j :: 0 <= i <= j < |log| ==> N.NoLater(log[i].promise, log[j].promise)
  }

  /** What the first end knows of the second comes from an entry no later than the last one delivered. */
  predicate Knows(s: Sender, log: seq<Entry>, last: nat) {
    || (s.lastAck == 0 && s.windowSize == 0)
    || (last < |log| && s.lastAck <= log[last].promise.abs
        && s.Edge() <= log[last].promise.abs + log[last].promise.win)
  }

  predicate LedgerInv(w: World, log: seq<Entry>, last: nat)
    requires w.b.rcv.Valid()
  {
    && w.b.rcv.reasm.out.capacity < TWO16
    && Rising(log)
    && (forall e <- log :: Faithful(e, w.a.snd.isn) && N.NoLater(e.promise, N.AckOf(w.b.rcv)))
    && (!w.a.snd.stream.error ==> WithinEdge(w.a.snd) && Knows(w.a.snd, log, last))
  }

  /**
   * Segments reach the first end in the order the second handed them out, some lost, some repeated. Past the handshake
   * an acknowledgement it acts on carries the flag and is recent enough for 32 bits.
   */
  predicate OrderKept(w: World, t: Turn, pick: nat, log: seq<Entry>, last: nat) {
    t.First? && t.m.Deliver? ==>
      var seg, s := t.m.seg, w.a.snd;
      && last <= pick < |log| && log[pick].seg == seg
      && (w.a.active && !Listening(w.a) && (SynSent(w.a) ==> seg.header.ack) && !seg.header.rst ==>
            || (seg.header.ack && Checkpoint(s.nextSeqno) && InRange(log[pick].promise.abs, s.nextSeqno))
            || !AckValid(s, Unwrap(seg.header.ackno, s.isn, s.nextSeqno)))
  }

  function LastAfter(t: Turn, pick: nat, last: nat): nat {
    if t.First? && t.m.Deliver? then pick else last
  }

  predicate HandedInOrder(w: World, ts: seq<Turn>, picks: seq<nat>, log: seq<Entry>, last: nat)
    requires w.a.Valid() && w.b.Valid() && |picks| == |ts|
    decreases |ts|
  {
    ts == [] || (
      && OrderKept(w, ts[0], picks[0], log, last)
      && HandedInOrder(
           OneTurn(w, ts[0]), ts[1..], picks[1..], Entered(w, ts[0], log), LastAfter(ts[0], picks[0], last)))
  }

  // ----- what one call does to the sender's edge -----

  /** The sender's knowledge of its peer is as before, and it stays within its edge. */
  predicate SameEdge(s: Sender, s': Sender) {
    s'.lastAck == s.lastAck && s'.windowSize == s.windowSize && (WithinEdge(s) ==> WithinEdge(s'))
  }

  /** It has acted on an acknowledgement, and stays within its edge if nothing was taken back. */
  predicate NewEdge(s: Sender, s': Sender, abs: nat, win: U16) {
    && AckValid(s, abs) && s'.lastAck == abs && s'.windowSize == win
    && (WithinEdge(s) && s.lastAck <= abs && s.Edge() <= abs + win ==> WithinEdge(s'))
  }

  lemma FilledEdge(c: Conn, t: Sender)
    requires c.Valid() && Inv(t) && t.retx == c.snd.retx && SameEdge(c.snd, t)
    ensures FillWindow(t).retx == t.retx
    ensures SameEdge(c.snd, Flush(c.(snd := FillWindow(t))).snd)
  {
    hide Inv, FillWindow, Flush, Appends;
    InvValid(t);
    FillInv(t);
    FillKeeps(t);
    if WithinEdge(t) { FillWithinEdge(t); }
    FlushKeeps(c.(snd := FillWindow(t)));
  }

  lemma OwnEdge(c: Conn, e: Event)
    requires ConnInv(c) && !e.Arrive?
    ensures SameEdge(c.snd, Next(c, e).snd)
  {
    hide Inv, FillWindow, Flush, Tick, BackedOff, Quiet;
    InvValid(c.snd);
    match e
    case Open => FilledEdge(c, c.snd);
    case Send(data) => WriteInv(c.snd, data); FilledEdge(c, c.snd.Write(data));
    case Finish => EndInv(c.snd); FilledEdge(c, c.snd.EndInput());
    case Pass(ms) =>
      if c.active {
        TickFields(c.snd, ms);
        var t := c.(sinceSegment := c.sinceSegment + ms, snd := Tick(c.snd, ms));
        FlushKeeps(if t.snd.retx > MAX_RETX_ATTEMPTS then Unclean(t) else t);
      }
    case _ =>
  }

  lemma AckEdge(s: Sender, abs: nat, win: U16)
    requires Inv(s)
    ensures if AckValid(s, abs) then NewEdge(s, AckAbs(s, abs, win), abs, win) else AckAbs(s, abs, win) == s
  {
    hide Inv, AckAbs, WithinEdge, Quiet;
    if AckValid(s, abs) {
      AckInv(s, abs, win);
      N.AckWindow(s, abs, win);
      if WithinEdge(s) && s.lastAck <= abs && s.Edge() <= abs + win { AckWithinEdge(s, abs, win); }
    } else {
      InvValid(s);
      N.AckRefused(s, abs, win);
    }
  }

  lemma AnsweredEdge(c: Conn, seg: Segment)
    requires c.Valid() && Inv(c.snd)
    ensures var abs := Unwrap(seg.header.ackno, c.snd.isn, c.snd.nextSeqno);
            var s' := Answer(c, seg).snd;
            || s'.stream.error
            || SameEdge(c.snd, s')
            || (!seg.header.rst && NewEdge(c.snd, s', abs, seg.header.win))
  {
    hide Inv, AckAbs, Flush, Unclean, Unwrap;
    var abs := Unwrap(seg.header.ackno, c.snd.isn, c.snd.nextSeqno);
    AnswerUna(c, seg);
    AckEdge(c.snd, abs, seg.header.win);
    AckKeeps(c.snd, seg.header.ackno, seg.header.win);
    var acked := AckReceived(c.snd, seg.header.ackno, seg.header.win);
    if !seg.header.rst {
      FlushKeeps(c.(snd := acked));
      FlushKeeps(c.(snd := SendEmpty(acked)));
    }
  }

  /** An arriving segment changes what the sender knows by its acknowledgement only, where that is looked at. */
  lemma ArriveEdge(c: Conn, seg: Segment)
    requires ConnInv(c)
    ensures var abs := Unwrap(seg.header.ackno, c.snd.isn, c.snd.nextSeqno);
            var s' := Next(c, Arrive(seg)).snd;
            || s'.stream.error
            || SameEdge(c.snd, s')
            || (&& c.active && !Listening(c) && (SynSent(c) ==> seg.header.ack) && !seg.header.rst
                && NewEdge(c.snd, s', abs, seg.header.win))
  {
    hide Inv, FillWindow, Flush, Answer, R.Receive, Unwrap, BackedOff, Quiet;
    if c.active {
      var d := c.(sinceSegment := 0);
      var received := d.(rcv := R.Receive(d.rcv, seg).0);
      if Listening(c) {
        FilledEdge(received, c.snd);
      } else if SynSent(c) && (seg.payload != [] || !seg.header.ack || seg.header.rst) {
      } else {
        AnsweredEdge(received, seg);
      }
    }
  }

  // ----- the invariant -----

  /** The first end acts on its own. */
  lemma FirstActs(w: World, e: Event, log: seq<Entry>, last: nat)
    requires ConnInv(w.a) && w.b.rcv.Valid() && LedgerInv(w, log, last) && !e.Arrive?
    requires Next(w.a, e).snd.isn == w.a.snd.isn
    ensures LedgerInv(w.(a := Next(w.a, e)), log, last)
  {
    hide Next, ConnInv, Rising, Faithful, WithinEdge;
    OwnEdge(w.a, e);
    OwnUna(w.a, e);
  }

  /** The first end is given the segment of an entry no earlier than the last. */
  lemma FirstHears(w: World, seg: Segment, pick: nat, log: seq<Entry>, last: nat)
    requires ConnInv(w.a) && w.b.rcv.Valid() && LedgerInv(w, log, last)
    requires OrderKept(w, First(Deliver(seg)), pick, log, last)
    requires Next(w.a, Arrive(seg)).snd.isn == w.a.snd.isn
    ensures LedgerInv(w.(a := Next(w.a, Arrive(seg))), log, pick)
  {
    hide Next, ConnInv, WithinEdge, Unwrap, Wrap;
    var s, s' := w.a.snd, Next(w.a, Arrive(seg)).snd;
    ArriveEdge(w.a, seg);
    ArriveError(w.a, seg);
    assert log[pick] in log;
    assert last < |log| ==> N.NoLater(log[last].promise, log[pick].promise);
    if seg.header.ack && Checkpoint(s.nextSeqno) && InRange(log[pick].promise.abs, s.nextSeqno) {
      UnwrapWrap(log[pick].promise.abs, s.isn, s.nextSeqno);
    }
  }

  /** The second end acts: its promises go up, and what it hands out says so. */
  lemma SecondActs(w: World, b': Conn, log: seq<Entry>, last: nat)
    requires w.b.rcv.Valid() && b'.rcv.Valid() && LedgerInv(w, log, last) && NoLess(w.b.rcv, b'.rcv)
    requires w.b.out <= b'.out ==> AddsFresh(w.b, b')
    requires b'.rcv.isn.Some? ==> b'.rcv.isn.value == w.a.snd.isn
    ensures LedgerInv(w.(b := b'), log + Entries(Handed(w.b, b'), N.AckOf(b'.rcv)), last)
    ensures LedgerInv(w.(b := b'), log, last)
  {
    hide Wrap, WithinEdge;
    var p := N.AckOf(b'.rcv);
    var added := Entries(Handed(w.b, b'), p);
    assert N.NoLater(N.AckOf(w.b.rcv), p) by { PromiseUp(w.b.rcv, b'.rcv); }
    forall e | e in added ensures Faithful(e, w.a.snd.isn) && e.promise == p {
      var i :| 0 <= i < |added| && e == added[i];
      assert FreshAck(b'.out[|w.b.out| + i], b'.rcv);
    }
    RisingOn(log, added, p);
  }

  lemma PromiseUp(r: R.Receiver, r': R.Receiver)
    requires r.Valid() && r'.Valid() && NoLess(r, r') && r.reasm.out.capacity < TWO16
    ensures N.NoLater(N.AckOf(r), N.AckOf(r'))
  {
  }

  lemma RisingOn(log: seq<Entry>, added: seq<Entry>, p: N.Ack)
    requires Rising(log) && (forall e <- log :: N.NoLater(e.promise, p)) && forall e <- added :: e.promise == p
    ensures Rising(log + added)
  {
    var all := log + added;
    forall i, j | 0 <= i <= j < |all| ensures N.NoLater(all[i].promise, all[j].promise) {
      assert i < |log| ==> all[i] in log;
      assert |log| <= j ==> all[j] in added;
      assert |log| <= i ==> all[i] in added;
    }
  }

  lemma TurnLedger(w: World, t: Turn, pick: nat, log: seq<Entry>, last: nat)
    requires WorldInv(w) && w.a.Valid() && w.b.Valid() && TurnAllowed(w, t) && LedgerInv(w, log, last)
    requires OrderKept(w, t, pick, log, last)
    ensures LedgerInv(OneTurn(w, t), Entered(w, t, log), LastAfter(t, pick, last))
  {
    hide Honest, Follows, Next, LedgerInv, OrderKept, AddsFresh, NoLess, Readable, Handed;
    match t
    case First(m) => FirstTurn(w, m, pick, log, last);
    case Second(m) => SecondTurn(w, m, log, last);
  }

  lemma FirstTurn(w: World, m: Move, pick: nat, log: seq<Entry>, last: nat)
    requires WorldInv(w) && w.a.Valid() && w.b.Valid() && Allowed(w, m) && LedgerInv(w, log, last)
    requires OrderKept(w, First(m), pick, log, last)
    ensures LedgerInv(Play(w, m), log, LastAfter(First(m), pick, last))
  {
    hide Honest, Follows, Next, LedgerInv, OrderKept, Readable;
    HonestInv(w.a);
    match m
    case Act(e) => NextHonest(w.a, e); FirstActs(w, e, log, last);
    case Post =>
      NextHonest(w.a, Collect);
      FirstActs(w, Collect, log, last);
      LedgerLooks(w.(a := Next(w.a, Collect)), Play(w, m), log, last);
    case Deliver(seg) => NextHonest(w.a, Arrive(seg)); FirstHears(w, seg, pick, log, last);
    case Lose(seg) => LedgerLooks(w, Play(w, m), log, last);
  }

  lemma SecondTurn(w: World, m: Move, log: seq<Entry>, last: nat)
    requires WorldInv(w) && w.a.Valid() && w.b.Valid() && Allowed(w.Swap(), m) && LedgerInv(w, log, last)
    ensures LedgerInv(OneTurn(w, Second(m)), Entered(w, Second(m), log), last)
  {
    hide Honest, Follows, Next, LedgerInv, AddsFresh, NoLess, Readable, Handed;
    var b' := OneTurn(w, Second(m)).b;
    PlayInv(w.Swap(), m);
    HonestInv(w.a);
    KnownIsn(w.a, b', OneTurn(w, Second(m)).toB);
    match m {
      case Act(e) => NextAdds(w.b, e); CollectHands(w.b, b');
      case Post => NextAdds(w.b, Collect); CollectHands(w.b, b');
      case Deliver(seg) => NextAdds(w.b, Arrive(seg));
      case Lose(seg) => assert AddsFresh(w.b, w.b) by { AddsNothing(w.b); }
    }
    SecondActs(w, b', log, last);
    LedgerLooks(w.(b := b'), OneTurn(w, Second(m)), log, last);
    LedgerLooks(w.(b := b'), OneTurn(w, Second(m)), Entered(w, Second(m), log), last);
  }

  lemma AddsNothing(c: Conn)
    requires c.rcv.Valid()
    ensures AddsFresh(c, c)
  {
  }

  lemma CollectHands(c: Conn, c': Conn)
    requires c'.rcv.Valid()
    ensures c'.out == [] && c.out <= c'.out ==> AddsFresh(c, c')
  {
  }

  lemma HonestInv(c: Conn)
    requires Honest(c)
    ensures ConnInv(c)
  {
  }

  /** The ledger does not look at the network. */
  lemma LedgerLooks(w: World, w': World, log: seq<Entry>, last: nat)
    requires w.b.rcv.Valid() && LedgerInv(w, log, last) && w'.a == w.a && w'.b == w.b
    ensures LedgerInv(w', log, last)
  {
  }

  lemma {:induction false} HistoryLedger(w: World, ts: seq<Turn>, picks: seq<nat>, log: seq<Entry>, last: nat)
    returns (log': seq<Entry>, last': nat)
    requires WorldInv(w) && w.a.Valid() && w.b.Valid() && Happens(w, ts) && |picks| == |ts|
    requires LedgerInv(w, log, last) && HandedInOrder(w, ts, picks, log, last)
    ensures LedgerInv(History(w, ts), log', last')
    decreases |ts|
  {
    hide Honest, Follows, LedgerInv, OrderKept, Entered, Play, Allowed;
    if ts == [] {
      return log, last;
    } else {
      TurnLedger(w, ts[0], picks[0], log, last);
      match ts[0] {
        case First(m) => PlayInv(w, m);
        case Second(m) => PlayInv(w.Swap(), m);
      }
      log', last' := HistoryLedger(
        OneTurn(w, ts[0]), ts[1..], picks[1..], Entered(w, ts[0], log), LastAfter(ts[0], picks[0], last));
    }
  }

  /**
   * Flow control of complete endpoints: when the second end's segments reach the first in the order they were handed
   * out, the first, unless it has failed, is within the edge it was given last, but for one number probing a closed
   * window, and within one number of what the second grants now.
   */
  lemma EndpointFlowControl(
      sendA: nat, recvA: nat, rtA: U16, isnA: U32, sendB: nat, recvB: nat, rtB: U16, isnB: U32,
      ts: seq<Turn>, picks: seq<nat>)
    requires 0 < recvA && 0 < recvB < TWO16 && |picks| == |ts|
    requires var w0 := Meet(NewConn(sendA, recvA, rtA, isnA), NewConn(sendB, recvB, rtB, isnB));
             Happens(w0, ts) && HandedInOrder(w0, ts, picks, [], 0)
    ensures var w := History(Meet(NewConn(sendA, recvA, rtA, isnA), NewConn(sendB, recvB, rtB, isnB)), ts);
            !w.a.snd.stream.error ==>
              && (|| w.a.snd.nextSeqno <= w.a.snd.Edge()
                  || (w.a.snd.windowSize == 0 && w.a.snd.nextSeqno == w.a.snd.Edge() + 1))
              && w.a.snd.nextSeqno <= w.b.rcv.AbsAckno() + w.b.rcv.WindowSize() + 1
  {
    hide History, Happens, HandedInOrder, WorldInv, ConnInv;
    var a, b := NewConn(sendA, recvA, rtA, isnA), NewConn(sendB, recvB, rtB, isnB);
    MeetSound(sendA, recvA, rtA, isnA, sendB, recvB, rtB, isnB);
    var log, last := HistoryLedger(Meet(a, b), ts, picks, [], 0);
    var w := History(Meet(a, b), ts);
    if !w.a.snd.stream.error { LedgerMeans(w, log, last); }
  }

  lemma LedgerMeans(w: World, log: seq<Entry>, last: nat)
    requires w.b.rcv.Valid() && LedgerInv(w, log, last) && !w.a.snd.stream.error
    ensures w.a.snd.nextSeqno <= w.a.snd.Edge() || (w.a.snd.windowSize == 0 && w.a.snd.nextSeqno == w.a.snd.Edge() + 1)
    ensures w.a.snd.nextSeqno <= w.b.rcv.AbsAckno() + w.b.rcv.WindowSize() + 1
  {
    if last < |log| { assert log[last] in log; }
  }
}
