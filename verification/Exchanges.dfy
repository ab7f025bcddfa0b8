/** What a connection hands out: which calls are answered, with what, and that nothing is held back. */
module Exchanges {
  import opened Basics
  import opened WrappingIntegers
  import opened Segments
  import R = Receivers
  import opened Senders
  import opened Connections
  import Endpoints

  // ----- which branch a segment takes -----

  /** The segment gets past the handshake's filters to where acknowledgements are looked at and answers given. */
  predicate Reaches(c: Conn, seg: Segment) {
    c.active && !Listening(c) && !(SynSent(c) && (seg.payload != [] || !seg.header.ack || seg.header.rst))
  }

  /** The call ends with everything queued going out and the clean-shutdown test. */
  predicate Transmits(c: Conn, e: Event) {
    match e
    case Open => true
    case Send(data) => data != []
    case Finish => true
    case Arrive(seg) => (c.active && Listening(c) && seg.header.syn) || (Reaches(c, seg) && !seg.header.rst)
    case Pass(_) => c.active
    case _ => false
  }

  /** After such a call nothing is left in the sender's queue. */
  lemma QueueEmptied(c: Conn, e: Event)
    requires c.Valid() && Transmits(c, e)
    ensures Next(c, e).snd.queue == []
  {
    hide FillWindow, Tick, AckReceived, R.Receive, StampAll;
  }

  /** The receiver gets to see the segment. */
  predicate Heard(c: Conn, seg: Segment) {
    c.active &&
    if Listening(c) then seg.header.syn
    else Reaches(c, seg) || (SynSent(c) && seg.payload == [] && !seg.header.ack && seg.header.syn)
  }

  /** Exactly then does it act on it; a reset only marks its stream besides. */
  lemma HeardExactly(c: Conn, seg: Segment)
    requires c.Valid()
    ensures var r := if Heard(c, seg) then R.Receive(c.rcv, seg).0 else c.rcv;
            Endpoints.SameButError(r, Next(c, Arrive(seg)).rcv)
  {
    hide FillWindow, R.Receive, Answer, Flush;
    var received := c.(sinceSegment := 0, rcv := R.Receive(c.rcv, seg).0);
    if c.active && Listening(c) {
      FillKeeps(c.snd);
      FlushKeeps(received.(snd := FillWindow(c.snd)));
    } else {
      Endpoints.AnswerReceiver(received, seg);
    }
  }

  // ----- answers -----

  /** A segment that acknowledges what this receiver has, takes up no number, and stands at the next one. */
  predicate Acknowledges(seg: Segment, s: Sender, r: R.Receiver)
    requires r.Valid()
  {
    && r.isn.Some? && seg.header.ack && seg.header.ackno == Wrap(r.AbsAckno(), r.isn.value)
    && seg.header.win == Low16(r.WindowSize())
    && seg.header.seqno == Wrap(s.nextSeqno, s.isn) && seg.LengthInSequenceSpace() == 0 && !seg.header.rst
  }

  lemma ReachesAnswer(c: Conn, seg: Segment)
    requires c.Valid() && Reaches(c, seg)
    ensures Next(c, Arrive(seg)) == Answer(c.(sinceSegment := 0, rcv := R.Receive(c.rcv, seg).0), seg)
  {
    hide Answer, R.Receive;
  }

  /**
   * A segment that takes up numbers is answered: if nothing stays buffered, the last thing handed out acknowledges all
   * that the receiver now has.
   */
  lemma NumbersAnswered(c: Conn, seg: Segment)
    requires ConnInv(c) && Reaches(c, seg) && !seg.header.rst && 0 < seg.LengthInSequenceSpace()
    requires c.rcv.isn.Some? || seg.header.syn
    ensures var c' := Next(c, Arrive(seg));
            c'.snd.stream.Size() == 0 ==>
              && |c.out| < |c'.out| && c.out <= c'.out
              && Acknowledges(c'.out[|c'.out| - 1], c'.snd, c'.rcv)
  {
    hide AckReceived, R.Receive, ConnInv, Wrap, Low16;
    ReachesAnswer(c, seg);
    PeerKnown(c.rcv, seg);
    AckKeeps(c.snd, seg.header.ackno, seg.header.win);
    var d := c.(sinceSegment := 0, rcv := R.Receive(c.rcv, seg).0);
    var acked := AckReceived(c.snd, seg.header.ackno, seg.header.win);
    if acked.stream.Size() == 0 {
      LastStamped(d.(snd := SendEmpty(acked)), acked);
    }
  }

  lemma PeerKnown(r: R.Receiver, seg: Segment)
    requires r.Valid() && (r.isn.Some? || seg.header.syn)
    ensures R.Receive(r, seg).0.isn.Some?
  {
    hide Unwrap, Wrap;
  }

  lemma LastStamped(c: Conn, s: Sender)
    requires c.Valid() && s.Valid() && c.snd == SendEmpty(s) && c.rcv.isn.Some?
    ensures var f := Flush(c);
            && |c.out| < |f.out| && c.out <= f.out && f.rcv == c.rcv && f.snd == s.(queue := [])
            && Acknowledges(f.out[|f.out| - 1], f.snd, f.rcv)
  {
    hide Wrap, Low16;
    var all := StampAll(c, c.snd.queue);
    assert all[|all| - 1] == Stamp(c, c.snd.queue[|all| - 1]);
  }

  /**
   * Exactly when a segment that takes up numbers is answered at all: something was queued already, nothing stays
   * buffered, or the acknowledgement lets something be sent. Otherwise the data behind a full window waits, and so does
   * the acknowledgement.
   */
  lemma AnsweredExactly(c: Conn, seg: Segment)
    requires ConnInv(c) && Reaches(c, seg) && !seg.header.rst && 0 < seg.LengthInSequenceSpace()
    ensures var c' := Next(c, Arrive(seg));
            var abs := Unwrap(seg.header.ackno, c.snd.isn, c.snd.nextSeqno);
            |c.out| < |c'.out| <==>
              || c.snd.queue != [] || c'.snd.stream.Size() == 0
              || (AckValid(c.snd, abs) && CanSend(Settle(c.snd, abs, seg.header.win)))
  {
    hide FillWindow, Settle, CanSend, R.Receive, Unwrap, Inv, BackedOff, Quiet, Stamp;
    ReachesAnswer(c, seg);
    AckKeeps(c.snd, seg.header.ackno, seg.header.win);
    var abs := Unwrap(seg.header.ackno, c.snd.isn, c.snd.nextSeqno);
    InvValid(c.snd);
    if AckValid(c.snd, abs) {
      SettleInv(c.snd, abs, seg.header.win);
      SettleContext(c.snd, abs, seg.header.win);
      CanSendSends(Settle(c.snd, abs, seg.header.win));
    }
  }

  // ----- the handshake -----

  /** A listening end answers a SYN with its own, acknowledging it, and nothing else with anything. */
  lemma ListenerAnswers(c: Conn, seg: Segment)
    requires ConnInv(c) && c.active && Listening(c)
    ensures var c' := Next(c, Arrive(seg));
            if !seg.header.syn then c' == c.(sinceSegment := 0) else
            && c'.snd.nextSeqno == 1 && c'.snd.outstanding == [SYN]
            && (c.snd.queue == [] ==>
                  && |c'.out| == |c.out| + 1 && c.out <= c'.out
                  && Carries(c'.out[|c.out|], SYN, c.snd.isn)
                  && c'.out[|c.out|].header.ack && c'.rcv.isn == Some(seg.header.seqno)
                  && c'.out[|c.out|].header.ackno == Wrap(c'.rcv.AbsAckno(), seg.header.seqno))
  {
    hide BackedOff, Quiet, R.Place, Unwrap, Wrap, Low16;
    if seg.header.syn {
      InvTiles(c.snd);
      TilesTotal(c.snd.outstanding, c.snd.Una(), c.snd.nextSeqno);
      PeerNamed(c.rcv, seg);
      var d := c.(sinceSegment := 0, rcv := R.Receive(c.rcv, seg).0, snd := FillWindow(c.snd));
      assert c.snd.nextSeqno == 0 && !c.snd.synSent;
      assert FillWindow(c.snd).queue == c.snd.queue + [SYN];
      if c.snd.queue == [] {
        assert StampAll(d, [SYN]) == [Stamp(d, SYN)];
      }
    }
  }

  lemma PeerNamed(r: R.Receiver, seg: Segment)
    requires r.Valid() && r.isn.None? && seg.header.syn
    ensures R.Receive(r, seg).0.isn == Some(seg.header.seqno)
  {
    hide Unwrap;
  }

  /** What an end that waits for its peer's SYN does with what its filters catch. */
  lemma SynSentFilters(c: Conn, seg: Segment)
    requires ConnInv(c) && c.active && SynSent(c) && !Reaches(c, seg)
    ensures var c', d := Next(c, Arrive(seg)), c.(sinceSegment := 0);
            if seg.payload != [] || (!seg.header.ack && !seg.header.syn) then c' == d
            else if !seg.header.ack then
              && c'.rcv == R.Receive(c.rcv, seg).0 && c'.rcv.isn == Some(seg.header.seqno)
              && c'.out == c.out && c'.active && c'.snd.outstanding == c.snd.outstanding
              && |c'.snd.queue| == |c.snd.queue| + 1 && c.snd.queue <= c'.snd.queue
              && c'.snd.queue[|c.snd.queue|] == AbsSegment(c.snd.nextSeqno, false, false, [])
            else !c'.active && c'.out == c.out && c'.snd.stream.error && c'.rcv.reasm.out.error
  {
    hide R.Receive, BackedOff, Quiet, Inv;
    if seg.header.syn { PeerNamed(c.rcv, seg); }
  }

  /** A reset ends an established connection at once; one segment goes out, itself a reset. */
  lemma ResetEnds(c: Conn, seg: Segment)
    requires ConnInv(c) && Reaches(c, seg) && seg.header.rst
    ensures var c' := Next(c, Arrive(seg));
            && !c'.active && c'.snd.stream.error && c'.rcv.reasm.out.error
            && |c'.out| == |c.out| + 1 && c.out <= c'.out && c'.out[|c.out|].header.rst && c'.out[|c.out|].header.ack
  {
    hide AckReceived, R.Receive, ConnInv, Wrap, Low16;
    ReachesAnswer(c, seg);
  }

  /** So does the destructor. */
  lemma DestructorResets(c: Conn)
    requires c.Valid()
    ensures var c' := Next(c, Destroy);
            if !c.active then c' == c else
            && !c'.active && c'.snd.stream.error && c'.rcv.reasm.out.error
            && |c'.out| == |c.out| + 1 && c.out <= c'.out && c'.out[|c.out|].header.rst
  {
    hide Wrap, Low16;
  }

  /** What can still happen to a connection whose owner has stopped writing to it. */
  predicate FromOutside(e: Event) {
    e.Arrive? || e.Pass? || e.Collect? || e.Destroy?
  }

  /** A dead connection is silent: whatever arrives and however long it waits, nothing is handed out any more. */
  lemma {:induction false} DeadIsSilent(c: Conn, evs: seq<Event>)
    requires c.Valid() && !c.active && forall e <- evs :: FromOutside(e)
    ensures Run(c, evs) == if exists e <- evs :: e.Collect? then c.(out := []) else c
  {
    hide FromOutside, Next;
    if evs != [] {
      var init, e := evs[..|evs| - 1], evs[|evs| - 1];
      DeadIsSilent(c, init);
      assert e in evs && FromOutside(e);
      assert evs == init + [e];
      DeadNext(c, e);
      DeadNext(c.(out := []), e);
      if f :| f in init && f.Collect? { assert f in evs; }
    }
  }

  lemma DeadNext(c: Conn, e: Event)
    requires c.Valid() && !c.active && FromOutside(e)
    ensures Next(c, e) == if e.Collect? then c.(out := []) else c
  {
  }

  // ----- what the owner's calls hand out -----

  /** The owner's calls hand out, in order, exactly what they make outstanding, behind what was queued. */
  lemma CallsHandOut(c: Conn, e: Event)
    requires ConnInv(c) && Transmits(c, e) && (e.Open? || e.Send? || e.Finish?)
    ensures var c' := Next(c, e);
            && c.snd.outstanding <= c'.snd.outstanding
            && c'.out == c.out + StampAll(c', c.snd.queue + c'.snd.outstanding[|c.snd.outstanding|..])
  {
    hide Inv, FillWindow, Flush, BackedOff, Quiet, StampAll;
    InvValid(c.snd);
    match e
    case Open => FilledHandsOut(c, c.snd);
    case Send(data) => WriteInv(c.snd, data); FilledHandsOut(c, c.snd.Write(data));
    case Finish => EndInv(c.snd); FilledHandsOut(c, c.snd.EndInput());
  }

  lemma FilledHandsOut(c: Conn, t: Sender)
    requires c.Valid() && Inv(t) && t == c.snd.(stream := t.stream)
    ensures c.(snd := FillWindow(t)).Valid()
    ensures var c' := Flush(c.(snd := FillWindow(t)));
            && c.snd.outstanding <= c'.snd.outstanding
            && c'.out == c.out + StampAll(c', c.snd.queue + c'.snd.outstanding[|c.snd.outstanding|..])
  {
    hide Inv, FillWindow, Stamp, SameContext;
    InvValid(t);
    FillInv(t);
    FillKeeps(t);
    var f := FillWindow(t);
    assert f.isn == t.isn by { FillMoves(t); }
    assert f.queue == c.snd.queue + f.outstanding[|t.outstanding|..];
    StampAllSame(c.(snd := f), Flush(c.(snd := f)), f.queue);
  }

  lemma {:induction false} StampAllSame(c: Conn, d: Conn, q: seq<AbsSegment>)
    requires c.rcv.Valid() && d.rcv == c.rcv && d.snd.isn == c.snd.isn
    ensures StampAll(d, q) == StampAll(c, q)
  {
    hide Stamp;
    forall i | 0 <= i < |q| ensures StampAll(d, q)[i] == StampAll(c, q)[i] { StampSame(c, d, q[i]); }
  }

  /** A tick that does not give up hands out what was queued, and the oldest segment again if the timer goes off. */
  lemma TickHandsOut(c: Conn, ms: nat)
    requires ConnInv(c) && c.active && Tick(c.snd, ms).retx <= MAX_RETX_ATTEMPTS
    ensures Elapse(c, ms).out
            == c.out + StampAll(c, c.snd.queue + (if Expires(c.snd, ms) then [c.snd.outstanding[0]] else []))
    ensures Elapse(c, ms).snd.queue == []
  {
    hide Inv, Tick, Expires, BackedOff, Quiet, Stamp, StampAll, Flush;
    TickFields(c.snd, ms);
    var t := c.(sinceSegment := c.sinceSegment + ms, snd := Tick(c.snd, ms));
    assert c.snd.queue + [] == c.snd.queue;
    FlushHandsOut(t);
    FlushKeeps(t);
    StampAllSame(c, Flush(t), t.snd.queue);
  }

  /** So with nothing queued it is the oldest segment alone. */
  lemma OldestAgain(c: Conn, ms: nat)
    requires ConnInv(c) && c.active && c.snd.queue == [] && Expires(c.snd, ms)
    requires Tick(c.snd, ms).retx <= MAX_RETX_ATTEMPTS
    ensures c.snd.outstanding != [] && Elapse(c, ms).out == c.out + [Stamp(c, c.snd.outstanding[0])]
  {
    hide Inv, Tick, Expires, BackedOff, Quiet, Stamp, StampAll, Elapse;
    InvTiles(c.snd);
    ExpiresExactly(c.snd, ms);
    TickHandsOut(c, ms);
    var u := c.snd.outstanding[0];
    StampFront(c, [u]);
    StampFront(c, []);
    assert c.snd.queue + [u] == [u] && [u][1..] == [];
  }

  /** How many of the outstanding segments an acknowledgement leaves. */
  function Kept(s: Sender, abs: nat): nat {
    if AckValid(s, abs) then |DropAcked(s.outstanding, abs)| else |s.outstanding|
  }

  /**
   * An arrival hands out, in order, what was queued, what it makes outstanding, and, if the segment took up numbers
   * and nothing is left to send, an empty segment at the next number.
   */
  lemma ArrivalHandsOut(c: Conn, seg: Segment)
    requires ConnInv(c) && Reaches(c, seg) && !seg.header.rst
    ensures var c', k := Next(c, Arrive(seg)), Kept(c.snd, Unwrap(seg.header.ackno, c.snd.isn, c.snd.nextSeqno));
            var answer := if c'.snd.stream.Size() == 0 && 0 < seg.LengthInSequenceSpace()
                          then [AbsSegment(c'.snd.nextSeqno, false, false, [])] else [];
            && k <= |c'.snd.outstanding|
            && c'.out == c.out + StampAll(c', c.snd.queue + c'.snd.outstanding[k..] + answer)
  {
    hide AckReceived, R.Receive, Unwrap, Inv, BackedOff, Quiet, Stamp, Kept, Flush;
    ReachesAnswer(c, seg);
    var s := c.snd;
    AckKeeps(s, seg.header.ackno, seg.header.win);
    AckAdds(s, seg.header.ackno, seg.header.win);
    var acked := AckReceived(s, seg.header.ackno, seg.header.win);
    var d := c.(sinceSegment := 0, rcv := R.Receive(c.rcv, seg).0);
    var k := Kept(s, Unwrap(seg.header.ackno, s.isn, s.nextSeqno));
    assert s.queue + acked.outstanding[k..] + [] == s.queue + acked.outstanding[k..];
    FlushHandsOut(d.(snd := acked));
    FlushHandsOut(d.(snd := SendEmpty(acked)));
  }

  lemma FlushHandsOut(d: Conn)
    requires d.Valid()
    ensures Flush(d).out == d.out + StampAll(Flush(d), d.snd.queue)
    ensures Flush(d).snd == d.snd.(queue := [])
  {
    hide Stamp;
    StampAllSame(d, Flush(d), d.snd.queue);
  }

  lemma AckAdds(s: Sender, ackno: U32, win: U16)
    requires Inv(s)
    ensures var k, t := Kept(s, Unwrap(ackno, s.isn, s.nextSeqno)), AckReceived(s, ackno, win);
            k <= |t.outstanding| && t.queue == s.queue + t.outstanding[k..]
  {
    hide Inv, FillWindow, Settle, Unwrap, DropAcked, SameContext;
    InvValid(s);
    var abs := Unwrap(ackno, s.isn, s.nextSeqno);
    if AckValid(s, abs) {
      SettleInv(s, abs, win);
      SettleFields(s, abs, win);
      FillInv(Settle(s, abs, win));
    }
  }

  /** Exactly when a tick gives up: the ninth counted retransmission in a row. */
  lemma GivesUpExactly(c: Conn, ms: nat)
    requires ConnInv(c) && c.active
    ensures Elapse(c, ms).snd.stream.error <==>
            c.snd.retx == 8 && Expires(c.snd, ms) && (c.snd.windowSize != 0 || SynOutstanding(c.snd))
    ensures Elapse(c, ms).snd.stream.error ==>
              && !Elapse(c, ms).active && |c.out| < |Elapse(c, ms).out| && Elapse(c, ms).out[|c.out|].header.rst
  {
    hide Inv, Tick, Expires, BackedOff, Quiet, Stamp, Flush;
    InvTiles(c.snd);
    TickFields(c.snd, ms);
    ExpiresExactly(c.snd, ms);
    var t := c.(sinceSegment := c.sinceSegment + ms, snd := Tick(c.snd, ms));
    var u := if t.snd.retx > MAX_RETX_ATTEMPTS then Unclean(t) else t;
    FlushKeeps(u);
    FlushResets(u);
    if !u.active { FlushDead(u); }
  }

  /** `write` takes what the stream has room for, and says how much. */
  lemma WriteTakes(c: Conn, data: seq<Byte>)
    requires ConnInv(c)
    ensures var (c', n) := Write(c, data);
            && n == Min(|data|, c.snd.stream.Room())
            && c'.snd.stream.written == c.snd.stream.written + data[..n]
            && c'.rcv == c.rcv
  {
    hide Inv, FillWindow, Flush, BackedOff, Quiet, Appends;
    InvValid(c.snd);
    var w := c.snd.Write(data);
    WriteInv(c.snd, data);
    FillInv(w);
    FillKeeps(w);
    FlushKeeps(c.(snd := FillWindow(w)));
  }

  // ----- nothing is held back -----

  /** Everything handed out in a run, in order. */
  function HandedOut(c: Conn, evs: seq<Event>): seq<Segment>
    requires c.Valid()
  {
    if evs == [] then [] else
    var init := Run(c, evs[..|evs| - 1]);
    HandedOut(c, evs[..|evs| - 1]) + Handed(init, Next(init, evs[|evs| - 1]))
  }

  ghost predicate Sent(u: AbsSegment, log: seq<Segment>, isn: U32) {
    exists seg <- log :: Carries(seg, u, isn)
  }

  /** While the connection is active, all that is outstanding has been handed out, and only empty segments wait. */
  ghost predicate AllSent(c: Conn, log: seq<Segment>) {
    c.active ==>
      && (forall u <- c.snd.outstanding :: Sent(u, log, c.snd.isn))
      && (forall u <- c.snd.queue :: u.Length() == 0)
  }

  /** What a call leaves outstanding was outstanding before, or was queued by it. */
  ghost predicate Queued(s: Sender, t: Sender) {
    && (forall u <- t.outstanding :: u in s.outstanding || u in t.queue)
    && (forall u <- t.queue :: u in s.queue || u in t.outstanding || u.Length() == 0)
  }

  lemma FillQueued(s: Sender)
    requires Inv(s)
    ensures Queued(s, FillWindow(s))
  {
    hide Inv, FillWindow, SameContext;
    InvValid(s);
    FillInv(s);
    var t := FillWindow(s);
    forall u | u in t.outstanding ensures u in s.outstanding || u in t.queue {
      var i :| 0 <= i < |t.outstanding| && t.outstanding[i] == u;
      if |s.outstanding| <= i { assert u == t.queue[|s.queue|..][i - |s.outstanding|]; }
    }
    forall u | u in t.queue ensures u in s.queue || u in t.outstanding {
      var i :| 0 <= i < |t.queue| && t.queue[i] == u;
      if |s.queue| <= i { assert u == t.outstanding[|s.outstanding|..][i - |s.queue|]; }
    }
  }

  lemma AckQueued(s: Sender, ackno: U32, win: U16)
    requires Inv(s)
    ensures Queued(s, AckReceived(s, ackno, win))
  {
    hide Inv, FillWindow, Settle, Unwrap, DropAcked, Queued;
    InvValid(s);
    var abs := Unwrap(ackno, s.isn, s.nextSeqno);
    if AckValid(s, abs) {
      SettleInv(s, abs, win);
      SettleFields(s, abs, win);
      DropAckedIsSuffix(s.outstanding, abs);
      FillQueued(Settle(s, abs, win));
      QueuedBehind(s, Settle(s, abs, win), AckReceived(s, ackno, win));
    } else {
      QueuedSame(s);
    }
  }

  lemma QueuedSame(s: Sender)
    ensures Queued(s, s)
  {
  }

  lemma QueuedBehind(s: Sender, t: Sender, t': Sender)
    requires Queued(t, t') && t.queue == s.queue && forall u <- t.outstanding :: u in s.outstanding
    ensures Queued(s, t')
  {
  }

  /** Flushing what a call queued keeps the promise. */
  lemma FlushSends(c: Conn, d: Conn, log: seq<Segment>)
    requires c.Valid() && d.Valid() && d.out == c.out && d.snd.isn == c.snd.isn && c.active && AllSent(c, log)
    requires Queued(c.snd, d.snd)
    ensures AllSent(Flush(d), log + Handed(c, Flush(d)))
  {
    hide Stamp, Carries;
    var f := Flush(d);
    var all := StampAll(d, d.snd.queue);
    assert Handed(c, f) == all;
    forall u | u in f.snd.outstanding ensures Sent(u, log + all, c.snd.isn) {
      if u in d.snd.queue {
        var i :| 0 <= i < |d.snd.queue| && d.snd.queue[i] == u;
        StampCarries(d, u);
        assert Carries(all[i], u, c.snd.isn) && all[i] in log + all;
      } else {
        SentStays(u, log, all, c.snd.isn);
      }
    }
  }

  lemma StampCarries(c: Conn, u: AbsSegment)
    requires c.rcv.Valid()
    ensures Carries(Stamp(c, u), u, c.snd.isn)
  {
    hide Wrap, Low16;
  }

  lemma SentStays(u: AbsSegment, log: seq<Segment>, more: seq<Segment>, isn: U32)
    requires Sent(u, log, isn)
    ensures Sent(u, log + more, isn)
  {
    hide Carries;
    var seg :| seg in log && Carries(seg, u, isn);
    assert seg in log + more;
  }

  lemma AllSentStays(c: Conn, c': Conn, log: seq<Segment>, more: seq<Segment>)
    requires AllSent(c, log) && c'.snd.isn == c.snd.isn && c'.snd.outstanding == c.snd.outstanding
    requires c'.active ==> c.active && forall u <- c'.snd.queue :: u in c.snd.queue || u.Length() == 0
    ensures AllSent(c', log + more)
  {
    hide Sent;
    if c'.active {
      forall u | u in c'.snd.outstanding ensures Sent(u, log + more, c.snd.isn) { SentStays(u, log, more, c.snd.isn); }
    }
  }

  lemma AnswerSends(c: Conn, d: Conn, seg: Segment, log: seq<Segment>)
    requires ConnInv(c) && c.active && AllSent(c, log) && d.Valid() && d.snd == c.snd && d.out == c.out
    ensures AllSent(Answer(d, seg), log + Handed(c, Answer(d, seg)))
  {
    hide AckReceived, Flush, AllSent, Inv, BackedOff, Quiet;
    AckQueued(c.snd, seg.header.ackno, seg.header.win);
    AckKeeps(c.snd, seg.header.ackno, seg.header.win);
    AckIsn(c.snd, seg.header.ackno, seg.header.win);
    var acked := AckReceived(c.snd, seg.header.ackno, seg.header.win);
    if seg.header.rst {
      Dead(Answer(d, seg), log + Handed(c, Answer(d, seg)));
    } else if acked.stream.Size() == 0 && seg.LengthInSequenceSpace() > 0 {
      FlushSends(c, d.(snd := SendEmpty(acked)), log);
    } else {
      FlushSends(c, d.(snd := acked), log);
    }
  }

  lemma Dead(c: Conn, log: seq<Segment>)
    requires !c.active
    ensures AllSent(c, log)
  {
  }

  lemma AckIsn(s: Sender, ackno: U32, win: U16)
    requires Inv(s)
    ensures AckReceived(s, ackno, win).isn == s.isn
  {
    hide Inv, AckAbs, Unwrap;
    InvValid(s);
    AckInv(s, Unwrap(ackno, s.isn, s.nextSeqno), win);
  }

  lemma ArriveSends(c: Conn, seg: Segment, log: seq<Segment>)
    requires ConnInv(c) && c.active && AllSent(c, log)
    ensures AllSent(Next(c, Arrive(seg)), log + Handed(c, Next(c, Arrive(seg))))
  {
    hide R.Receive, Answer, AllSent, FillWindow, Flush, Inv, BackedOff, Quiet;
    var d := c.(sinceSegment := 0, rcv := R.Receive(c.rcv, seg).0);
    var c' := Next(c, Arrive(seg));
    if Listening(c) && seg.header.syn {
      FillSends(c, d.(snd := FillWindow(c.snd)), c.snd, log);
    } else if Reaches(c, seg) {
      AnswerSends(c, d, seg, log);
    } else {
      AllSentStays(c, c', log, Handed(c, c'));
    }
  }

  lemma FillSends(c: Conn, d: Conn, t: Sender, log: seq<Segment>)
    requires ConnInv(c) && c.active && AllSent(c, log) && Inv(t) && t.retx == c.snd.retx && t.isn == c.snd.isn
    requires t.outstanding == c.snd.outstanding && t.queue == c.snd.queue
    requires d.rcv.Valid() && d.snd == FillWindow(t) && d.out == c.out
    ensures d.Valid() && AllSent(Flush(d), log + Handed(c, Flush(d)))
  {
    hide AllSent, FillWindow, Flush, Inv, BackedOff, Quiet, Appends;
    InvValid(t);
    FillInv(t);
    FillQueued(t);
    FlushSends(c, d, log);
  }

  lemma PassSends(c: Conn, ms: nat, log: seq<Segment>)
    requires ConnInv(c) && c.active && AllSent(c, log)
    ensures AllSent(Elapse(c, ms), log + Handed(c, Elapse(c, ms)))
  {
    hide AllSent, Tick, Flush, Inv, BackedOff, Quiet;
    TickFields(c.snd, ms);
    InvTiles(c.snd);
    var t := c.(sinceSegment := c.sinceSegment + ms, snd := Tick(c.snd, ms));
    if t.snd.retx > MAX_RETX_ATTEMPTS {
      FlushDead(Unclean(t));
      Dead(Elapse(c, ms), log + Handed(c, Elapse(c, ms)));
    } else {
      FlushSends(c, t, log);
    }
  }

  lemma FlushDead(c: Conn)
    requires c.Valid() && !c.active
    ensures !Flush(c).active
  {
  }

  lemma NextSends(c: Conn, e: Event, log: seq<Segment>)
    requires ConnInv(c) && AllSent(c, log)
    ensures AllSent(Next(c, e), log + Handed(c, Next(c, e)))
  {
    hide AllSent, FillWindow, Flush, Elapse, Handle, Inv, BackedOff, Quiet;
    var c' := Next(c, e);
    InvValid(c.snd);
    StaysDead(c, e);
    if !c'.active {
      Dead(c', log + Handed(c, c'));
    } else {
      match e
      case Open => FillSends(c, c.(snd := FillWindow(c.snd)), c.snd, log);
      case Send(data) =>
        var w := c.snd.Write(data);
        WriteInv(c.snd, data);
        if data != [] {
          FillSends(c, c.(snd := FillWindow(w)), w, log);
        } else {
          AllSentStays(c, c', log, Handed(c, c'));
        }
      case Finish =>
        EndInv(c.snd);
        FillSends(c, c.(snd := FillWindow(c.snd.EndInput())), c.snd.EndInput(), log);
      case Arrive(seg) => ArriveSends(c, seg, log);
      case Pass(ms) => PassSends(c, ms, log);
      case Take(len) => AllSentStays(c, c', log, Handed(c, c'));
      case Collect => AllSentStays(c, c', log, Handed(c, c'));
      case Destroy => AllSentStays(c, c', log, Handed(c, c'));
    }
  }

  /**
   * Nothing is held back: in every run of an active connection, everything the sender counts as outstanding has been
   * handed out, and after every call that transmits nothing is left in its queue.
   */
  lemma {:induction false} NothingHeldBack(c: Conn, evs: seq<Event>)
    requires ConnInv(c) && AllSent(c, [])
    ensures AllSent(Run(c, evs), HandedOut(c, evs))
    ensures evs != [] && Transmits(Run(c, evs[..|evs| - 1]), evs[|evs| - 1]) ==> Run(c, evs).snd.queue == []
  {
    hide ConnInv, Next, AllSent;
    if evs != [] {
      var init := evs[..|evs| - 1];
      NothingHeldBack(c, init);
      RunInv(c, init);
      NextSends(Run(c, init), evs[|evs| - 1], HandedOut(c, init));
      if Transmits(Run(c, init), evs[|evs| - 1]) { QueueEmptied(Run(c, init), evs[|evs| - 1]); }
    }
  }

  // ----- nothing is owed -----

  lemma {:induction false} LoopExhausts(s: Sender)
    requires s.Valid() && s.synSent && HasWork(s) && !s.finSent
    ensures var s' := FillLoop(s);
            && s'.windowSize == s.windowSize
            && (s'.freeSpace == 0 || (s'.stream.Size() == 0 && (s'.stream.ended ==> s'.finSent)))
    decreases s.freeSpace
  {
    hide SendSegment, Low16;
    if s.freeSpace > 0 {
      var t := SendData(s, PayloadSize(s), FinFits(s));
      TurnShrinks(s);
      TurnEnds(s);
      if t.stream.Size() > 0 { LoopExhausts(t); }
    }
  }

  lemma TurnEnds(s: Sender)
    requires s.Valid() && s.synSent && HasWork(s) && !s.finSent && s.freeSpace > 0
    ensures var t := SendData(s, PayloadSize(s), FinFits(s));
            && t.windowSize == s.windowSize && (t.finSent ==> t.stream.Size() == 0)
            && (t.stream.Size() == 0 ==> t.freeSpace == 0 || (t.stream.ended ==> t.finSent))
  {
  }

  /** Once the window has been filled, filling it again would send nothing. */
  lemma FillExhausts(s: Sender)
    requires Inv(s)
    ensures !CanSend(FillWindow(s))
  {
    hide Inv, FillLoop, SendData, Appends, Low16;
    InvTiles(s);
    FillInv(s);
    FrontSyn(s);
    FrontSyn(FillWindow(s));
    TilesTotal(s.outstanding, s.Una(), s.nextSeqno);
    if s.synSent && !SynOutstanding(s) && HasWork(s) && !s.finSent && s.windowSize != 0 { LoopExhausts(s); }
    if s.synSent && HasWork(s) && s.freeSpace == 0 { ProbeExhausts(s); }
  }

  lemma ProbeExhausts(s: Sender)
    requires s.Valid() && s.synSent && HasWork(s) && s.freeSpace == 0
    ensures SendData(s, Min(1, s.stream.Size()), s.stream.Eof()).freeSpace != 0
  {
    hide SendSegment;
    var n := Min(1, s.stream.Size());
    var payload := s.stream.Buffered()[..n];
    SendFields(s.(stream := s.stream.Read(n), finSent := s.finSent || s.stream.Eof()), false, s.stream.Eof(), payload);
    assert |payload| == n;
  }

  /** A sender that has opened owes the peer nothing it could send now. */
  predicate Exhausted(s: Sender)
    requires s.Valid()
  {
    s.synSent ==> !CanSend(s)
  }

  lemma ExhaustedSame(s: Sender, t: Sender)
    requires s.Valid() && t.Valid() && t.synSent == s.synSent && t.finSent == s.finSent
    requires t.outstanding == s.outstanding && t.windowSize == s.windowSize && t.freeSpace == s.freeSpace
    requires t.stream.(error := s.stream.error) == s.stream
    ensures Exhausted(t) == Exhausted(s)
  {
  }

  lemma FilledExhausts(c: Conn, t: Sender)
    requires Inv(t) && c.Valid() && c.snd == FillWindow(t)
    ensures Exhausted(Flush(c).snd)
  {
    hide Inv, FillWindow, Flush, Exhausted;
    InvValid(t);
    FlushKeeps(c);
    FillExhausts(t);
    assert Exhausted(c.snd) by { NotOwing(c.snd); }
    ExhaustedSame(c.snd, Flush(c).snd);
  }

  lemma NotOwing(s: Sender)
    requires s.Valid() && !CanSend(s)
    ensures Exhausted(s)
  {
  }

  lemma AckExhausts(s: Sender, ackno: U32, win: U16)
    requires Inv(s) && Exhausted(s)
    ensures Exhausted(AckReceived(s, ackno, win))
  {
    hide Inv, FillWindow, Settle, Unwrap, CanSend;
    InvValid(s);
    var abs := Unwrap(ackno, s.isn, s.nextSeqno);
    if AckValid(s, abs) {
      SettleInv(s, abs, win);
      FillExhausts(Settle(s, abs, win));
    }
  }

  lemma ArriveExhausts(c: Conn, seg: Segment)
    requires ConnInv(c) && Exhausted(c.snd)
    ensures Exhausted(Next(c, Arrive(seg)).snd)
  {
    hide FillWindow, Flush, Answer, R.Receive, Inv, BackedOff, Quiet, Exhausted;
    var d := c.(sinceSegment := 0, rcv := R.Receive(c.rcv, seg).0);
    var s' := Next(c, Arrive(seg)).snd;
    if c.active && Listening(c) && seg.header.syn {
      FillKeeps(c.snd);
      FilledExhausts(d.(snd := FillWindow(c.snd)), c.snd);
    } else if Reaches(c, seg) {
      ReachesAnswer(c, seg);
      AnswerExhausts(d, seg);
    } else {
      ExhaustedSame(c.snd, s');
    }
  }

  lemma AnswerExhausts(c: Conn, seg: Segment)
    requires c.Valid() && Inv(c.snd) && Exhausted(c.snd)
    ensures Exhausted(Answer(c, seg).snd)
  {
    hide Answer, AckReceived, Inv, Exhausted;
    AckExhausts(c.snd, seg.header.ackno, seg.header.win);
    AnswerSender(c, seg);
    ExhaustedSame(AckReceived(c.snd, seg.header.ackno, seg.header.win), Answer(c, seg).snd);
  }

  lemma AnswerSender(c: Conn, seg: Segment)
    requires c.Valid()
    ensures Endpoints.OnlyMarks(AckReceived(c.snd, seg.header.ackno, seg.header.win), Answer(c, seg).snd)
  {
    hide Flush, Unclean, AckReceived, Endpoints.OnlyMarks;
    AckKeeps(c.snd, seg.header.ackno, seg.header.win);
    var acked := AckReceived(c.snd, seg.header.ackno, seg.header.win);
    var answered := if acked.stream.Size() == 0 && seg.LengthInSequenceSpace() > 0 then SendEmpty(acked) else acked;
    if seg.header.rst {
      UncleanSender(c.(snd := SendEmpty(answered)), acked);
    } else {
      FlushSender(c.(snd := answered), acked);
    }
  }

  lemma FlushSender(c: Conn, s: Sender)
    requires c.Valid() && c.snd == s.(queue := c.snd.queue)
    ensures Endpoints.OnlyMarks(s, Flush(c).snd)
  {
    hide StampAll;
  }

  lemma UncleanSender(c: Conn, s: Sender)
    requires c.snd.Valid() && c.rcv.Valid() && c.snd.queue != [] && c.snd == s.(queue := c.snd.queue)
    ensures Endpoints.OnlyMarks(s, Unclean(c).snd)
  {
    hide ResetOf;
  }

  lemma PassExhausts(c: Conn, ms: nat)
    requires ConnInv(c) && Exhausted(c.snd)
    ensures Exhausted(Elapse(c, ms).snd)
  {
    hide Flush, Tick, Inv, BackedOff, Quiet, Exhausted;
    if c.active {
      TickFields(c.snd, ms);
      var t := c.(sinceSegment := c.sinceSegment + ms, snd := Tick(c.snd, ms));
      FlushKeeps(if t.snd.retx > MAX_RETX_ATTEMPTS then Unclean(t) else t);
      ExhaustedSame(c.snd, Elapse(c, ms).snd);
    }
  }

  lemma NextExhausts(c: Conn, e: Event)
    requires ConnInv(c) && Exhausted(c.snd)
    ensures Exhausted(Next(c, e).snd)
  {
    hide FillWindow, Flush, SegmentReceived, Elapse, Inv, BackedOff, Quiet, Exhausted;
    InvValid(c.snd);
    match e
    case Open =>
      FillKeeps(c.snd);
      FilledExhausts(c.(snd := FillWindow(c.snd)), c.snd);
    case Send(data) =>
      var w := c.snd.Write(data);
      WriteInv(c.snd, data);
      FillKeeps(w);
      FilledExhausts(c.(snd := FillWindow(w)), w);
    case Finish =>
      EndInv(c.snd);
      FillKeeps(c.snd.EndInput());
      FilledExhausts(c.(snd := FillWindow(c.snd.EndInput())), c.snd.EndInput());
    case Arrive(seg) => ArriveExhausts(c, seg);
    case Pass(ms) => PassExhausts(c, ms);
    case Take(len) =>
    case Collect =>
    case Destroy => ExhaustedSame(c.snd, Close(c).snd);
  }

  /**
   * Nothing is owed: in every run, an end that has sent its SYN has nothing buffered that the window lets through, no
   * FIN that fits, and no window probe due.
   */
  lemma {:induction false} NothingOwed(c: Conn, evs: seq<Event>)
    requires ConnInv(c) && Exhausted(c.snd)
    ensures Exhausted(Run(c, evs).snd)
    ensures evs != [] && (evs[|evs| - 1].Open? || evs[|evs| - 1].Finish?) ==> Run(c, evs).snd.synSent
  {
    hide ConnInv, Next, Exhausted;
    if evs != [] {
      var init, e := evs[..|evs| - 1], evs[|evs| - 1];
      NothingOwed(c, init);
      RunInv(c, init);
      NextExhausts(Run(c, init), e);
      if e.Open? || e.Finish? { OpensAtOnce(Run(c, init), e); }
    }
  }

  lemma OpensAtOnce(c: Conn, e: Event)
    requires ConnInv(c) && (e.Open? || e.Finish?)
    ensures Next(c, e).snd.synSent
  {
    hide Inv, FillWindow, Flush, Appends, BackedOff, Quiet;
    InvValid(c.snd);
    EndInv(c.snd);
    var t := if e.Open? then c.snd else c.snd.EndInput();
    FillInv(t);
    FillKeeps(t);
    FlushKeeps(c.(snd := FillWindow(t)));
  }

  // ----- resets -----

  /** What flushing adds are no resets. */
  lemma FlushResets(d: Conn)
    requires d.Valid()
    ensures var f := Flush(d);
            && d.out <= f.out && (Failed(f) <==> Failed(d))
            && forall i :: |d.out| <= i < |f.out| ==> !f.out[i].header.rst
  {
    hide Stamp;
    var q := d.snd.queue;
    forall i | 0 <= i < |q| ensures !StampAll(d, q)[i].header.rst { StampNoReset(d, q[i]); }
    assert Flush(d).out == d.out + StampAll(d, q);
  }

  lemma StampNoReset(c: Conn, u: AbsSegment)
    requires c.rcv.Valid()
    ensures !Stamp(c, u).header.rst
  {
    hide Wrap, Low16;
  }

  lemma FilledResets(c: Conn, d: Conn, t: Sender)
    requires Inv(t) && d.Valid() && d.snd == FillWindow(t) && d.out == c.out && (c.active ==> !t.stream.error)
    ensures var f := Flush(d);
            && c.out <= f.out && (c.active ==> !Failed(f))
            && forall i :: |c.out| <= i < |f.out| ==> !f.out[i].header.rst
  {
    hide Inv, FillWindow, Flush;
    InvValid(t);
    FillError(t);
    FlushResets(d);
  }

  lemma AnswerResets(c: Conn, seg: Segment)
    requires Steady(c.snd) && c.Valid() && !c.snd.stream.error
    ensures var a := Answer(c, seg);
            && c.out <= a.out && (Failed(a) <==> seg.header.rst)
            && forall i :: |c.out| <= i < |a.out| ==> (a.out[i].header.rst <==> i == |c.out| && seg.header.rst)
  {
    hide AckReceived, Flush, Steady;
    AckKeeps(c.snd, seg.header.ackno, seg.header.win);
    AckSteady(c.snd, seg.header.ackno, seg.header.win);
    var acked := AckReceived(c.snd, seg.header.ackno, seg.header.win);
    FlushResets(c.(snd := acked));
    FlushResets(c.(snd := SendEmpty(acked)));
  }

  lemma PassResets(c: Conn, ms: nat)
    requires ConnInv(c)
    ensures var c' := Elapse(c, ms);
            && c.out <= c'.out
            && forall i :: |c.out| <= i < |c'.out| ==>
                 (c'.out[i].header.rst <==> i == |c.out| && c.active && Failed(c'))
  {
    hide Steady, Tick, Flush;
    TickFields(c.snd, ms);
    var t := c.(sinceSegment := c.sinceSegment + ms, snd := Tick(c.snd, ms));
    if c.active {
      if t.snd.retx > MAX_RETX_ATTEMPTS { FlushResets(Unclean(t)); } else { FlushResets(t); }
    }
  }

  /** A call hands out a reset exactly if it ends an active connection in failure, and then as its first segment. */
  lemma ResetsExactly(c: Conn, e: Event, i: nat)
    requires ConnInv(c) && !e.Collect? && |c.out| <= i < |Next(c, e).out|
    ensures Next(c, e).out[i].header.rst <==> i == |c.out| && c.active && Failed(Next(c, e))
  {
    hide FillWindow, Flush, Answer, R.Receive, Elapse, Inv, BackedOff, Quiet;
    InvValid(c.snd);
    match e
    case Open =>
      FillKeeps(c.snd);
      FilledResets(c, c.(snd := FillWindow(c.snd)), c.snd);
    case Send(data) =>
      var w := c.snd.Write(data);
      WriteInv(c.snd, data);
      FillKeeps(w);
      FilledResets(c, c.(snd := FillWindow(w)), w);
    case Finish =>
      EndInv(c.snd);
      FillKeeps(c.snd.EndInput());
      FilledResets(c, c.(snd := FillWindow(c.snd.EndInput())), c.snd.EndInput());
    case Arrive(seg) => if c.active { ArriveResets(c, seg); }
    case Pass(ms) => PassResets(c, ms);
    case Take(len) =>
    case Destroy =>
  }

  lemma ArriveResets(c: Conn, seg: Segment)
    requires ConnInv(c) && c.active
    ensures var c' := Next(c, Arrive(seg));
            && c.out <= c'.out
            && forall i :: |c.out| <= i < |c'.out| ==> (c'.out[i].header.rst <==> i == |c.out| && Failed(c'))
  {
    hide FillWindow, Flush, Answer, R.Receive, Inv, BackedOff, Quiet;
    var d := c.(sinceSegment := 0, rcv := R.Receive(c.rcv, seg).0);
    if Listening(c) {
      FillKeeps(c.snd);
      FilledResets(c, d.(snd := FillWindow(c.snd)), c.snd);
    } else if Reaches(c, seg) {
      ReachesAnswer(c, seg);
      AnswerResets(d, seg);
    }
  }
}
