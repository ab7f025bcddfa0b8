/** The TCP receiver: what it does with a segment, and what its acknowledgements mean. */
module Receivers {
  import opened Basics
  import opened WrappingIntegers
  import opened Reassembly
  import opened StreamReassemblers
  import opened Segments

  datatype Receiver = Receiver(reasm: Reassembler, isn: Option<U32>, finAbsSeq: nat) {

    predicate Valid() {
      reasm.Valid()
    }

    /** The next absolute number wanted; the FIN has one too, once everything before it is written. */
    function AbsAckno(): nat {
      if reasm.Rpos() + 2 == finAbsSeq then finAbsSeq else reasm.Rpos() + 1
    }

    function Ackno(): Option<U32> {
      if isn.None? then None else Some(Wrap(AbsAckno(), isn.value))
    }

    function WindowSize(): nat
      requires Valid()
    {
      reasm.out.Room()
    }

    /** The number the window starts at: 0 while the SYN itself is awaited. */
    function Left(): nat {
      if isn.None? then 0 else AbsAckno()
    }

    function Read(len: nat): (r: Receiver)
      requires Valid()
      ensures r.Valid()
    {
      this.(reasm := reasm.(out := reasm.out.Read(len)))
    }
  }

  function FreshReceiver(capacity: nat): (r: Receiver)
    requires 0 < capacity
    ensures r.Valid()
  {
    Receiver(Reassembly.Fresh(capacity), None, 0)
  }

  /** `segment_received`, with the new state first and the returned flag second. */
  function Receive(r: Receiver, seg: Segment): (res: (Receiver, bool))
    requires r.Valid()
    ensures res.0.Valid()
  {
    var isn := if seg.header.syn && r.isn.None? then Some(seg.header.seqno) else r.isn;
    if isn.None? then (r, false) else
    Place(r.(isn := isn), seg, r.Left(), Unwrap(seg.header.seqno, isn.value, r.reasm.Rpos()))
  }

  /** The part after the absolute number is known: `left` is where the window started before this segment. */
  function Place(r: Receiver, seg: Segment, left: nat, abs: nat): (res: (Receiver, bool))
    requires r.Valid()
    ensures res.0.Valid()
  {
    var len := seg.LengthInSequenceSpace();
    var right := left + r.WindowSize();
    if r.finAbsSeq != 0 && abs >= r.finAbsSeq && len == 0 then
      (r, true)
    else if !(abs < right && abs + len > left) then
      (r, len == 0 && abs == left)
    else
      var fin := if abs + len <= right && seg.header.fin then abs + len else r.finAbsSeq;
      var index := if abs > 0 then abs - 1 else 0;
      (Receiver(Push(r.reasm, seg.payload, index, index + |seg.payload| + 2 == fin), r.isn, fin), true)
  }

  // ----- following one sender -----

  /**
   * The receiver holds nothing but slices of SYN, `sent`, FIN, and the two places where it
   * remembers the end of the stream agree with each other and with the sender.
   */
  predicate Tracks(r: Receiver, sent: seq<Byte>, finished: bool, isn: U32)
    ensures Tracks(r, sent, finished, isn) ==> r.Valid()
  {
    && r.Valid()
    && Agrees(r.reasm, sent)
    && (r.isn.Some? ==> r.isn.value == isn)
    && (r.isn.None? ==> r.reasm.Rpos() == 0 && r.reasm.out.nread == 0 && r.finAbsSeq == 0)
    && (r.finAbsSeq != 0 ==> finished && r.finAbsSeq == |sent| + 2)
    && r.reasm.eofIndex == (if r.finAbsSeq != 0 then Some(|sent|) else None)
    && (r.reasm.out.ended <==> r.finAbsSeq != 0 && r.reasm.Rpos() == |sent|)
  }

  /** The acknowledgement counts the written bytes, and the FIN exactly when the output has ended. */
  lemma AcknoCounts(r: Receiver, sent: seq<Byte>, finished: bool, isn: U32)
    requires Tracks(r, sent, finished, isn)
    ensures r.AbsAckno() == 1 + r.reasm.Rpos() + (if r.reasm.out.ended then 1 else 0)
    ensures r.AbsAckno() <= 1 + |sent| + (if finished then 1 else 0)
  {
  }

  /** Acknowledgement plus window is capacity plus what the reader took. */
  lemma RightEdge(r: Receiver, sent: seq<Byte>, finished: bool, isn: U32)
    requires Tracks(r, sent, finished, isn)
    ensures r.AbsAckno() + r.WindowSize()
            == 1 + r.reasm.out.capacity + r.reasm.out.nread + (if r.reasm.out.ended then 1 else 0)
  {
    AcknoCounts(r, sent, finished, isn);
  }

  lemma TracksMoreSent(r: Receiver, sent: seq<Byte>, finished: bool, sent': seq<Byte>, finished': bool, isn: U32)
    requires Tracks(r, sent, finished, isn) && sent <= sent'
    requires finished ==> finished' && sent' == sent
    ensures Tracks(r, sent', finished', isn)
  {
  }

  /** An arriving slice, resolved to its absolute number, keeps all of it; nothing moves back. */
  lemma PlaceTracks(r: Receiver, u: AbsSegment, left: nat, sent: seq<Byte>, finished: bool, isn: U32)
    requires Tracks(r, sent, finished, isn) && r.isn.Some? && u.SliceOf(sent, finished)
    ensures var r' := Place(r, u.Wire(isn), left, u.start).0;
            && Tracks(r', sent, finished, isn)
            && r'.isn == r.isn
            && r.AbsAckno() <= r'.AbsAckno()
            && r'.reasm.out.nread == r.reasm.out.nread
            && r'.reasm.out.capacity == r.reasm.out.capacity
            && (r.reasm.out.ended ==> r'.reasm.out.ended)
  {
    hide Agrees, Push;
    var r' := Place(r, u.Wire(isn), left, u.start).0;
    if r' != r {
      PushAgrees(r.reasm, u.payload, u.Index(), u.Index() + |u.payload| + 2 == r'.finAbsSeq, sent);
      PushEnds(r.reasm, u.payload, u.Index(), u.Index() + |u.payload| + 2 == r'.finAbsSeq, sent);
      AgreesBound(r.reasm, sent);
      AgreesBound(r'.reasm, sent);
    }
  }

  lemma AgreesBound(r: Reassembler, sent: seq<Byte>)
    requires Agrees(r, sent)
    ensures r.Rpos() <= |sent|
  {
  }

  /** When a push ends the output. */
  lemma PushEnds(r: Reassembler, data: seq<Byte>, index: nat, eof: bool, sent: seq<Byte>)
    requires r.Valid()
    ensures var r' := Push(r, data, index, eof);
            && r'.eofIndex == (if eof then Some(index + |data|) else r.eofIndex)
            && (r'.out.ended <==> r.out.ended || r'.eofIndex == Some(r'.Rpos()))
            && r.Rpos() <= r'.Rpos()
  {
    hide Emit;
  }

  /** Delivery of a segment that the checkpoint can resolve. */
  predicate Resolvable(r: Receiver, u: AbsSegment) {
    Checkpoint(r.reasm.Rpos()) && InRange(u.start, r.reasm.Rpos())
  }

  /** What `segment_received` computes from the wire form is `Place` at the true absolute number. */
  lemma ReceiveResolves(r: Receiver, u: AbsSegment, isn: U32)
    requires r.Valid() && Resolvable(r, u)
    requires r.isn.Some? ==> r.isn.value == isn
    requires u.syn ==> u.start == 0
    ensures Receive(r, u.Wire(isn))
            == if r.isn.None? && !u.syn then (r, false) else Place(r.(isn := Some(isn)), u.Wire(isn), r.Left(), u.start)
  {
    hide Wrap, Unwrap, Place;
    UnwrapWrap(u.start, isn, r.reasm.Rpos());
    assert Wrap(0, isn) == isn by { WrapIsMod(0, isn); }
  }

  /** Only a SYN, which takes up a number, makes the receiver start. */
  lemma SynStarts(r: Receiver, u: AbsSegment, isn: U32)
    requires r.Valid()
    ensures Receive(r, u.Wire(isn)).0.isn.Some? && r.isn.None? ==> u.syn && 0 < u.End()
  {
    hide Unwrap, Wrap, Push;
  }

  /** Receiving a slice keeps the receiver on track; acknowledgement and right edge never move back. */
  lemma ReceiveTracks(r: Receiver, u: AbsSegment, sent: seq<Byte>, finished: bool, isn: U32)
    requires Tracks(r, sent, finished, isn) && u.SliceOf(sent, finished) && Resolvable(r, u)
    ensures var r' := Receive(r, u.Wire(isn)).0;
            && Tracks(r', sent, finished, isn)
            && (r.isn.Some? ==> r'.isn.Some?)
            && r.Left() <= r'.Left()
            && r.AbsAckno() + r.WindowSize() <= r'.AbsAckno() + r'.WindowSize()
            && r'.reasm.out.nread == r.reasm.out.nread
            && r'.reasm.out.capacity == r.reasm.out.capacity
            && (r.reasm.out.ended ==> r'.reasm.out.ended)
  {
    hide Receive, Place, Agrees;
    ReceiveResolves(r, u, isn);
    if r.isn.Some? || u.syn {
      var started := r.(isn := Some(isn));
      PlaceTracks(started, u, r.Left(), sent, finished, isn);
      RightEdge(started, sent, finished, isn);
      RightEdge(Place(started, u.Wire(isn), r.Left(), u.start).0, sent, finished, isn);
    }
  }

  /** A slice that starts by the left edge and ends by the right edge is acknowledged to its end. */
  lemma ReceiveDelivers(r: Receiver, u: AbsSegment, sent: seq<Byte>, finished: bool, isn: U32)
    requires Tracks(r, sent, finished, isn) && u.SliceOf(sent, finished) && Resolvable(r, u)
    requires r.isn.Some? || u.syn
    requires 0 < u.Length() && u.start <= r.Left() && u.End() <= r.Left() + r.WindowSize()
    ensures u.End() <= Receive(r, u.Wire(isn)).0.Left()
  {
    hide Receive, Agrees, Push;
    ReceiveResolves(r, u, isn);
    ReceiveTracks(r, u, sent, finished, isn);
    AgreesBound(r.reasm, sent);
    if r.Left() < u.End() {
      var started := r.(isn := Some(isn));
      var r' := Place(started, u.Wire(isn), r.Left(), u.start).0;
      var eof := u.Index() + |u.payload| + 2 == r'.finAbsSeq;
      PushDelivers(r.reasm, u.payload, u.Index(), eof);
      AgreesBound(r'.reasm, sent);
    }
  }

  /** A slice that starts by the left edge and reaches past it moves it on, whatever the window, unless it is closed. */
  lemma ReceiveProgress(r: Receiver, u: AbsSegment, sent: seq<Byte>, finished: bool, isn: U32)
    requires Tracks(r, sent, finished, isn) && u.SliceOf(sent, finished) && Resolvable(r, u)
    requires r.isn.Some? || u.syn
    requires u.start <= r.Left() < u.End() && 0 < r.WindowSize()
    ensures r.Left() < Receive(r, u.Wire(isn)).0.Left()
  {
    hide Receive, Agrees, Push;
    ReceiveResolves(r, u, isn);
    ReceiveTracks(r, u, sent, finished, isn);
    AgreesBound(r.reasm, sent);
    if u.End() <= r.Left() + r.WindowSize() {
      ReceiveDelivers(r, u, sent, finished, isn);
    } else if r.isn.Some? {
      var eof := u.Index() + |u.payload| + 2 == Place(r, u.Wire(isn), r.Left(), u.start).0.finAbsSeq;
      PushProgress(r.reasm, u.payload, u.Index(), eof);
    }
  }

  // ----- what is taken and what is not -----

  /** Some number of the segment lies in the window, or, for an empty one, its place does. */
  predicate InWindow(abs: nat, len: nat, left: nat, right: nat) {
    if len == 0 then left < abs < right else Span(abs, abs + len) * Span(left, right) != {}
  }

  lemma InWindowExactly(abs: nat, len: nat, left: nat, right: nat)
    requires left <= right
    ensures InWindow(abs, len, left, right) && 0 < len ==> abs < right && left < abs + len
    ensures left < right && 0 < len && abs < right && left < abs + len ==> InWindow(abs, len, left, right)
    ensures len == 0 ==> (InWindow(abs, len, left, right) <==> abs < right && left < abs + len)
  {
    if left < right && 0 < len && abs < right && left < abs + len {
      assert Max(abs, left) in Span(abs, abs + len) * Span(left, right);
    }
  }

  /**
   * Every byte of a slice that reaches into the window is written or waiting afterwards, in its place, as far as the
   * reassembler's window goes; nothing else changes.
   */
  lemma ReceiveKeeps(r: Receiver, u: AbsSegment, sent: seq<Byte>, finished: bool, isn: U32, i: nat)
    requires Tracks(r, sent, finished, isn) && u.SliceOf(sent, finished) && Resolvable(r, u)
    requires r.isn.Some? || u.syn
    requires u.start < r.Left() + r.WindowSize() && r.Left() < u.End()
    ensures var r' := Receive(r, u.Wire(isn)).0;
            At(r'.reasm, i)
            == if u.Index() <= i < u.Index() + |u.payload| && i < r.reasm.Rpos() + r.reasm.out.capacity
               then Some(u.payload[i - u.Index()]) else At(r.reasm, i)
  {
    hide Receive, Push, At;
    ReceiveResolves(r, u, isn);
    var started := r.(isn := Some(isn));
    var r' := Place(started, u.Wire(isn), r.Left(), u.start).0;
    var eof := u.Index() + |u.payload| + 2 == r'.finAbsSeq;
    PushAt(r.reasm, u.payload, u.Index(), eof, i);
    if u.Index() <= i < u.Index() + |u.payload| && i < r.reasm.Rpos() {
      WrittenAlready(r, u, sent, finished, isn, i);
    }
  }

  lemma WrittenAlready(r: Receiver, u: AbsSegment, sent: seq<Byte>, finished: bool, isn: U32, i: nat)
    requires Tracks(r, sent, finished, isn) && u.SliceOf(sent, finished)
    requires u.Index() <= i < u.Index() + |u.payload| && i < r.reasm.Rpos()
    ensures At(r.reasm, i) == Some(u.payload[i - u.Index()])
  {
    assert u.payload[i - u.Index()] == sent[u.Index()..u.Index() + |u.payload|][i - u.Index()];
  }

  /** A segment that does not reach into the window leaves no trace but, if it is the first, the initial number. */
  lemma ReceiveIgnores(r: Receiver, seg: Segment)
    requires r.Valid() && (r.isn.Some? || seg.header.syn)
    ensures var isn := if r.isn.Some? then r.isn.value else seg.header.seqno;
            var abs := Unwrap(seg.header.seqno, isn, r.reasm.Rpos());
            var len, left := seg.LengthInSequenceSpace(), r.Left();
            var right := left + r.WindowSize();
            !(abs < right && left < abs + len) ==> Receive(r, seg).0 == r.(isn := Some(isn))
  {
    hide Unwrap, Push;
  }

  /** A FIN is noted exactly when its segment reaches into the window and ends inside it. */
  lemma FinNoted(r: Receiver, seg: Segment)
    requires r.Valid() && (r.isn.Some? || seg.header.syn)
    ensures var isn := if r.isn.Some? then r.isn.value else seg.header.seqno;
            var abs := Unwrap(seg.header.seqno, isn, r.reasm.Rpos());
            var len, left := seg.LengthInSequenceSpace(), r.Left();
            var right := left + r.WindowSize();
            Receive(r, seg).0.finAbsSeq
            == if seg.header.fin && abs < right && left < abs + len <= right then abs + len else r.finAbsSeq
  {
    hide Unwrap, Push;
  }

  /**
   * What the returned flag says: some number of the segment lies in the window, or it is empty and at the left edge, or
   * empty and past the FIN.
   */
  lemma FlagMeans(r: Receiver, seg: Segment)
    requires r.Valid()
    ensures var flag := Receive(r, seg).1;
            if r.isn.None? && !seg.header.syn then !flag else
            var isn := if r.isn.Some? then r.isn.value else seg.header.seqno;
            var abs := Unwrap(seg.header.seqno, isn, r.reasm.Rpos());
            var len, left := seg.LengthInSequenceSpace(), r.Left();
            flag <==> || InWindow(abs, len, left, left + r.WindowSize())
                      || (0 < len && r.WindowSize() == 0 && abs < left < abs + len)
                      || (len == 0 && (abs == left || (r.finAbsSeq != 0 && r.finAbsSeq <= abs)))
  {
    hide Unwrap, Push, InWindow;
    var isn := if r.isn.Some? then r.isn.value else seg.header.seqno;
    var abs := Unwrap(seg.header.seqno, isn, r.reasm.Rpos());
    InWindowExactly(abs, seg.LengthInSequenceSpace(), r.Left(), r.Left() + r.WindowSize());
    ClosedWindow(abs, seg.LengthInSequenceSpace(), r.Left());
  }

  lemma ClosedWindow(abs: nat, len: nat, left: nat)
    ensures 0 < len ==> !InWindow(abs, len, left, left)
  {
    assert Span(left, left) == {};
  }

  // ----- every history of a receiver -----

  /** What happens to a receiver: slices arrive from the network, the application reads. */
  datatype Event = Arrive(u: AbsSegment) | Take(len: nat)

  /** The whole stream is short enough for every checkpoint to resolve every segment. */
  predicate Short(stream: seq<Byte>) {
    |stream| + 2 < TWO31
  }

  predicate EventOf(e: Event, stream: seq<Byte>) {
    e.Arrive? ==> e.u.SliceOf(stream, true)
  }

  function Step(r: Receiver, e: Event, isn: U32): (r': Receiver)
    requires r.Valid()
    ensures r'.Valid()
  {
    match e
    case Arrive(u) => Receive(r, u.Wire(isn)).0
    case Take(len) => r.Read(len)
  }

  function Run(r: Receiver, evs: seq<Event>, isn: U32): (r': Receiver)
    requires r.Valid()
    ensures r'.Valid()
    decreases |evs|
  {
    if evs == [] then r else Run(Step(r, evs[0], isn), evs[1..], isn)
  }

  /** Only slices of the stream arrive, each recent enough for 32 bits to identify it when its turn comes. */
  predicate Deliverable(r: Receiver, evs: seq<Event>, stream: seq<Byte>, isn: U32)
    requires r.Valid()
    decreases |evs|
  {
    evs == [] || (
      && EventOf(evs[0], stream)
      && (evs[0].Arrive? ==> Resolvable(r, evs[0].u))
      && Deliverable(Step(r, evs[0], isn), evs[1..], stream, isn))
  }

  /** `r'` is at least as far along as `r`. */
  predicate NotBehind(r: Receiver, r': Receiver)
    requires r.Valid() && r'.Valid()
  {
    && r.Left() <= r'.Left()
    && r.AbsAckno() + r.WindowSize() <= r'.AbsAckno() + r'.WindowSize()
  }

  lemma StepTracks(r: Receiver, e: Event, stream: seq<Byte>, isn: U32)
    requires Tracks(r, stream, true, isn) && EventOf(e, stream) && (e.Arrive? ==> Resolvable(r, e.u))
    ensures Tracks(Step(r, e, isn), stream, true, isn) && NotBehind(r, Step(r, e, isn))
  {
    hide Receive, AbsSegment.SliceOf;
    if e.Arrive? {
      AgreesBound(r.reasm, stream);
      ReceiveTracks(r, e.u, stream, true, isn);
    } else {
      RightEdge(r, stream, true, isn);
      RightEdge(r.Read(e.len), stream, true, isn);
    }
  }

  /**
   * For any arrival order of slices of SYN, stream, FIN, with losses, repeats and reads anywhere:
   * the receiver stays on track and neither the acknowledgement nor the right edge ever retracts.
   */
  lemma {:induction false} RunTracks(r: Receiver, evs: seq<Event>, stream: seq<Byte>, isn: U32)
    requires Tracks(r, stream, true, isn) && Deliverable(r, evs, stream, isn)
    ensures Tracks(Run(r, evs, isn), stream, true, isn) && NotBehind(r, Run(r, evs, isn))
    decreases |evs|
  {
    hide Step, Tracks, EventOf, Resolvable, Receiver.Valid, Receiver.AbsAckno, Receiver.Left;
    if evs != [] {
      StepTracks(r, evs[0], stream, isn);
      RunTracks(Step(r, evs[0], isn), evs[1..], stream, isn);
    }
  }

  /** Of a short stream every slice can be delivered at any time. */
  lemma {:induction false} ShortDeliverable(r: Receiver, evs: seq<Event>, stream: seq<Byte>, isn: U32)
    requires Short(stream) && Tracks(r, stream, true, isn)
    requires forall e <- evs :: EventOf(e, stream) && (e.Arrive? ==> e.u.start <= |stream| + 2)
    ensures Deliverable(r, evs, stream, isn)
    decreases |evs|
  {
    hide Step, Tracks, EventOf;
    if evs != [] {
      assert evs[0] in evs;
      assert r.reasm.Rpos() <= |stream| by { TracksBound(r, stream, isn); }
      StepTracks(r, evs[0], stream, isn);
      assert forall e <- evs[1..] :: e in evs;
      ShortDeliverable(Step(r, evs[0], isn), evs[1..], stream, isn);
    }
  }

  lemma TracksBound(r: Receiver, stream: seq<Byte>, isn: U32)
    requires Tracks(r, stream, true, isn)
    ensures r.reasm.Rpos() <= |stream|
  {
  }

  /**
   * What a receiver has delivered after any such history: a prefix of the stream, acknowledged
   * byte for byte; the input ends, and the FIN is acknowledged, exactly when all of it is there.
   */
  lemma ReceiverCorrect(capacity: nat, evs: seq<Event>, stream: seq<Byte>, isn: U32)
    requires 0 < capacity && Deliverable(FreshReceiver(capacity), evs, stream, isn)
    ensures var r := Run(FreshReceiver(capacity), evs, isn);
            && r.reasm.out.written <= stream
            && (r.reasm.out.ended ==> r.reasm.out.written == stream)
            && r.AbsAckno() == 1 + |r.reasm.out.written| + (if r.reasm.out.ended then 1 else 0)
            && (r.AbsAckno() == |stream| + 2 <==> r.reasm.out.ended)
            && (r.finAbsSeq == 0 <==> r.reasm.eofIndex.None?)
            && (r.finAbsSeq != 0 ==> r.reasm.eofIndex == Some(r.finAbsSeq - 2))
  {
    hide Run, Deliverable;
    RunTracks(FreshReceiver(capacity), evs, stream, isn);
    AcknoCounts(Run(FreshReceiver(capacity), evs, isn), stream, true, isn);
  }

  // ----- a history is fixed by what arrived -----

  /** The stream indices that arrived once the SYN had come, and the SYN's own. */
  function Arrived(evs: seq<Event>, started: bool): set<nat> {
    if evs == [] then {} else
    match evs[0]
    case Take(_) => Arrived(evs[1..], started)
    case Arrive(u) =>
      (if started || u.syn then Span(u.Index(), u.Index() + |u.payload|) else {}) + Arrived(evs[1..], started || u.syn)
  }

  predicate FinArrived(evs: seq<Event>, started: bool) {
    evs != [] && (
      match evs[0]
      case Take(_) => FinArrived(evs[1..], started)
      case Arrive(u) => ((started || u.syn) && u.fin) || FinArrived(evs[1..], started || u.syn))
  }

  ghost predicate Described(r: Receiver, got: set<nat>, fin: bool, stream: seq<Byte>) {
    Filled(r.reasm, got, stream) && (r.finAbsSeq != 0 <==> fin)
  }

  lemma ArriveDescribes(r: Receiver, u: AbsSegment, got: set<nat>, fin: bool, stream: seq<Byte>, isn: U32)
    requires Tracks(r, stream, true, isn) && u.SliceOf(stream, true) && Resolvable(r, u) && (r.isn.Some? || u.syn)
    requires |stream| + 2 <= r.reasm.out.capacity && Described(r, got, fin, stream)
    ensures Described(Receive(r, u.Wire(isn)).0, got + Span(u.Index(), u.Index() + |u.payload|), fin || u.fin, stream)
  {
    hide Receive, Push, Filled, Agrees;
    ReceiveResolves(r, u, isn);
    RightEdge(r, stream, true, isn);
    FilledAgrees(r.reasm, got, stream);
    AgreesBound(r.reasm, stream);
    var started := r.(isn := Some(isn));
    var lo, hi := u.Index(), u.Index() + |u.payload|;
    var r' := Place(started, u.Wire(isn), r.Left(), u.start).0;
    var past := r.finAbsSeq != 0 && u.start >= r.finAbsSeq && u.Length() == 0;
    if u.start < r.Left() + r.WindowSize() && r.Left() < u.End() && !past {
      PushFilled(r.reasm, u.payload, lo, lo + |u.payload| + 2 == r'.finAbsSeq, got, stream);
    } else {
      assert hi <= r.reasm.Rpos() || u.payload == [];
      NothingNew(r.reasm, lo, hi, got, stream);
    }
  }

  lemma FilledAgrees(r: Reassembler, got: set<nat>, stream: seq<Byte>)
    requires Filled(r, got, stream)
    ensures Agrees(r, stream)
  {
  }

  lemma NothingNew(r: Reassembler, lo: nat, hi: nat, got: set<nat>, stream: seq<Byte>)
    requires Filled(r, got, stream) && (hi <= r.Rpos() || hi == lo)
    ensures got + Span(lo, hi) == got
  {
  }

  lemma {:induction false} RunDescribes(
      r: Receiver, evs: seq<Event>, got: set<nat>, fin: bool, stream: seq<Byte>, isn: U32)
    requires Tracks(r, stream, true, isn) && Deliverable(r, evs, stream, isn)
    requires |stream| + 2 <= r.reasm.out.capacity && Described(r, got, fin, stream)
    ensures Tracks(Run(r, evs, isn), stream, true, isn)
    ensures Described(Run(r, evs, isn), got + Arrived(evs, r.isn.Some?), fin || FinArrived(evs, r.isn.Some?), stream)
    decreases |evs|
  {
    hide Step, Tracks, Described, Resolvable, EventOf;
    if evs == [] {
      assert got + {} == got;
    } else {
      var r' := Step(r, evs[0], isn);
      StepTracks(r, evs[0], stream, isn);
      StepDescribes(r, evs[0], got, fin, stream, isn);
      match evs[0] {
        case Take(_) => RunDescribes(r', evs[1..], got, fin, stream, isn);
        case Arrive(u) =>
          var now := if r.isn.Some? || u.syn then Span(u.Index(), u.Index() + |u.payload|) else {};
          var fin' := fin || ((r.isn.Some? || u.syn) && u.fin);
          RunDescribes(r', evs[1..], got + now, fin', stream, isn);
          assert got + now + Arrived(evs[1..], r'.isn.Some?) == got + (now + Arrived(evs[1..], r'.isn.Some?));
      }
    }
  }

  lemma StepDescribes(r: Receiver, e: Event, got: set<nat>, fin: bool, stream: seq<Byte>, isn: U32)
    requires Tracks(r, stream, true, isn) && EventOf(e, stream) && (e.Arrive? ==> Resolvable(r, e.u))
    requires |stream| + 2 <= r.reasm.out.capacity && Described(r, got, fin, stream)
    ensures var r' := Step(r, e, isn);
            && r'.reasm.out.capacity == r.reasm.out.capacity
            && (if e.Take? then r'.isn == r.isn && Described(r', got, fin, stream)
                else
                  && (r'.isn.Some? <==> r.isn.Some? || e.u.syn)
                  && (if r.isn.Some? || e.u.syn
                      then Described(r', got + Span(e.u.Index(), e.u.Index() + |e.u.payload|), fin || e.u.fin, stream)
                      else Described(r', got + {}, fin, stream)))
  {
    hide Receive, Tracks, Resolvable, AbsSegment.SliceOf;
    match e
    case Take(len) =>
    case Arrive(u) =>
      assert got + {} == got;
      ReceiveTracks(r, u, stream, true, isn);
      StartsExactly(r, u, isn);
      if r.isn.Some? || u.syn {
        ArriveDescribes(r, u, got, fin, stream, isn);
      }
  }

  lemma StartsExactly(r: Receiver, u: AbsSegment, isn: U32)
    requires r.Valid()
    ensures Receive(r, u.Wire(isn)).0.isn.Some? <==> r.isn.Some? || u.syn
    ensures r.isn.None? && !u.syn ==> Receive(r, u.Wire(isn)).0 == r
  {
    hide Unwrap, Wrap, Push;
  }

  /**
   * With room for SYN, stream and FIN, what a receiver holds after any history is fixed by which numbers arrived
   * since the SYN: it has written up to the first byte missing, keeps everything beyond, knows the FIN exactly if it
   * came, and has ended exactly if nothing is missing.
   */
  lemma HistoryFixed(capacity: nat, evs: seq<Event>, stream: seq<Byte>, isn: U32)
    requires |stream| + 2 <= capacity && Deliverable(FreshReceiver(capacity), evs, stream, isn)
    ensures var r := Run(FreshReceiver(capacity), evs, isn);
            && Filled(r.reasm, Arrived(evs, false), stream)
            && (r.finAbsSeq != 0 <==> FinArrived(evs, false))
            && (r.reasm.out.ended <==> FinArrived(evs, false) && r.reasm.out.written == stream)
  {
    hide Run, Deliverable, Arrived, FinArrived;
    var r0 := FreshReceiver(capacity);
    RunDescribes(r0, evs, {}, false, stream, isn);
    assert {} + Arrived(evs, false) == Arrived(evs, false);
  }

  /** So reordering, repeating and reading at other times change nothing. */
  lemma HistoriesAlike(capacity: nat, evs1: seq<Event>, evs2: seq<Event>, stream: seq<Byte>, isn: U32)
    requires |stream| + 2 <= capacity
    requires Deliverable(FreshReceiver(capacity), evs1, stream, isn)
    requires Deliverable(FreshReceiver(capacity), evs2, stream, isn)
    requires Arrived(evs1, false) == Arrived(evs2, false) && FinArrived(evs1, false) == FinArrived(evs2, false)
    ensures var r1, r2 := Run(FreshReceiver(capacity), evs1, isn), Run(FreshReceiver(capacity), evs2, isn);
            && r1.reasm.out.written == r2.reasm.out.written && r1.reasm.pending == r2.reasm.pending
            && r1.reasm.out.ended == r2.reasm.out.ended && r1.AbsAckno() == r2.AbsAckno()
  {
    hide Run, Deliverable, Arrived, FinArrived, Filled;
    HistoryFixed(capacity, evs1, stream, isn);
    HistoryFixed(capacity, evs2, stream, isn);
    var r1, r2 := Run(FreshReceiver(capacity), evs1, isn), Run(FreshReceiver(capacity), evs2, isn);
    FilledAlike(r1.reasm, r2.reasm, Arrived(evs1, false), stream);
    ReceiverCorrect(capacity, evs1, stream, isn);
    ReceiverCorrect(capacity, evs2, stream, isn);
  }

  // ----- the object -----

  class TCPReceiver {
    const reassembler: StreamReassembler
    var isn: Option<U32>
    var finAbsSeq: nat

    ghost predicate Valid()
      reads this, reassembler, reassembler.output, reassembler.buffer, reassembler.bitMap
    {
      reassembler.Valid()
    }

    ghost function Model(): (r: Receiver)
      requires Valid()
      reads this, reassembler, reassembler.output, reassembler.buffer, reassembler.bitMap
      ensures r.Valid()
    {
      Receiver(reassembler.Model(), isn, finAbsSeq)
    }

    constructor (capacity: nat)
      requires 0 < capacity
      ensures Valid() && Model() == FreshReceiver(capacity)
      ensures fresh(reassembler) && fresh(reassembler.output) && fresh(reassembler.buffer) && fresh(reassembler.bitMap)
    {
      hide Ring, Count;
      reassembler := new StreamReassembler(capacity);
      isn, finAbsSeq := None, 0;
    }

    function AbsAckno(): (n: nat)
      requires Valid()
      reads this, reassembler, reassembler.output, reassembler.buffer, reassembler.bitMap
      ensures n == Model().AbsAckno()
    {
      hide Ring, Count;
      var withoutFin := 1 + reassembler.output.nwritten;
      if withoutFin + 1 == finAbsSeq then finAbsSeq else withoutFin
    }

    function Ackno(): (n: Option<U32>)
      requires Valid()
      reads this, reassembler, reassembler.output, reassembler.buffer, reassembler.bitMap
      ensures n == Model().Ackno()
    {
      if isn.None? then None else Some(Wrap(AbsAckno(), isn.value))
    }

    function WindowSize(): (n: nat)
      requires Valid()
      reads this, reassembler, reassembler.output, reassembler.buffer, reassembler.bitMap
      ensures n == Model().WindowSize()
    {
      reassembler.output.RemainingCapacity()
    }

    /** 64-bit indices do not run out while this segment is handled. */
    ghost predicate Headroom(seg: Segment)
      reads this, reassembler
    {
      reassembler.rpos + reassembler.capacity + 2 * TWO32 + |seg.payload| < TWO64 - 1
    }

    /** The segment lies in the window: note a FIN that fits, hand the payload on. */
    method Accept(seg: Segment, absSeq: nat, right: nat)
      requires Valid() && Headroom(seg) && absSeq <= reassembler.rpos + TWO32
      modifies this`finAbsSeq, reassembler, reassembler.output, reassembler.buffer, reassembler.bitMap
      ensures var length, index := seg.LengthInSequenceSpace(), if absSeq > 0 then absSeq - 1 else 0;
              && finAbsSeq == (if absSeq + length <= right && seg.header.fin then absSeq + length else old(finAbsSeq))
              && Valid()
              && reassembler.Model()
                 == Push(old(reassembler.Model()), seg.payload, index, index + |seg.payload| + 2 == finAbsSeq)
    {
      hide Ring, Count, Push, Reassembler.Valid;
      var allFill := absSeq + seg.LengthInSequenceSpace() <= right;
      if allFill && seg.header.fin {
        finAbsSeq := absSeq + seg.LengthInSequenceSpace();
      }
      var streamIndex := if absSeq > 0 then absSeq - 1 else 0;
      reassembler.PushSubstring(seg.payload, streamIndex, streamIndex + |seg.payload| + 2 == finAbsSeq);
    }

    method SegmentReceived(seg: Segment) returns (inWindow: bool)
      requires Valid() && Headroom(seg)
      modifies this, reassembler, reassembler.output, reassembler.buffer, reassembler.bitMap
      ensures Valid() && (Model(), inWindow) == Receive(old(Model()), seg)
    {
      hide Ring, Count, Push, Wrap, Unwrap, Reassembler.Valid;
      ghost var before := Model();
      var oldAbsAckno := if isn.Some? then AbsAckno() else 0;
      if seg.header.syn && isn.None? {
        isn := Some(seg.header.seqno);
      }
      if isn.None? {
        return false;
      }
      var checkpoint := reassembler.output.nwritten;
      var absSeq := Unwrap(seg.header.seqno, isn.value, checkpoint);
      UnwrapBound(seg.header.seqno, isn.value, checkpoint);
      var oldWindowSize := WindowSize();
      var length := seg.LengthInSequenceSpace();
      if finAbsSeq != 0 && absSeq >= finAbsSeq && length == 0 {
        return true;
      }
      if !(absSeq < oldAbsAckno + oldWindowSize && absSeq + length > oldAbsAckno) {
        return length == 0 && absSeq == oldAbsAckno;
      }
      ghost var started := before.(isn := isn);
      assert reassembler.Model() == started.reasm;
      Accept(seg, absSeq, oldAbsAckno + oldWindowSize);
      return true;
    }

    /** `stream_out().read`, the application's side. */
    method ReadStream(len: nat) returns (data: seq<Byte>)
      requires Valid()
      modifies reassembler.output
      ensures Valid() && Model() == old(Model()).Read(len)
      ensures data == old(Model()).reasm.out.Buffered()[..Min(len, old(Model()).reasm.out.Size())]
    {
      hide Ring, Count;
      data := reassembler.output.Read(len);
    }

    /** `stream_out().set_error`. */
    method FailStream()
      requires Valid()
      modifies reassembler.output
      ensures Valid()
      ensures Model() == old(Model()).(reasm := old(Model()).reasm.(out := old(Model()).reasm.out.SetError()))
    {
      hide Ring, Count;
      reassembler.output.SetError();
    }
  }
}
