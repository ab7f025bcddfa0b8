/** The TCP sender on absolute sequence numbers, and the invariant every one of its operations keeps. */
module Senders {
  import opened Basics
  import opened WrappingIntegers
  import opened ByteStreams
  import opened Segments

  const MAX_PAYLOAD_SIZE := 1000

  /**
   * The sender's fields. Segments carry absolute numbers; `lastAck` (the last acknowledgement
   * accepted) and `sinceAck` (milliseconds ticked since a segment was last acknowledged) record
   * history that the program does not keep.
   */
  datatype Sender = Sender(
    isn: U32, initialRto: U16, stream: Stream,
    nextSeqno: nat, synSent: bool, finSent: bool, bytesInFlight: nat,
    windowSize: U16, freeSpace: U16,
    retx: U16, rto: U32, elapsed: U32, timerRunning: bool,
    outstanding: seq<AbsSegment>, queue: seq<AbsSegment>,
    lastAck: nat, sinceAck: nat)
  {
    predicate Valid() {
      && stream.Valid()
      && (timerRunning ==> outstanding != [])
    }

    /** The oldest unacknowledged number. */
    function Una(): int {
      nextSeqno - bytesInFlight
    }

    /** The bytes taken from the stream into segments so far. */
    function Sent(): seq<Byte>
      requires Valid()
    {
      stream.written[..stream.nread]
    }

    /** The right edge advertised with the last accepted acknowledgement. */
    function Edge(): nat {
      lastAck + windowSize
    }

    function Write(data: seq<Byte>): (s: Sender)
      requires Valid()
      ensures s.Valid()
    {
      this.(stream := stream.Write(data))
    }

    function EndInput(): (s: Sender)
      requires Valid()
      ensures s.Valid()
    {
      this.(stream := stream.End())
    }
  }

  function FreshSender(capacity: nat, retxTimeout: U16, isn: U32): (s: Sender)
    ensures s.Valid()
  {
    Sender(isn, retxTimeout, Empty(capacity), 0, false, false, 0, 0, 0, 0, retxTimeout, 0, false, [], [], 0, 0)
  }

  /** `_send_segment`: number the segment, account for it, queue it and start the timer. */
  function SendSegment(s: Sender, syn: bool, fin: bool, payload: seq<Byte>): (s': Sender)
    requires s.stream.Valid()
    ensures s'.Valid()
  {
    var u := AbsSegment(s.nextSeqno, syn, fin, payload);
    s.(nextSeqno := u.End(),
       bytesInFlight := s.bytesInFlight + u.Length(),
       freeSpace := if s.synSent then Low16(s.freeSpace - u.Length()) else s.freeSpace,
       queue := s.queue + [u],
       outstanding := s.outstanding + [u],
       timerRunning := true,
       elapsed := if s.timerRunning then s.elapsed else 0)
  }

  /** The fields that sending a segment leaves, one by one. */
  lemma SendFields(s: Sender, syn: bool, fin: bool, payload: seq<Byte>)
    requires s.stream.Valid()
    ensures var u := AbsSegment(s.nextSeqno, syn, fin, payload);
            var t := SendSegment(s, syn, fin, payload);
            && t.isn == s.isn && t.initialRto == s.initialRto && t.stream == s.stream
            && t.nextSeqno == u.End() && t.bytesInFlight == s.bytesInFlight + u.Length()
            && t.freeSpace == (if s.synSent then Low16(s.freeSpace - u.Length()) else s.freeSpace)
            && t.outstanding == s.outstanding + [u] && t.queue == s.queue + [u]
            && t.timerRunning && t.elapsed == (if s.timerRunning then s.elapsed else 0)
            && t.synSent == s.synSent && t.finSent == s.finSent
            && t.windowSize == s.windowSize && t.lastAck == s.lastAck && t.sinceAck == s.sinceAck
            && t.retx == s.retx && t.rto == s.rto
  {
  }

  /** Take `n` bytes off the stream and send them, with a FIN if `fin`. */
  function SendData(s: Sender, n: nat, fin: bool): (s': Sender)
    requires s.Valid() && n <= s.stream.Size()
    ensures s'.Valid()
  {
    SendSegment(s.(stream := s.stream.Read(n), finSent := s.finSent || fin), false, fin, s.stream.Buffered()[..n])
  }

  /** The payload the loop of `fill_window` picks, and whether the FIN rides along. */
  function PayloadSize(s: Sender): nat
    requires s.Valid()
  {
    Min(s.stream.Size(), Min(s.freeSpace, MAX_PAYLOAD_SIZE))
  }

  predicate FinFits(s: Sender)
    requires s.Valid()
  {
    s.stream.ended && PayloadSize(s) == s.stream.Size() && s.freeSpace > PayloadSize(s)
  }

  /** Something is left to send: buffered bytes, or the FIN of an ended stream. */
  predicate HasWork(s: Sender)
    requires s.Valid()
  {
    s.stream.Size() > 0 || s.stream.ended
  }

  /** The `while` loop of `fill_window`. */
  function FillLoop(s: Sender): (s': Sender)
    requires s.Valid() && s.synSent && HasWork(s)
    ensures s'.Valid()
    decreases s.freeSpace
  {
    if s.freeSpace == 0 then s else
    var s' := SendData(s, PayloadSize(s), FinFits(s));
    if s'.stream.Size() == 0 then s' else FillLoop(s')
  }

  /** A turn of the loop uses up at least one free number and no more than there are. */
  lemma TurnShrinks(s: Sender)
    requires s.Valid() && s.synSent && HasWork(s) && s.freeSpace > 0
    ensures var s' := SendData(s, PayloadSize(s), FinFits(s));
            && s'.freeSpace < s.freeSpace && s'.synSent && s'.stream.ended == s.stream.ended
  {
  }

  predicate SynOutstanding(s: Sender) {
    s.outstanding != [] && s.outstanding[0].syn
  }

  /** `fill_window`. */
  function FillWindow(s: Sender): (s': Sender)
    requires s.Valid()
    ensures s'.Valid()
  {
    if !s.synSent then
      SendSegment(s.(synSent := true), true, false, [])
    else if SynOutstanding(s) then s
    else if !HasWork(s) then s
    else if s.finSent then s
    else if s.windowSize != 0 then FillLoop(s)
    else if s.freeSpace == 0 then SendData(s, Min(1, s.stream.Size()), s.stream.Eof())
    else s
  }

  /** The outstanding segments left once those that end by `abs` are popped off the front. */
  function DropAcked(q: seq<AbsSegment>, abs: nat): (rest: seq<AbsSegment>)
    ensures |rest| <= |q|
  {
    if q != [] && q[0].End() <= abs then DropAcked(q[1..], abs) else q
  }

  lemma {:induction false} DropAckedIsSuffix(q: seq<AbsSegment>, abs: nat)
    ensures var rest := DropAcked(q, abs); rest == q[|q| - |rest|..]
  {
    if q != [] && q[0].End() <= abs { DropAckedIsSuffix(q[1..], abs); }
  }

  lemma DropNone(abs: nat)
    ensures DropAcked([], abs) == []
  {
  }

  function Total(q: seq<AbsSegment>): nat {
    if q == [] then 0 else q[0].Length() + Total(q[1..])
  }

  predicate AckValid(s: Sender, abs: nat) {
    s.Una() <= abs <= s.nextSeqno
  }

  /** The bookkeeping part of `ack_received`. */
  function Settle(s: Sender, abs: nat, win: U16): (s': Sender)
    requires s.Valid()
    ensures s'.Valid()
  {
    var rest := DropAcked(s.outstanding, abs);
    var popped := |rest| < |s.outstanding|;
    s.(windowSize := win,
       freeSpace := Low16(abs + win - s.nextSeqno),
       outstanding := rest,
       bytesInFlight := Total(rest),
       elapsed := if popped then 0 else s.elapsed,
       rto := if popped then s.initialRto else s.rto,
       retx := if popped then 0 else s.retx,
       timerRunning := s.timerRunning && Total(rest) != 0,
       lastAck := abs,
       sinceAck := if popped then 0 else s.sinceAck)
  }

  /** The fields `Settle` leaves, one by one. */
  lemma SettleFields(s: Sender, abs: nat, win: U16)
    requires s.Valid()
    ensures var t := Settle(s, abs, win);
            var popped := |t.outstanding| < |s.outstanding|;
            && t.outstanding == DropAcked(s.outstanding, abs) && t.bytesInFlight == Total(t.outstanding)
            && t.windowSize == win && t.freeSpace == Low16(abs + win - s.nextSeqno)
            && t.elapsed == (if popped then 0 else s.elapsed)
            && t.rto == (if popped then s.initialRto else s.rto)
            && t.retx == (if popped then 0 else s.retx)
            && t.timerRunning == (s.timerRunning && t.bytesInFlight != 0) && t.lastAck == abs
            && t.isn == s.isn && t.initialRto == s.initialRto && t.stream == s.stream && t.queue == s.queue
            && t.nextSeqno == s.nextSeqno && t.synSent == s.synSent && t.finSent == s.finSent
  {
  }

  /** `ack_received`, once the number is absolute. */
  function AckAbs(s: Sender, abs: nat, win: U16): (s': Sender)
    requires s.Valid()
    ensures s'.Valid()
  {
    if AckValid(s, abs) then FillWindow(Settle(s, abs, win)) else s
  }

  function AckReceived(s: Sender, ackno: U32, win: U16): (s': Sender)
    requires s.Valid()
    ensures s'.Valid()
  {
    AckAbs(s, Unwrap(ackno, s.isn, s.nextSeqno), win)
  }

  /** The retransmission timer goes off at this tick. */
  predicate Expires(s: Sender, ms: nat) {
    s.timerRunning && (s.elapsed + ms) % TWO32 >= s.rto
  }

  /** `tick`. */
  function Tick(s: Sender, ms: nat): (s': Sender)
    requires s.Valid()
    ensures s'.Valid()
  {
    var t := s.(sinceAck := s.sinceAck + ms);
    if !s.timerRunning then t
    else if !Expires(s, ms) then t.(elapsed := (s.elapsed + ms) % TWO32)
    else
      var r := t.(queue := s.queue + [s.outstanding[0]], elapsed := 0);
      if s.windowSize != 0 || s.outstanding[0].syn then
        r.(retx := (s.retx + 1) % TWO16, rto := (2 * s.rto) % TWO32)
      else r
  }

  /** The fields a tick leaves, one by one. */
  lemma TickFields(s: Sender, ms: nat)
    requires s.Valid()
    ensures var t := Tick(s, ms);
            var again := Expires(s, ms);
            var backOff := again && (s.windowSize != 0 || s.outstanding[0].syn);
            && t == s.(queue := t.queue, elapsed := t.elapsed, retx := t.retx, rto := t.rto,
                       sinceAck := s.sinceAck + ms)
            && t.queue == (if again then s.queue + [s.outstanding[0]] else s.queue)
            && t.elapsed == (if again then 0 else if s.timerRunning then (s.elapsed + ms) % TWO32 else s.elapsed)
            && t.retx == (if backOff then (s.retx + 1) % TWO16 else s.retx)
            && t.rto == (if backOff then (2 * s.rto) % TWO32 else s.rto)
  {
  }

  /** `send_empty_segment`. */
  function SendEmpty(s: Sender): (s': Sender)
    requires s.Valid()
    ensures s'.Valid()
  {
    s.(queue := s.queue + [AbsSegment(s.nextSeqno, false, false, [])])
  }

  // ----- the invariant -----

  /** The queue covers [lo, hi) with no gap and no overlap. */
  predicate Tiles(q: seq<AbsSegment>, lo: int, hi: int) {
    if q == [] then lo == hi
    else q[0].start == lo && q[0].Length() > 0 && Tiles(q[1..], q[0].End(), hi)
  }

  predicate AllSlices(q: seq<AbsSegment>, sent: seq<Byte>, finished: bool, limit: nat) {
    forall u <- q :: u.SliceOf(sent, finished) && u.End() <= limit
  }

  /** Numbers count the SYN, the bytes taken and the FIN. */
  predicate Counted(s: Sender) {
    && s.nextSeqno == (if s.synSent then 1 + s.stream.nread + (if s.finSent then 1 else 0) else 0)
    && (s.synSent || (s.stream.nread == 0 && !s.finSent))
    && (s.finSent ==> s.stream.ended)
    && (SynOutstanding(s) ==> s.nextSeqno == 1)
  }

  /** What is known of the receiver, through the 16-bit subtraction. */
  predicate Accounted(s: Sender) {
    && s.freeSpace == Low16(s.Edge() - s.nextSeqno)
    && s.Una() <= s.lastAck <= s.nextSeqno
    && (s.outstanding != [] ==> s.lastAck < s.outstanding[0].End())
  }

  predicate Inv(s: Sender) {
    && s.Valid()
    && Counted(s)
    && Tiles(s.outstanding, s.Una(), s.nextSeqno)
    && AllSlices(s.outstanding, s.Sent(), s.finSent, s.nextSeqno)
    && AllSlices(s.queue, s.Sent(), s.finSent, s.nextSeqno)
    && (s.timerRunning <==> s.outstanding != [])
    && Accounted(s)
  }

  lemma {:induction false} TilesTotal(q: seq<AbsSegment>, lo: int, hi: int)
    requires Tiles(q, lo, hi)
    ensures Total(q) == hi - lo
    ensures q != [] <==> lo < hi
    ensures lo <= hi
  {
    if q != [] { TilesTotal(q[1..], q[0].End(), hi); }
  }

  /** The front of a tiling, and what is left without it. */
  lemma TilesFront(q: seq<AbsSegment>, lo: int, hi: int, abs: nat)
    requires Tiles(q, lo, hi) && q != []
    ensures q[0].start == lo && Tiles(q[1..], q[0].End(), hi)
    ensures Total(q) == q[0].Length() + Total(q[1..]) == hi - lo
    ensures DropAcked(q, abs) == if q[0].End() <= abs then DropAcked(q[1..], abs) else q
  {
    TilesTotal(q, lo, hi);
  }

  lemma {:induction false} TilesSnoc(q: seq<AbsSegment>, lo: int, hi: int, u: AbsSegment)
    requires Tiles(q, lo, hi) && u.start == hi && u.Length() > 0
    ensures Tiles(q + [u], lo, u.End())
  {
    if q != [] {
      TilesSnoc(q[1..], q[0].End(), hi, u);
      assert (q + [u])[1..] == q[1..] + [u];
    } else {
      assert (q + [u])[1..] == [];
    }
  }

  /** Popping acknowledged segments leaves a tiling that starts at or below the acknowledgement. */
  lemma {:induction false} DropAckedTiles(q: seq<AbsSegment>, lo: int, hi: int, abs: nat)
    requires Tiles(q, lo, hi) && lo <= abs <= hi
    ensures var rest := DropAcked(q, abs);
            && Tiles(rest, hi - Total(rest), hi)
            && lo <= hi - Total(rest) <= abs
            && (rest != [] ==> abs < rest[0].End())
            && (lo < hi - Total(rest) <==> |rest| < |q|)
  {
    TilesTotal(q, lo, hi);
    if q != [] && q[0].End() <= abs {
      DropAckedTiles(q[1..], q[0].End(), hi, abs);
      assert |DropAcked(q, abs)| <= |q[1..]|;
    }
  }

  lemma SlicesStay(q: seq<AbsSegment>, sent: seq<Byte>, finished: bool, limit: nat,
                   sent': seq<Byte>, finished': bool, limit': nat)
    requires AllSlices(q, sent, finished, limit)
    requires sent <= sent' && limit <= limit' && (finished ==> finished' && sent' == sent)
    ensures AllSlices(q, sent', finished', limit')
  {
    hide AbsSegment.SliceOf;
    forall u | u in q ensures u.SliceOf(sent', finished') {
      SliceStays(u, sent, finished, sent', finished');
    }
  }

  lemma FreshInv(capacity: nat, retxTimeout: U16, isn: U32)
    ensures Inv(FreshSender(capacity, retxTimeout, isn))
  {
  }

  lemma WriteInv(s: Sender, data: seq<Byte>)
    requires Inv(s)
    ensures Inv(s.Write(data))
  {
    assert s.Write(data).Sent() == s.Sent();
  }

  lemma EndInv(s: Sender)
    requires Inv(s)
    ensures Inv(s.EndInput())
  {
  }

  lemma SendEmptyInv(s: Sender)
    requires Inv(s)
    ensures Inv(SendEmpty(s))
  {
  }

  /** The owner may empty the queue of segments to transmit at any time. */
  lemma DrainInv(s: Sender)
    requires Inv(s)
    ensures Inv(s.(queue := []))
    ensures AllSlices(s.queue, s.Sent(), s.finSent, s.nextSeqno)
  {
    hide Tiles, AbsSegment.SliceOf, Low16;
    assert s.(queue := []).Sent() == s.Sent();
  }

  lemma DequeueInv(s: Sender)
    requires Inv(s) && s.queue != []
    ensures Inv(s.(queue := s.queue[1..]))
  {
    hide Tiles, AbsSegment.SliceOf, Low16;
    assert s.(queue := s.queue[1..]).Sent() == s.Sent();
    assert forall u <- s.queue[1..] :: u in s.queue;
  }

  lemma FailInv(s: Sender)
    requires Inv(s)
    ensures Inv(s.(stream := s.stream.SetError()))
  {
    hide Tiles, AbsSegment.SliceOf, Low16;
    assert s.(stream := s.stream.SetError()).Sent() == s.Sent();
  }

  lemma TickInv(s: Sender, ms: nat)
    requires Inv(s)
    ensures Inv(Tick(s, ms))
  {
  }

  lemma FreeSpaceShifts(edge: nat, next: nat, len: nat)
    ensures Low16(Low16(edge - next) - len) == Low16(edge - (next + len))
  {
  }

  lemma SendSynInv(s: Sender)
    requires Inv(s) && !s.synSent
    ensures Inv(SendSegment(s.(synSent := true), true, false, []))
  {
    TilesTotal(s.outstanding, s.Una(), s.nextSeqno);
    var u := SYN;
    TilesSnoc(s.outstanding, s.Una(), s.nextSeqno, u);
    FreeSpaceShifts(s.Edge(), s.nextSeqno, 1);
  }

  /** Sending the next bytes of the stream, and the FIN only at its end, keeps the invariant. */
  lemma SendDataInv(s: Sender, n: nat, fin: bool)
    requires Inv(s) && s.synSent && !s.finSent && !SynOutstanding(s) && n <= s.stream.Size()
    requires n > 0 || fin
    requires fin ==> s.stream.ended && n == s.stream.Size()
    ensures var s' := SendData(s, n, fin);
            var u := AbsSegment(s.nextSeqno, false, fin, s.stream.Buffered()[..n]);
            && Inv(s')
            && s'.outstanding == s.outstanding + [u]
            && s'.queue == s.queue + [u]
            && s'.Una() == s.Una() && s'.lastAck == s.lastAck && s'.windowSize == s.windowSize
            && s'.nextSeqno == u.End()
            && s'.freeSpace == Low16(s.freeSpace - u.Length())
            && s'.synSent && s'.finSent == fin && !SynOutstanding(s')
            && s'.stream == s.stream.Read(n)
  {
    hide AbsSegment.SliceOf, AllSlices, SendSegment, Low16, Tiles;
    var s' := SendData(s, n, fin);
    var u := AbsSegment(s.nextSeqno, false, fin, s.stream.Buffered()[..n]);
    SendFields(s.(stream := s.stream.Read(n), finSent := fin), false, fin, u.payload);
    assert s'.Sent() == s.Sent() + u.payload;
    NewSlice(s, n, fin);
    SlicesGrow(s.outstanding, s, s', u);
    SlicesGrow(s.queue, s, s', u);
    TilesTotal(s.outstanding, s.Una(), s.nextSeqno);
    TilesSnoc(s.outstanding, s.Una(), s.nextSeqno, u);
    FreeSpaceShifts(s.Edge(), s.nextSeqno, u.Length());
  }

  lemma NewSlice(s: Sender, n: nat, fin: bool)
    requires Inv(s) && s.synSent && !s.finSent && n <= s.stream.Size()
    requires fin ==> s.stream.ended && n == s.stream.Size()
    ensures var u := AbsSegment(s.nextSeqno, false, fin, s.stream.Buffered()[..n]);
            u.SliceOf(s.Sent() + u.payload, fin)
  {
    hide Tiles, AllSlices;
    var u := AbsSegment(s.nextSeqno, false, fin, s.stream.Buffered()[..n]);
    var sent := s.Sent() + u.payload;
    assert u.payload == sent[u.Index()..u.Index() + n];
  }

  lemma SlicesGrow(q: seq<AbsSegment>, s: Sender, s': Sender, u: AbsSegment)
    requires s.Valid() && s'.Valid() && AllSlices(q, s.Sent(), s.finSent, s.nextSeqno) && !s.finSent
    requires s'.Sent() == s.Sent() + u.payload && s'.nextSeqno == u.End() && s.nextSeqno <= u.End()
    requires u.SliceOf(s'.Sent(), s'.finSent)
    ensures AllSlices(q + [u], s'.Sent(), s'.finSent, s'.nextSeqno)
  {
    SlicesStay(q, s.Sent(), s.finSent, s.nextSeqno, s'.Sent(), s'.finSent, s'.nextSeqno);
  }

  // ----- acknowledgements -----

  /** Acting on an acceptable acknowledgement keeps the invariant; the oldest number only moves up, and not past it. */
  lemma SettleInv(s: Sender, abs: nat, win: U16)
    requires Inv(s) && AckValid(s, abs)
    ensures var t := Settle(s, abs, win);
            && Inv(t)
            && s.Una() <= t.Una() <= abs
            && (s.Una() < t.Una() <==> |t.outstanding| < |s.outstanding|)
            && t.Edge() == abs + win
  {
    hide AllSlices, DropAcked, Tiles, Total, Settle, Low16;
    SettleFields(s, abs, win);
    DropAckedTiles(s.outstanding, s.Una(), s.nextSeqno, abs);
    var rest := DropAcked(s.outstanding, abs);
    TilesTotal(rest, s.nextSeqno - Total(rest), s.nextSeqno);
    TilesTotal(s.outstanding, s.Una(), s.nextSeqno);
    SlicesDrop(s.outstanding, abs, s.Sent(), s.finSent, s.nextSeqno);
    SettleSyn(s, abs);
  }

  lemma SlicesDrop(q: seq<AbsSegment>, abs: nat, sent: seq<Byte>, finished: bool, limit: nat)
    requires AllSlices(q, sent, finished, limit)
    ensures AllSlices(DropAcked(q, abs), sent, finished, limit)
  {
    hide AbsSegment.SliceOf;
    DropAckedIsSuffix(q, abs);
    assert forall u <- DropAcked(q, abs) :: u in q;
  }

  /** A SYN still at the front was at the front before. */
  lemma SettleSyn(s: Sender, abs: nat)
    requires Inv(s)
    ensures var rest := DropAcked(s.outstanding, abs);
            rest != [] && rest[0].syn ==> rest == s.outstanding
  {
    var rest := DropAcked(s.outstanding, abs);
    DropAckedIsSuffix(s.outstanding, abs);
    if rest != [] && rest[0].syn && |rest| < |s.outstanding| {
      assert rest[0] in s.outstanding;
      TilesAbove(s.outstanding, s.Una(), s.nextSeqno, |s.outstanding| - |rest|);
    }
  }

  /** Every segment after the first starts above the first number. */
  lemma {:induction false} TilesAbove(q: seq<AbsSegment>, lo: int, hi: int, i: nat)
    requires Tiles(q, lo, hi) && 0 < i < |q|
    ensures lo < q[i].start
  {
    if i > 1 { TilesAbove(q[1..], q[0].End(), hi, i - 1); } else { assert q[1..] != []; }
  }

  // ----- filling the window -----

  /** Everything but the stream position, the queues and their accounts is as before. */
  predicate SameContext(s: Sender, s': Sender) {
    && s'.isn == s.isn && s'.initialRto == s.initialRto
    && s'.stream == s.stream.(nread := s'.stream.nread) && s.stream.nread <= s'.stream.nread
    && s'.Una() == s.Una() && s.nextSeqno <= s'.nextSeqno
    && s'.lastAck == s.lastAck && s'.windowSize == s.windowSize
    && s'.retx == s.retx && s'.rto == s.rto && s'.sinceAck == s.sinceAck
    && s'.elapsed <= s.elapsed
    && (s.synSent ==> s'.synSent) && (s.finSent ==> s'.finSent)
    && (s'.finSent && !s.finSent ==> s'.stream.nread == |s'.stream.written|)
  }

  /**
   * New segments went to the end of both queues alike. Each takes up at least one number and
   * carries at most a maximal payload; the last one carries the FIN exactly when it was just sent.
   */
  predicate Appends(s: Sender, s': Sender) {
    && s.outstanding <= s'.outstanding && s.queue <= s'.queue
    && s'.outstanding[|s.outstanding|..] == s'.queue[|s.queue|..]
    && forall i :: |s.outstanding| <= i < |s'.outstanding| ==>
         && 0 < s'.outstanding[i].Length()
         && |s'.outstanding[i].payload| <= MAX_PAYLOAD_SIZE
         && (s'.outstanding[i].fin <==> i == |s'.outstanding| - 1 && s'.finSent && !s.finSent)
  }

  lemma AppendsTrans(s: Sender, t: Sender, s': Sender)
    requires Appends(s, t) && Appends(t, s') && !t.finSent && !s.finSent
    requires |t.outstanding| < |s'.outstanding|
    ensures Appends(s, s')
  {
    assert s'.outstanding[|s.outstanding|..] == t.outstanding[|s.outstanding|..] + s'.outstanding[|t.outstanding|..];
    assert s'.queue[|s.queue|..] == t.queue[|s.queue|..] + s'.queue[|t.queue|..];
    forall i | |s.outstanding| <= i < |t.outstanding|
      ensures s'.outstanding[i] == t.outstanding[i]
    {
    }
  }

  lemma SameTrans(s: Sender, t: Sender, s': Sender)
    requires SameContext(s, t) && SameContext(t, s') && s'.Valid()
    ensures SameContext(s, s')
  {
  }

  lemma SendDataAppends(s: Sender, n: nat, fin: bool)
    requires s.Valid() && n <= s.stream.Size() && n <= MAX_PAYLOAD_SIZE && (n > 0 || fin) && !s.finSent
    requires fin ==> n == s.stream.Size()
    ensures var s' := SendData(s, n, fin);
            && Appends(s, s') && SameContext(s, s')
            && |s'.outstanding| == |s.outstanding| + 1
  {
    hide AbsSegment.SliceOf;
    var s' := SendData(s, n, fin);
    assert s'.outstanding[|s.outstanding|..] == s'.queue[|s.queue|..];
  }

  /** One turn of the loop fits the free space and takes at least one number of it. */
  lemma FillTurn(s: Sender)
    requires Inv(s) && s.synSent && !s.finSent && !SynOutstanding(s) && HasWork(s) && s.freeSpace > 0
    ensures var s' := SendData(s, PayloadSize(s), FinFits(s));
            && Inv(s') && SameContext(s, s') && Appends(s, s')
            && s'.nextSeqno - s.nextSeqno == s.freeSpace - s'.freeSpace > 0
            && (s'.stream.Size() > 0 ==> !s'.finSent)
            && (s'.stream.Size() == 0 && s.stream.ended ==> s'.finSent || s'.freeSpace == 0)
            && |s'.outstanding| == |s.outstanding| + 1 && !SynOutstanding(s')
            && s'.synSent && s'.stream.ended == s.stream.ended
  {
    hide Inv, SendData, SameContext, Appends, AbsSegment.SliceOf;
    InvValid(s);
    SendDataInv(s, PayloadSize(s), FinFits(s));
    SendDataAppends(s, PayloadSize(s), FinFits(s));
  }

  /**
   * The loop keeps the invariant, never sends past the free space it started with, and stops only
   * with the space used up, or with nothing left to send and the FIN out if the input had ended.
   */
  lemma {:induction false} FillLoopInv(s: Sender)
    requires Inv(s) && s.synSent && !s.finSent && !SynOutstanding(s) && HasWork(s)
    ensures var s' := FillLoop(s);
            && Inv(s') && SameContext(s, s') && Appends(s, s')
            && s'.nextSeqno - s.nextSeqno == s.freeSpace - s'.freeSpace
            && (s.freeSpace > 0 ==> s.nextSeqno < s'.nextSeqno && |s.outstanding| < |s'.outstanding|)
            && (s'.freeSpace == 0 || (s'.stream.Size() == 0 && (s.stream.ended ==> s'.finSent)))
    decreases s.freeSpace
  {
    hide Inv;
    if s.freeSpace > 0 {
      hide Inv, SendData, FinFits, PayloadSize, SameContext, Appends;
      InvValid(s);
      FillTurn(s);
      var t := SendData(s, PayloadSize(s), FinFits(s));
      if t.stream.Size() > 0 {
        FillLoopInv(t);
        SameTrans(s, t, FillLoop(t));
        if t.freeSpace > 0 {
          AppendsTrans(s, t, FillLoop(t));
        }
      }
    }
  }

  /** `fill_window` keeps the invariant whatever state it is called in. */
  lemma FillInv(s: Sender)
    requires Inv(s)
    ensures var s' := FillWindow(s);
            Inv(s') && SameContext(s, s') && Appends(s, s') && s'.synSent
  {
    hide Inv, SendData, FillLoop;
    InvValid(s);
    if !s.synSent {
      hide AbsSegment.SliceOf;
      SendSynInv(s);
    } else if FillWindow(s) != s {
      if s.windowSize != 0 {
        FillLoopInv(s);
      } else {
        ProbeInv(s);
      }
    }
  }

  lemma InvValid(s: Sender)
    requires Inv(s)
    ensures s.Valid() && Counted(s) && Accounted(s)
  {
  }

  lemma InvTiles(s: Sender)
    requires Inv(s)
    ensures s.Valid() && Counted(s) && Accounted(s) && (s.timerRunning <==> s.outstanding != [])
    ensures Tiles(s.outstanding, s.Una(), s.nextSeqno) && s.bytesInFlight == Total(s.outstanding)
  {
    TilesTotal(s.outstanding, s.Una(), s.nextSeqno);
  }

  /** A probe takes exactly one number: the FIN if the stream is at its end, one byte otherwise. */
  lemma ProbeInv(s: Sender)
    requires Inv(s) && s.synSent && !s.finSent && !SynOutstanding(s) && HasWork(s)
    ensures var s' := SendData(s, Min(1, s.stream.Size()), s.stream.Eof());
            && Inv(s') && SameContext(s, s') && Appends(s, s')
            && s'.nextSeqno == s.nextSeqno + 1
  {
    hide Inv, SendData, SameContext, Appends, AbsSegment.SliceOf;
    InvValid(s);
    SendDataInv(s, Min(1, s.stream.Size()), s.stream.Eof());
    SendDataAppends(s, Min(1, s.stream.Size()), s.stream.Eof());
  }

  /** If nothing is in flight, nothing is left to send: no buffered byte, and no FIN owed. */
  predicate Quiet(s: Sender)
    requires s.Valid()
  {
    s.bytesInFlight == 0 ==> s.synSent && (s.finSent || !HasWork(s))
  }

  /** With nothing in flight the free space is the whole advertised window. */
  lemma IdleFreeSpace(s: Sender)
    requires Inv(s) && s.bytesInFlight == 0
    ensures s.freeSpace == s.windowSize && s.outstanding == []
  {
    TilesTotal(s.outstanding, s.Una(), s.nextSeqno);
  }

  lemma FillQuiet(s: Sender)
    requires Inv(s)
    ensures Quiet(FillWindow(s))
  {
    hide Inv, SendData, FillLoop;
    InvValid(s);
    FillInv(s);
    if s.bytesInFlight == 0 {
      IdleFreeSpace(s);
      if s.synSent && !s.finSent && HasWork(s) && !SynOutstanding(s) {
        if s.windowSize != 0 { FillLoopInv(s); } else { ProbeInv(s); }
      }
    }
  }

  /**
   * Once the SYN is acknowledged, with a non-zero window whose edge did not retract, the window is
   * filled: no free number is left, or no buffered byte and no unsent FIN.
   */
  lemma FillMaximal(s: Sender)
    requires Inv(s) && 1 <= s.Una() && s.windowSize != 0 && s.nextSeqno <= s.Edge()
    ensures var s' := FillWindow(s);
            && (s'.nextSeqno == s'.Edge() || (s'.stream.Size() == 0 && (s.stream.ended ==> s'.finSent)) || s.finSent)
            && s'.nextSeqno <= s'.Edge()
  {
    hide Inv, SendData, FillLoop;
    InvValid(s);
    FillInv(s);
    InvValid(FillWindow(s));
    FrontSyn(s);
    if !s.finSent && HasWork(s) {
      FillLoopInv(s);
    }
  }

  /** The SYN is outstanding exactly while the oldest unacknowledged number is 0. */
  lemma FrontSyn(s: Sender)
    requires Inv(s)
    ensures SynOutstanding(s) <==> s.Una() == 0 && s.synSent
    ensures 0 <= s.Una() && (0 < s.lastAck ==> 0 < s.Una())
  {
    TilesTotal(s.outstanding, s.Una(), s.nextSeqno);
    if s.outstanding != [] { assert s.outstanding[0] in s.outstanding; }
  }

  lemma AckInv(s: Sender, abs: nat, win: U16)
    requires Inv(s)
    ensures var s' := AckAbs(s, abs, win);
            && Inv(s')
            && s.Una() <= s'.Una()
            && (s'.Una() <= s.Una() || s'.Una() <= abs)
            && s.nextSeqno <= s'.nextSeqno
            && s'.stream == s.stream.(nread := s'.stream.nread) && s.stream.nread <= s'.stream.nread
            && s'.isn == s.isn && s'.initialRto == s.initialRto
            && (s.finSent ==> s'.finSent) && (s.synSent ==> s'.synSent)
            && (s'.finSent && !s.finSent ==> s'.stream.nread == |s'.stream.written|)
            && s.queue <= s'.queue
            && s'.Edge() == (if AckValid(s, abs) then abs + win else s.Edge())
            && (AckValid(s, abs) ==> Quiet(s') && s'.lastAck == abs)
  {
    hide Inv, Settle, FillWindow;
    InvValid(s);
    if AckValid(s, abs) {
      SettleInv(s, abs, win);
      SettleContext(s, abs, win);
      FillInv(Settle(s, abs, win));
      FillQuiet(Settle(s, abs, win));
    }
  }

  /** Exactly the numbers from the oldest outstanding one to the next one to send are acted on: the window is theirs. */
  lemma AckTaken(s: Sender, abs: nat, win: U16)
    requires Inv(s)
    ensures var s' := AckAbs(s, abs, win);
            if s.Una() <= abs <= s.nextSeqno then s'.windowSize == win && s'.lastAck == abs && Quiet(s') else s' == s
  {
    hide Inv, Settle, FillWindow, Appends;
    InvValid(s);
    if AckValid(s, abs) {
      SettleInv(s, abs, win);
      SettleContext(s, abs, win);
      FillInv(Settle(s, abs, win));
      FillQuiet(Settle(s, abs, win));
    }
  }

  /** An acceptable acknowledgement of the whole front segment takes the oldest number past it. */
  lemma AckPops(s: Sender, abs: nat, win: U16)
    requires Inv(s) && Pops(s, abs)
    ensures s.outstanding[0].End() <= AckAbs(s, abs, win).Una()
  {
    hide Inv, Settle, FillWindow, Tiles, Total, DropAcked;
    InvTiles(s);
    var q := s.outstanding;
    TilesFront(q, s.Una(), s.nextSeqno, abs);
    DropAckedTiles(q[1..], q[0].End(), s.nextSeqno, abs);
    SettleFields(s, abs, win);
    SettleInv(s, abs, win);
    FillInv(Settle(s, abs, win));
  }

  /** The number is acceptable and covers the front segment. */
  predicate Pops(s: Sender, abs: nat) {
    AckValid(s, abs) && s.outstanding != [] && s.outstanding[0].End() <= abs
  }

  /** Exactly then does it take something for acknowledged. */
  lemma AckPopsExactly(s: Sender, abs: nat, win: U16)
    requires Inv(s)
    ensures s.Una() < AckAbs(s, abs, win).Una() <==> Pops(s, abs)
  {
    hide Inv, FillWindow, Appends;
    InvTiles(s);
    if AckValid(s, abs) {
      SettleInv(s, abs, win);
      FillInv(Settle(s, abs, win));
      if Pops(s, abs) {
        AckPops(s, abs, win);
        TilesFront(s.outstanding, s.Una(), s.nextSeqno, abs);
      }
    }
  }

  lemma SettleContext(s: Sender, abs: nat, win: U16)
    requires s.Valid()
    ensures var t := Settle(s, abs, win);
            && t == s.(windowSize := t.windowSize, freeSpace := t.freeSpace, outstanding := t.outstanding,
                       bytesInFlight := t.bytesInFlight, elapsed := t.elapsed, rto := t.rto, retx := t.retx,
                       timerRunning := t.timerRunning, lastAck := abs, sinceAck := t.sinceAck)
            && t.windowSize == win
  {
  }

  // ----- moving on -----

  /** The sender moved on: it sent more of the same stream, and its oldest number stays covered. */
  predicate MovesOn(t: Sender, t': Sender)
    requires t.Valid() && t'.Valid()
  {
    && t.stream.written <= t'.stream.written && t.stream.nread <= t'.stream.nread
    && (t.stream.ended ==> t'.stream.ended && t'.stream.written == t.stream.written)
    && (t.finSent ==> t'.finSent) && (t.synSent ==> t'.synSent)
    && (t'.finSent && !t.finSent ==> t'.stream.nread == |t'.stream.written|)
    && t.nextSeqno <= t'.nextSeqno && t'.isn == t.isn
  }

  lemma FillMoves(s: Sender)
    requires Inv(s)
    ensures MovesOn(s, FillWindow(s))
  {
    hide Inv, FillWindow, Appends;
    InvValid(s);
    FillInv(s);
  }

  lemma AckMoves(s: Sender, abs: nat, win: U16)
    requires Inv(s)
    ensures MovesOn(s, AckAbs(s, abs, win))
  {
    hide Inv, AckAbs, Quiet;
    InvValid(s);
    AckInv(s, abs, win);
  }

  lemma MovesTrans(s: Sender, t: Sender, r: Sender)
    requires s.Valid() && Inv(t) && r.Valid() && MovesOn(s, t) && MovesOn(t, r)
    ensures MovesOn(s, r)
  {
    hide Inv;
    InvValid(t);
  }

  // ----- flow control -----

  /** The sender is within the advertised edge, or one number past it, probing a closed window. */
  predicate WithinEdge(s: Sender) {
    || s.nextSeqno <= s.Edge()
    || (s.windowSize == 0 && s.nextSeqno == s.Edge() + 1)
  }

  lemma FillWithinEdge(s: Sender)
    requires Inv(s) && WithinEdge(s)
    ensures WithinEdge(FillWindow(s))
  {
    hide Inv, SendData, FillLoop, Appends;
    InvValid(s);
    FillInv(s);
    InvValid(FillWindow(s));
    if s.synSent && !s.finSent && HasWork(s) && !SynOutstanding(s) {
      if s.windowSize != 0 { FillLoopInv(s); } else { ProbeInv(s); }
    }
  }

  /** An acknowledgement that moves neither number nor right edge back keeps the sender within the edge. */
  lemma AckWithinEdge(s: Sender, abs: nat, win: U16)
    requires Inv(s) && WithinEdge(s) && AckValid(s, abs)
    requires s.lastAck <= abs && s.Edge() <= abs + win
    ensures WithinEdge(AckAbs(s, abs, win))
  {
    hide Inv, FillWindow, Settle;
    InvValid(s);
    SettleInv(s, abs, win);
    SettleContext(s, abs, win);
    FillWithinEdge(Settle(s, abs, win));
  }

  /** The sender answers this acknowledgement by sending past the right edge it has just been given. */
  predicate Overruns(s: Sender, abs: nat, win: U16)
    requires s.Valid()
  {
    var s' := AckAbs(s, abs, win);
    win != 0 && s.nextSeqno < s'.nextSeqno && abs + win < s'.nextSeqno
  }

  /**
   * Exactly when that happens: the edge lies below what was already sent, by something other than a
   * multiple of 2^16, and there is something to send. The 16-bit subtraction then turns the deficit
   * into free space.
   */
  lemma OverrunsExactly(s: Sender, abs: nat, win: U16)
    requires Inv(s) && AckValid(s, abs)
    ensures Overruns(s, abs, win) <==>
            && win != 0 && 1 <= abs && abs + win < s.nextSeqno && Low16(abs + win - s.nextSeqno) != 0
            && HasWork(s) && !s.finSent
  {
    hide Inv, FillWindow, Settle, Low16;
    InvValid(s);
    var t := Settle(s, abs, win);
    SettleInv(s, abs, win);
    SettleContext(s, abs, win);
    InvValid(t);
    FrontSyn(t);
    InEdge(abs + win, s.nextSeqno);
    if win != 0 {
      FillOverruns(t);
    }
  }

  /** An edge that lies ahead, within a window of it, is not cut by the 16-bit subtraction. */
  lemma InEdge(edge: nat, next: nat)
    ensures next <= edge < next + TWO16 ==> Low16(edge - next) == edge - next
  {
  }

  /** With an open window, filling sends exactly when there is free space, work, and the SYN is through. */
  lemma FillOverruns(t: Sender)
    requires Inv(t) && t.windowSize != 0
    ensures var t' := FillWindow(t);
            && (t.nextSeqno < t'.nextSeqno <==>
                  !t.synSent || (!SynOutstanding(t) && HasWork(t) && !t.finSent && t.freeSpace != 0))
            && t'.nextSeqno <= t.nextSeqno + (if t.synSent then t.freeSpace else 1)
  {
    hide Inv, SendData, FillLoop;
    InvValid(t);
    FillInv(t);
    if t.synSent && !t.finSent && HasWork(t) && !SynOutstanding(t) {
      FillLoopInv(t);
    }
  }

  /** With bytes left over, an acknowledgement that opens the window is used up to its edge. */
  lemma AckFills(s: Sender, abs: nat, win: U16)
    requires Inv(s) && AckValid(s, abs) && 1 <= abs && win != 0 && !s.finSent
    requires s.nextSeqno <= abs + win <= |s.stream.written|
    ensures var s' := AckAbs(s, abs, win);
            && s'.nextSeqno == s'.Edge() == abs + win && !s'.finSent
            && s'.stream.written == s.stream.written && s'.lastAck == abs
  {
    hide Inv, Settle, FillWindow, Appends;
    InvValid(s);
    var t := Settle(s, abs, win);
    SettleInv(s, abs, win);
    SettleContext(s, abs, win);
    FrontSyn(t);
    FillMaximal(t);
    FillInv(t);
    InvValid(FillWindow(t));
  }

  lemma SynFirst(capacity: nat, retxTimeout: U16, isn: U32)
    ensures var f := FillWindow(FreshSender(capacity, retxTimeout, isn));
            && f.nextSeqno == 1 && f.Una() == 0 && !f.finSent && f.stream == Empty(capacity) && f.synSent
            && f.queue == [SYN]
  {
  }

  /** With ten bytes to send, an acknowledgement of the SYN that opens a window of four sends one segment of four. */
  lemma OneSegment(s: Sender)
    requires Inv(s) && s.synSent && !s.finSent && s.nextSeqno == 1 && s.Una() == 0
    requires s.stream.Size() == 10 && !s.stream.ended
    ensures var s1 := AckAbs(s, 1, 4);
            var u := AbsSegment(1, false, false, s.stream.Buffered()[..4]);
            s1.nextSeqno == 5 && !s1.finSent && s1.queue == s.queue + [u] && s1.outstanding == [u]
  {
    hide Inv, Settle, SendData;
    InvValid(s);
    var t := Settle(s, 1, 4);
    SettleInv(s, 1, 4);
    SettleContext(s, 1, 4);
    InvTiles(t);
    FrontSyn(t);
    TilesTotal(t.outstanding, t.Una(), t.nextSeqno);
    assert t.freeSpace == 4 && PayloadSize(t) == 4 && !FinFits(t);
    SendDataInv(t, 4, false);
    assert FillLoop(t) == SendData(t, 4, false) by { assert SendData(t, 4, false).freeSpace == 0; }
    assert FillWindow(t) == FillLoop(t);
  }

  // ----- full segments -----

  /** The loop sends full segments: each but the last carries a thousand bytes. */
  lemma {:induction false} FullSegments(s: Sender)
    requires Inv(s) && s.synSent && !s.finSent && !SynOutstanding(s) && HasWork(s)
    ensures var q, q' := s.outstanding, FillLoop(s).outstanding;
            q <= q' && forall i :: |q| <= i < |q'| - 1 ==> |q'[i].payload| == 1000
    decreases s.freeSpace
  {
    hide Inv;
    InvValid(s);
    if s.freeSpace > 0 {
      hide SendData, SameContext, Appends;
      FillTurn(s);
      var t := SendData(s, PayloadSize(s), FinFits(s));
      TurnPayload(s);
      if t.stream.Size() > 0 {
        FullSegments(t);
        FillLoopInv(t);
        assert FillLoop(s) == FillLoop(t);
        assert t.outstanding[|s.outstanding|] == FillLoop(t).outstanding[|s.outstanding|];
      }
    }
  }

  lemma TurnPayload(s: Sender)
    requires s.Valid() && s.synSent && HasWork(s) && s.freeSpace > 0
    ensures var t := SendData(s, PayloadSize(s), FinFits(s));
            && t.outstanding[..|s.outstanding|] == s.outstanding && |t.outstanding| == |s.outstanding| + 1
            && (t.stream.Size() > 0 && t.freeSpace > 0 ==> |t.outstanding[|s.outstanding|].payload| == 1000)
  {
  }

  // ----- the retransmission timer -----

  /** The timer starts afresh, with the initial timeout, exactly when something was acknowledged. */
  lemma AckTimer(s: Sender, abs: nat, win: U16)
    requires Inv(s)
    ensures var s' := AckAbs(s, abs, win);
            if Pops(s, abs) then s'.retx == 0 && s'.rto == s.initialRto && s'.elapsed == 0
            else s'.retx == s.retx && s'.rto == s.rto && (s.outstanding != [] ==> s'.elapsed == s.elapsed)
  {
    hide Inv, Settle, FillWindow, DropAcked, Appends;
    InvTiles(s);
    if AckValid(s, abs) {
      SettleFields(s, abs, win);
      SettleInv(s, abs, win);
      FillInv(Settle(s, abs, win));
      DropFront(s.outstanding, abs);
      FillClock(Settle(s, abs, win));
    }
  }

  lemma DropFront(q: seq<AbsSegment>, abs: nat)
    ensures |DropAcked(q, abs)| < |q| <==> q != [] && q[0].End() <= abs
  {
  }

  /** Sending does not touch a clock that runs. */
  lemma FillClock(s: Sender)
    requires Inv(s)
    ensures s.outstanding != [] ==> FillWindow(s).elapsed == s.elapsed
  {
    hide SendData, Tiles, AllSlices, Low16;
    if s.synSent && !SynOutstanding(s) && HasWork(s) && !s.finSent && s.outstanding != [] {
      if s.windowSize != 0 { LoopClock(s); } else { DataClock(s, Min(1, s.stream.Size()), s.stream.Eof()); }
    }
  }

  lemma DataClock(s: Sender, n: nat, fin: bool)
    requires s.Valid() && n <= s.stream.Size() && s.timerRunning
    ensures SendData(s, n, fin).elapsed == s.elapsed && SendData(s, n, fin).timerRunning
  {
  }

  lemma {:induction false} LoopClock(s: Sender)
    requires s.Valid() && s.synSent && HasWork(s) && s.timerRunning
    ensures FillLoop(s).elapsed == s.elapsed
    decreases s.freeSpace
  {
    if s.freeSpace > 0 {
      hide SendData;
      TurnShrinks(s);
      DataClock(s, PayloadSize(s), FinFits(s));
      var t := SendData(s, PayloadSize(s), FinFits(s));
      if t.stream.Size() > 0 { LoopClock(t); }
    }
  }

  /** Ticks add up: two that do not reach the timeout count as one. */
  lemma TicksAddUp(s: Sender, a: nat, b: nat)
    requires s.Valid() && !Expires(s, a) && s.elapsed + a + b < TWO32
    ensures Tick(Tick(s, a), b) == Tick(s, a + b)
  {
    hide Tick;
    TickFields(s, a);
    TickFields(Tick(s, a), b);
    TickFields(s, a + b);
    assert (s.elapsed + a) % TWO32 == s.elapsed + a;
  }

  /**
   * Exactly when a tick counts a retransmission and doubles the timeout: the timer goes off, and the window is open
   * or it is the SYN that waits. A peer that keeps its window closed is probed for ever at the same pace.
   */
  lemma BacksOffExactly(s: Sender, ms: nat)
    requires Inv(s) && s.retx < 9 && 0 < s.rto < TWO31
    ensures var t := Tick(s, ms);
            && (t.retx == s.retx + 1 <==> Expires(s, ms) && (s.windowSize != 0 || SynOutstanding(s)))
            && (t.rto == 2 * s.rto <==> t.retx == s.retx + 1)
            && (t.retx == s.retx + 1 || (t.retx == s.retx && t.rto == s.rto))
            && t.queue == (if Expires(s, ms) then s.queue + [s.outstanding[0]] else s.queue)
  {
    hide Inv, Tick, Expires;
    InvTiles(s);
    TickFields(s, ms);
    ExpiresExactly(s, ms);
  }

  /** The timer goes off exactly if something is outstanding and the timeout is reached, short of a 32-bit turn. */
  lemma ExpiresExactly(s: Sender, ms: nat)
    requires Inv(s)
    ensures Expires(s, ms) ==> s.timerRunning
    ensures s.elapsed + ms < TWO32 ==> (Expires(s, ms) <==> s.outstanding != [] && s.rto <= s.elapsed + ms)
  {
    hide Inv;
    InvTiles(s);
  }

  /** `x` doubled `k` times. */
  function Doubled(x: nat, k: nat): nat {
    if k == 0 then x else 2 * Doubled(x, k - 1)
  }

  /**
   * The timeout has doubled once per consecutive retransmission, and the time waited since a segment
   * was last acknowledged is at least the sum of the timeouts that ran out.
   */
  predicate BackedOff(s: Sender) {
    && s.retx <= 9
    && s.rto == Doubled(s.initialRto, s.retx)
    && Doubled(s.initialRto, s.retx) - s.initialRto + s.elapsed <= s.sinceAck
  }

  lemma DoubledNine(x: nat, k: nat)
    requires k <= 9
    ensures x <= Doubled(x, k) <= 512 * x
    ensures k == 9 ==> Doubled(x, k) == 512 * x
  {
    DoubledUpTo(x, k);
    assert Doubled(x, 1) == 2 * x;
    assert Doubled(x, 2) == 4 * x;
    assert Doubled(x, 3) == 8 * x;
    assert Doubled(x, 4) == 16 * x;
    assert Doubled(x, 5) == 32 * x;
    assert Doubled(x, 6) == 64 * x;
    assert Doubled(x, 7) == 128 * x;
    assert Doubled(x, 8) == 256 * x;
    assert Doubled(x, 9) == 512 * x;
  }

  lemma {:induction false} DoubledUpTo(x: nat, k: nat)
    requires k <= 9
    ensures x <= Doubled(x, k) <= Doubled(x, 9)
    decreases 9 - k
  {
    if k < 9 { DoubledUpTo(x, k + 1); }
    if k > 0 { DoubledAtLeast(x, k); }
  }

  lemma {:induction false} DoubledAtLeast(x: nat, k: nat)
    ensures x <= Doubled(x, k)
  {
    if k > 0 { DoubledAtLeast(x, k - 1); }
  }

  /** A tick doubles the timeout only after it has run out in full. */
  lemma TickBackedOff(s: Sender, ms: nat)
    requires s.Valid() && BackedOff(s) && s.retx <= 8
    ensures BackedOff(Tick(s, ms))
  {
    hide Tick, Expires;
    TickFields(s, ms);
    DoubledNine(s.initialRto, s.retx);
    ExpiresWaited(s, ms);
  }

  /** The 32-bit clock shows no more than the time that passed. */
  lemma ExpiresWaited(s: Sender, ms: nat)
    ensures (s.elapsed + ms) % TWO32 <= s.elapsed + ms
    ensures Expires(s, ms) ==> s.rto <= s.elapsed + ms
  {
  }

  lemma AckBackedOff(s: Sender, abs: nat, win: U16)
    requires Inv(s) && BackedOff(s)
    ensures BackedOff(AckAbs(s, abs, win))
  {
    hide Inv, Settle, FillWindow, Appends;
    InvValid(s);
    if AckValid(s, abs) {
      SettleFields(s, abs, win);
      SettleContext(s, abs, win);
      SettleSinceAck(s, abs, win);
      SettleInv(s, abs, win);
      FillInv(Settle(s, abs, win));
    }
  }

  lemma SettleSinceAck(s: Sender, abs: nat, win: U16)
    requires s.Valid()
    ensures var t := Settle(s, abs, win);
            t.sinceAck == if |t.outstanding| < |s.outstanding| then 0 else s.sinceAck
  {
  }
}
