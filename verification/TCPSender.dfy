/** The sender object: wrapped sequence numbers and in-place accounts, proved to be the sender of `Senders`. */
module TCPSenders {
  import opened Basics
  import opened WrappingIntegers
  import opened ByteStreams
  import opened Segments
  import S = Senders

  /** `q` is the wire form of `u`. */
  ghost predicate Wired(q: seq<Segment>, u: seq<AbsSegment>, isn: U32) {
    |q| == |u| && forall i :: 0 <= i < |q| ==> q[i] == u[i].Wire(isn)
  }

  lemma WiredSnoc(q: seq<Segment>, u: seq<AbsSegment>, isn: U32, v: AbsSegment)
    requires Wired(q, u, isn)
    ensures Wired(q + [v.Wire(isn)], u + [v], isn)
  {
  }

  lemma WiredFront(q: seq<Segment>, u: seq<AbsSegment>, isn: U32)
    requires Wired(q, u, isn)
    ensures |q| == |u|
    ensures q != [] ==> q[0] == u[0].Wire(isn) && Wired(q[1..], u[1..], isn)
  {
  }

  class TCPSender {
    const isn: U32
    const initialRto: U16
    const stream: ByteStream
    var nextSeqno: nat
    var synSent: bool
    var finSent: bool
    var bytesInFlight: nat
    var windowSize: U16
    var freeSpace: U16
    var retx: U16
    var rto: U32
    var elapsed: U32
    var timerRunning: bool
    var outstanding: seq<Segment>
    var segmentsOut: seq<Segment>
    /** The outstanding segments by absolute number. */
    ghost var flight: seq<AbsSegment>
    /** The abstract state, and with it the two histories. */
    ghost var model: S.Sender

    ghost predicate Shape()
      reads this
    {
      Wired(outstanding, flight, isn)
    }

    /** The fields are those of the abstract state; the queues are its queues in wire form. */
    ghost predicate Tied()
      reads this, stream
    {
      && stream.Valid() && model.stream == stream.Model()
      && model.isn == isn && model.initialRto == initialRto
      && model.nextSeqno == nextSeqno && model.bytesInFlight == bytesInFlight
      && model.synSent == synSent && model.finSent == finSent
      && model.windowSize == windowSize && model.freeSpace == freeSpace
      && model.retx == retx && model.rto == rto
      && model.elapsed == elapsed && model.timerRunning == timerRunning
      && model.outstanding == flight && Wired(outstanding, flight, isn)
      && Wired(segmentsOut, model.queue, isn)
    }

    ghost predicate Valid()
      reads this, stream
    {
      Tied() && S.Inv(model)
    }

    constructor (capacity: nat, retxTimeout: U16, isn: U32)
      ensures Valid() && fresh(stream)
      ensures model == S.FreshSender(capacity, retxTimeout, isn)
    {
      this.isn, initialRto := isn, retxTimeout;
      stream := new ByteStream(capacity);
      nextSeqno, synSent, finSent, bytesInFlight, windowSize, freeSpace := 0, false, false, 0, 0, 0;
      retx, rto, elapsed, timerRunning := 0, retxTimeout, 0, false;
      outstanding, segmentsOut, flight := [], [], [];
      model := S.FreshSender(capacity, retxTimeout, isn);
    }

    /** Move the counters on by `length` numbers. */
    method Account(length: nat)
      modifies this`nextSeqno, this`bytesInFlight, this`freeSpace
      ensures nextSeqno == old(nextSeqno) + length && bytesInFlight == old(bytesInFlight) + length
      ensures freeSpace == if synSent then Low16(old(freeSpace) - length) else old(freeSpace)
    {
      nextSeqno := nextSeqno + length;
      bytesInFlight := bytesInFlight + length;
      if synSent {
        freeSpace := Low16(freeSpace - length);
      }
    }

    method StartTimer()
      modifies this`timerRunning, this`elapsed
      ensures timerRunning && elapsed == if old(timerRunning) then old(elapsed) else 0
    {
      if !timerRunning {
        timerRunning := true;
        elapsed := 0;
      }
    }

    /** Put a segment at the end of both queues. */
    method Enqueue(seg: Segment, ghost u: AbsSegment, ghost queue: seq<AbsSegment>)
      requires Shape() && seg == u.Wire(isn) && Wired(segmentsOut, queue, isn)
      modifies this`outstanding, this`segmentsOut, this`flight
      ensures Shape() && flight == old(flight) + [u] && Wired(segmentsOut, queue + [u], isn)
    {
      hide Wired, Low16, Wrap;
      WiredSnoc(segmentsOut, queue, isn, u);
      WiredSnoc(outstanding, flight, isn, u);
      segmentsOut := segmentsOut + [seg];
      outstanding, flight := outstanding + [seg], flight + [u];
    }

    /** `_send_segment`. */
    method SendSegment(seg: Segment)
      requires Tied() && seg.header == DEFAULT_HEADER.(syn := seg.header.syn, fin := seg.header.fin)
      modifies this
      ensures Tied() && model == S.SendSegment(old(model), seg.header.syn, seg.header.fin, seg.payload)
    {
      hide Wired, Low16, Wrap, AbsSegment.Length, Segment.LengthInSequenceSpace, S.SendSegment;
      S.SendFields(model, seg.header.syn, seg.header.fin, seg.payload);
      ghost var goal := S.SendSegment(model, seg.header.syn, seg.header.fin, seg.payload);
      ghost var u := AbsSegment(nextSeqno, seg.header.syn, seg.header.fin, seg.payload);
      var numbered := seg.(header := seg.header.(seqno := Wrap(nextSeqno, isn)));
      assert numbered == u.Wire(isn);
      Account(numbered.LengthInSequenceSpace());
      Enqueue(numbered, u, model.queue);
      StartTimer();
      model := goal;
    }

    /** The body of the loop in `fill_window`. */
    method FillOnce()
      requires Tied() && synSent && model.Valid()
      modifies this, stream
      ensures Tied() && model == S.SendData(old(model), S.PayloadSize(old(model)), S.FinFits(old(model)))
    {
      hide Wired, Low16, Wrap, S.SendSegment;
      var payloadSize := Min(stream.BufferSize(), Min(freeSpace, S.MAX_PAYLOAD_SIZE));
      var payload := stream.Read(payloadSize);
      var fin := stream.Eof() && freeSpace > payloadSize;
      if fin {
        finSent := true;
      }
      model := model.(stream := model.stream.Read(payloadSize), finSent := model.finSent || fin);
      SendSegment(Segment(DEFAULT_HEADER.(fin := fin), payload));
    }

    /** The loop of `fill_window`. */
    method FillLoop()
      requires Tied() && synSent && model.Valid() && S.HasWork(model)
      modifies this, stream
      ensures Tied() && model == S.FillLoop(old(model))
    {
      hide Wired, Low16, S.SendSegment;
      ghost var goal := S.FillLoop(model);
      while freeSpace != 0
        invariant Tied() && synSent && model.Valid() && S.HasWork(model)
        invariant S.FillLoop(model) == goal
        decreases freeSpace
      {
        S.TurnShrinks(model);
        FillOnce();
        if stream.BufferEmpty() {
          break;
        }
      }
    }

    /** The zero-window probe of `fill_window`. */
    method Probe()
      requires Tied() && model.Valid() && S.HasWork(model)
      modifies this, stream
      ensures Tied() && model == S.SendData(old(model), Min(1, old(model).stream.Size()), old(model).stream.Eof())
    {
      hide Wired, Low16, Wrap, S.SendSegment;
      if stream.Eof() {
        finSent := true;
        model := model.(stream := model.stream.Read(0), finSent := true);
        SendSegment(Segment(DEFAULT_HEADER.(fin := true), []));
      } else if !stream.BufferEmpty() {
        var payload := stream.Read(1);
        model := model.(stream := model.stream.Read(1), finSent := model.finSent || false);
        SendSegment(Segment(DEFAULT_HEADER, payload));
      }
    }

    /** `fill_window`. */
    method FillWindow()
      requires Valid()
      modifies this, stream
      ensures Valid() && model == S.FillWindow(old(model))
    {
      hide Wired, Low16, Wrap, S.Inv, S.FillLoop, S.SendSegment, S.SendData;
      S.InvValid(model);
      S.FillInv(model);
      WiredFront(outstanding, flight, isn);
      if !synSent {
        synSent := true;
        model := model.(synSent := true);
        SendSegment(Segment(DEFAULT_HEADER.(syn := true), []));
        return;
      }
      if outstanding != [] && outstanding[0].header.syn {
        return;
      }
      if stream.BufferSize() == 0 && !stream.Eof() {
        return;
      }
      if finSent {
        return;
      }
      if windowSize != 0 {
        FillLoop();
      } else if freeSpace == 0 {
        Probe();
      }
    }

    /** Nothing in flight is further back than `unwrap` can see. */
    ghost predicate Recent()
      reads this
    {
      Checkpoint(nextSeqno) && bytesInFlight <= TWO31
    }

    /** The front of the queue unwraps to its true number. */
    lemma FrontUnwraps()
      requires Shape() && Recent() && S.Tiles(flight, nextSeqno - bytesInFlight, nextSeqno) && outstanding != []
      ensures |flight| == |outstanding|
      ensures Unwrap(outstanding[0].header.seqno, isn, nextSeqno) == flight[0].start == nextSeqno - bytesInFlight
      ensures outstanding[0].LengthInSequenceSpace() == flight[0].Length()
    {
      hide Unwrap, Wrap;
      S.TilesTotal(flight, nextSeqno - bytesInFlight, nextSeqno);
      UnwrapWrap(flight[0].start, isn, nextSeqno);
    }

    /** `_ack_valid`; with nothing outstanding the lower bound is the next number. */
    function AckValid(absAckno: nat): (ok: bool)
      requires Valid() && Recent()
      reads this, stream
      ensures ok == S.AckValid(model, absAckno)
    {
      hide Unwrap, Wrap, Wired;
      WiredFront(outstanding, flight, isn);
      if outstanding == [] then
        S.TilesTotal(flight, nextSeqno - bytesInFlight, nextSeqno);
        absAckno == nextSeqno
      else
        FrontUnwraps();
        absAckno <= nextSeqno && absAckno >= Unwrap(outstanding[0].header.seqno, isn, nextSeqno)
    }

    /** The body of the loop in `ack_received`: the front segment is acknowledged. */
    method PopFront()
      requires Shape() && outstanding != [] && outstanding[0].LengthInSequenceSpace() <= bytesInFlight
      modifies this`bytesInFlight, this`outstanding, this`flight, this`elapsed, this`rto, this`retx
      ensures Shape() && |old(flight)| == |old(outstanding)|
      ensures flight == old(flight)[1..] && outstanding == old(outstanding)[1..]
      ensures bytesInFlight == old(bytesInFlight) - old(outstanding)[0].LengthInSequenceSpace()
      ensures elapsed == 0 && rto == initialRto && retx == 0
    {
      hide Wired;
      WiredFront(outstanding, flight, isn);
      bytesInFlight := bytesInFlight - outstanding[0].LengthInSequenceSpace();
      outstanding, flight := outstanding[1..], flight[1..];
      elapsed, rto, retx := 0, initialRto, 0;
    }

    /** The loop of `ack_received`. */
    method PopAcked(absAckno: nat)
      requires Shape() && Recent() && S.Tiles(flight, nextSeqno - bytesInFlight, nextSeqno)
      modifies this`bytesInFlight, this`outstanding, this`flight, this`elapsed, this`rto, this`retx
      ensures Shape() && flight == S.DropAcked(old(flight), absAckno) && bytesInFlight == S.Total(flight)
      ensures S.Tiles(flight, nextSeqno - bytesInFlight, nextSeqno) && bytesInFlight <= old(bytesInFlight)
      ensures var popped := |flight| < |old(flight)|;
              && elapsed == (if popped then 0 else old(elapsed))
              && rto == (if popped then initialRto else old(rto))
              && retx == (if popped then 0 else old(retx))
    {
      hide Wired, Low16, Unwrap, Wrap, S.Total, S.DropAcked, S.Tiles;
      ghost var before := flight;
      S.TilesTotal(flight, nextSeqno - bytesInFlight, nextSeqno);
      while outstanding != []
        invariant Shape() && bytesInFlight <= old(bytesInFlight)
        invariant S.DropAcked(flight, absAckno) == S.DropAcked(before, absAckno) && |flight| <= |before|
        invariant S.Tiles(flight, nextSeqno - bytesInFlight, nextSeqno) && bytesInFlight == S.Total(flight)
        invariant |flight| < |before| ==> elapsed == 0 && rto == initialRto && retx == 0
        invariant |flight| == |before| ==> elapsed == old(elapsed) && rto == old(rto) && retx == old(retx)
        decreases |outstanding|
      {
        FrontUnwraps();
        S.TilesFront(flight, nextSeqno - bytesInFlight, nextSeqno, absAckno);
        var seg := outstanding[0];
        if Unwrap(seg.header.seqno, isn, nextSeqno) + seg.LengthInSequenceSpace() <= absAckno {
          PopFront();
        } else {
          break;
        }
      }
      WiredFront(outstanding, flight, isn);
      if outstanding == [] { S.DropNone(absAckno); }
    }

    /** The free space left after the loop: what the window allows beyond the numbers already used. */
    method RecomputeFreeSpace(absAckno: nat, win: U16)
      requires Shape() && Recent() && S.Tiles(flight, nextSeqno - bytesInFlight, nextSeqno)
      requires outstanding == [] ==> absAckno == nextSeqno && freeSpace == win
      modifies this`freeSpace
      ensures freeSpace == Low16(absAckno + win - nextSeqno)
    {
      hide Wired, Unwrap, Wrap, S.Tiles;
      if outstanding != [] {
        FrontUnwraps();
        freeSpace := Low16(absAckno + win - Unwrap(outstanding[0].header.seqno, isn, nextSeqno) - bytesInFlight);
      }
    }

    /** The window is taken from the acknowledgement as it is. */
    method NoteWindow(win: U16)
      modifies this`windowSize, this`freeSpace
      ensures windowSize == freeSpace == win
    {
      windowSize, freeSpace := win, win;
    }

    method StopTimer()
      modifies this`timerRunning
      ensures timerRunning == (old(timerRunning) && bytesInFlight != 0)
    {
      if bytesInFlight == 0 {
        timerRunning := false;
      }
    }

    /** What `ack_received` does before it fills the window again, field by field. */
    method SettleCounters(absAckno: nat, win: U16)
      requires Shape() && Recent() && S.Tiles(flight, nextSeqno - bytesInFlight, nextSeqno)
      requires nextSeqno - bytesInFlight <= absAckno <= nextSeqno
      modifies this`windowSize, this`freeSpace, this`timerRunning,
               this`bytesInFlight, this`outstanding, this`flight, this`elapsed, this`rto, this`retx
      ensures Shape() && flight == S.DropAcked(old(flight), absAckno) && bytesInFlight == S.Total(flight)
      ensures windowSize == win && freeSpace == Low16(absAckno + win - nextSeqno)
      ensures timerRunning == (old(timerRunning) && bytesInFlight != 0)
      ensures var popped := |flight| < |old(flight)|;
              && elapsed == (if popped then 0 else old(elapsed))
              && rto == (if popped then initialRto else old(rto))
              && retx == (if popped then 0 else old(retx))
    {
      hide Wired, Low16, Unwrap, Wrap, S.Total, S.DropAcked, S.Tiles;
      S.DropAckedTiles(flight, nextSeqno - bytesInFlight, nextSeqno, absAckno);
      assert nextSeqno - S.Total(S.DropAcked(flight, absAckno)) <= absAckno <= nextSeqno;
      NoteWindow(win);
      PopAcked(absAckno);
      assert nextSeqno - bytesInFlight <= absAckno <= nextSeqno;
      WiredFront(outstanding, flight, isn);
      S.TilesTotal(flight, nextSeqno - bytesInFlight, nextSeqno);
      assert outstanding == [] ==> bytesInFlight == 0;
      RecomputeFreeSpace(absAckno, win);
      StopTimer();
    }

    method Settle(absAckno: nat, win: U16)
      requires Valid() && Recent() && S.AckValid(model, absAckno)
      modifies this
      ensures Valid() && model == S.Settle(old(model), absAckno, win)
    {
      hide Wired, Low16, S.Total, S.DropAcked, S.Inv, S.Tiles, S.Settle, S.Counted, S.Accounted;
      S.InvTiles(model);
      ghost var goal := S.Settle(model, absAckno, win);
      S.SettleFields(model, absAckno, win);
      S.SettleInv(model, absAckno, win);
      SettleCounters(absAckno, win);
      model := goal;
    }

    /** `ack_received`. */
    method AckReceived(ackno: U32, win: U16)
      requires Valid() && Recent()
      modifies this, stream
      ensures Valid() && model == S.AckReceived(old(model), ackno, win)
    {
      hide Wired, Low16, Unwrap, Wrap, S.Inv, S.Settle, S.FillWindow;
      S.InvValid(model);
      var absAckno := Unwrap(ackno, isn, nextSeqno);
      if !AckValid(absAckno) {
        return;
      }
      Settle(absAckno, win);
      FillWindow();
    }

    /** The timer went off: queue the oldest segment again, unchanged, and back off. */
    method Retransmit(ghost queue: seq<AbsSegment>)
      requires Shape() && flight != [] && Wired(segmentsOut, queue, isn)
      modifies this`segmentsOut, this`retx, this`rto, this`elapsed
      ensures Wired(segmentsOut, queue + [flight[0]], isn) && elapsed == 0
      ensures var backOff := windowSize != 0 || flight[0].syn;
              && retx == (if backOff then (old(retx) + 1) % TWO16 else old(retx))
              && rto == (if backOff then (2 * old(rto)) % TWO32 else old(rto))
    {
      hide Wired, Low16, Wrap;
      WiredFront(outstanding, flight, isn);
      WiredSnoc(segmentsOut, queue, isn, flight[0]);
      segmentsOut := segmentsOut + [outstanding[0]];
      if windowSize != 0 || outstanding[0].header.syn {
        retx, rto := (retx + 1) % TWO16, (2 * rto) % TWO32;
      }
      elapsed := 0;
    }

    /** `tick`; the invariant is what keeps it from reading the front of an empty queue. */
    method Tick(ms: nat)
      requires Valid()
      modifies this
      ensures Valid() && model == S.Tick(old(model), ms)
    {
      hide Wired, Low16, S.Inv, S.Tick, S.Tiles, S.Counted, S.Accounted;
      S.InvTiles(model);
      ghost var goal := S.Tick(model, ms);
      S.TickInv(model, ms);
      S.TickFields(model, ms);
      if timerRunning {
        elapsed := (elapsed + ms) % TWO32;
        if elapsed >= rto {
          Retransmit(model.queue);
        }
      }
      model := goal;
    }

    /** `send_empty_segment`. */
    method SendEmptySegment()
      requires Valid()
      modifies this`segmentsOut, this`model
      ensures Valid() && model == S.SendEmpty(old(model))
    {
      hide Wired, Low16, Wrap, AbsSegment.SliceOf, S.Inv;
      S.InvValid(model);
      S.SendEmptyInv(model);
      WiredSnoc(segmentsOut, model.queue, isn, AbsSegment(nextSeqno, false, false, []));
      segmentsOut := segmentsOut + [Segment(DEFAULT_HEADER.(seqno := Wrap(nextSeqno, isn)), [])];
      model := S.SendEmpty(model);
    }

    /** What the owner reads off the fields is what the abstract state says. */
    lemma Mirrors()
      requires Valid()
      ensures |segmentsOut| == |model.queue| && model.isn == isn && model.retx == retx
      ensures model.nextSeqno == nextSeqno && model.bytesInFlight == bytesInFlight
      ensures stream.Valid() && model.stream == stream.Model()
    {
    }

    /** The front of the queue to transmit, taken off it. */
    method Dequeue() returns (seg: Segment)
      requires Valid() && segmentsOut != []
      modifies this`segmentsOut, this`model
      ensures Valid() && old(model).queue != [] && seg == old(model).queue[0].Wire(isn)
      ensures model == old(model).(queue := old(model).queue[1..])
      ensures segmentsOut == old(segmentsOut)[1..]
    {
      hide Wired, Wrap, S.Inv;
      WiredFront(segmentsOut, model.queue, isn);
      S.DequeueInv(model);
      seg := segmentsOut[0];
      segmentsOut := segmentsOut[1..];
      model := model.(queue := model.queue[1..]);
    }

    /** `stream_in().write`. */
    method WriteStream(data: seq<Byte>) returns (accepted: nat)
      requires Valid()
      modifies stream, this`model
      ensures Valid() && model == old(model).Write(data)
      ensures accepted == |model.stream.written| - |old(model).stream.written|
    {
      hide Wired, S.Inv;
      S.InvValid(model);
      S.WriteInv(model, data);
      accepted := stream.Write(data);
      model := model.Write(data);
    }

    /** `stream_in().end_input`. */
    method EndStream()
      requires Valid()
      modifies stream, this`model
      ensures Valid() && model == old(model).EndInput()
    {
      hide Wired, S.Inv;
      S.InvValid(model);
      S.EndInv(model);
      stream.EndInput();
      model := model.EndInput();
    }

    /** `stream_in().set_error`. */
    method FailStream()
      requires Valid()
      modifies stream, this`model
      ensures Valid() && model == old(model).(stream := old(model).stream.SetError())
    {
      hide Wired, S.Inv;
      S.InvValid(model);
      S.FailInv(model);
      stream.SetError();
      model := model.(stream := model.stream.SetError());
    }
  }
}
