/**
 * What reassembly means, with no buffer in sight: bytes wait in a map from stream index
 * to byte until the index of the next byte to write is among them.
 */
module Reassembly {
  import opened Basics
  import opened ByteStreams

  datatype Reassembler = Reassembler(out: Stream, pending: map<nat, Byte>, eofIndex: Option<nat>) {

    /** Index of the next byte to write to the output. */
    function Rpos(): nat {
      |out.written|
    }

    predicate Valid() {
      && out.Valid()
      && 0 < out.capacity
      && forall i <- pending :: Rpos() <= i < Rpos() + out.capacity
    }
  }

  function Fresh(capacity: nat): (r: Reassembler)
    requires 0 < capacity
    ensures r.Valid()
  {
    Reassembler(Empty(capacity), map[], None)
  }

  function Span(lo: nat, hi: nat): (s: set<nat>)
    ensures forall i: nat :: i in s <==> lo <= i < hi
    decreases hi - lo
  {
    if lo < hi then {lo} + Span(lo + 1, hi) else {}
  }

  /** The bytes of `data` that fall inside [lo, hi), by stream index. */
  function Clip(data: seq<Byte>, index: nat, lo: nat, hi: nat): map<nat, Byte> {
    var span := Span(Max(lo, index), Min(hi, index + |data|));
    map i | i in span :: data[i - index]
  }

  /** Everything held once `data` has been stored over what was there. */
  function Merged(r: Reassembler, data: seq<Byte>, index: nat): map<nat, Byte> {
    r.pending + Clip(data, index, r.Rpos(), r.Rpos() + r.out.capacity)
  }

  /** The end of the longest contiguous run of `held` that starts at `from` and stops by `limit`. */
  function RunEnd(held: map<nat, Byte>, from: nat, limit: nat): (end: nat)
    requires from <= limit
    ensures from <= end <= limit
    ensures forall i: nat :: from <= i < end ==> i in held
    ensures end == limit || end !in held
    decreases limit - from
  {
    if from < limit && from in held then RunEnd(held, from + 1, limit) else from
  }

  function Bytes(held: map<nat, Byte>, from: nat, end: nat): (s: seq<Byte>)
    requires from <= end && forall i: nat :: from <= i < end ==> i in held
    ensures |s| == end - from && forall k :: 0 <= k < end - from ==> s[k] == held[from + k]
  {
    seq(end - from, k requires 0 <= k < end - from => held[from + k])
  }

  /** Write out the longest waiting run that fits and keep the rest. */
  function Emit(r: Reassembler): (r': Reassembler)
    requires r.Valid()
    ensures r'.Valid()
    ensures r.out.written <= r'.out.written
    ensures r'.out == r.out.(written := r'.out.written)
  {
    var end := RunEnd(r.pending, r.Rpos(), r.Rpos() + r.out.Room());
    r.(out := r.out.(written := r.out.written + Bytes(r.pending, r.Rpos(), end)),
       pending := map i | i in r.pending && end <= i :: r.pending[i])
  }

  /** `push_substring`: merge, write out what can be written, end the output at the end index. */
  function Push(r: Reassembler, data: seq<Byte>, index: nat, eof: bool): (r': Reassembler)
    requires r.Valid()
    ensures r'.Valid()
    ensures r.out.written <= r'.out.written && r'.out.nread == r.out.nread && r'.out.capacity == r.out.capacity
    ensures r.out.ended ==> r'.out.ended
  {
    var e := Emit(r.(pending := Merged(r, data, index)));
    var eofIndex := if eof then Some(index + |data|) else r.eofIndex;
    e.(eofIndex := eofIndex, out := e.out.(ended := e.out.ended || eofIndex == Some(e.Rpos())))
  }

  /** The run end is the only one: any run that cannot be extended ends there. */
  lemma {:induction false} RunEndUnique(held: map<nat, Byte>, from: nat, limit: nat, end: nat)
    requires from <= end <= limit
    requires forall i: nat :: from <= i < end ==> i in held
    requires end == limit || end !in held
    ensures RunEnd(held, from, limit) == end
    decreases end - from
  {
    if from < end {
      RunEndUnique(held, from + 1, limit, end);
    }
  }

  // ----- counting the waiting bytes -----

  /** How many indices in [lo, hi) are held. */
  function Count(held: map<nat, Byte>, lo: nat, hi: nat): nat
    requires lo <= hi
    decreases hi - lo
  {
    if lo == hi then 0 else (if lo in held then 1 else 0) + Count(held, lo + 1, hi)
  }

  /** The keys held in [lo, hi), counted as a set. */
  lemma {:induction false} CountKeys(held: map<nat, Byte>, keys: set<nat>, lo: nat, hi: nat)
    requires lo <= hi && forall i: nat :: i in keys <==> i in held && lo <= i < hi
    ensures Count(held, lo, hi) == |keys|
    decreases hi - lo
  {
    if lo == hi {
      assert keys == {};
    } else {
      CountKeys(held, keys - {lo}, lo + 1, hi);
    }
  }

  /** The number of waiting bytes is the number of indices held in the window. */
  lemma CountIsSize(held: map<nat, Byte>, lo: nat, hi: nat)
    requires lo <= hi && forall i <- held :: lo <= i < hi
    ensures Count(held, lo, hi) == |held|
  {
    CountKeys(held, held.Keys, lo, hi);
  }

  lemma {:induction false} CountAgrees(held: map<nat, Byte>, other: map<nat, Byte>, lo: nat, hi: nat)
    requires lo <= hi && forall i: nat :: lo <= i < hi ==> (i in held <==> i in other)
    ensures Count(held, lo, hi) == Count(other, lo, hi)
    decreases hi - lo
  {
    if lo < hi { CountAgrees(held, other, lo + 1, hi); }
  }

  lemma {:induction false} CountAdd(held: map<nat, Byte>, i: nat, b: Byte, lo: nat, hi: nat)
    requires lo <= i < hi && i !in held
    ensures Count(held[i := b], lo, hi) == Count(held, lo, hi) + 1
    decreases hi - lo
  {
    if lo == i { CountAgrees(held, held[i := b], lo + 1, hi); } else { CountAdd(held, i, b, lo + 1, hi); }
  }

  lemma {:induction false} CountSplit(held: map<nat, Byte>, lo: nat, mid: nat, hi: nat)
    requires lo <= mid <= hi
    ensures Count(held, lo, hi) == Count(held, lo, mid) + Count(held, mid, hi)
    decreases mid - lo
  {
    if lo < mid { CountSplit(held, lo + 1, mid, hi); }
  }

  /** Dropping the first index of a window and sliding the window on by one. */
  lemma CountSlide(held: map<nat, Byte>, lo: nat, hi: nat)
    requires lo < hi && lo in held && hi !in held
    ensures Count(held, lo, hi) == Count(held - {lo}, lo + 1, hi + 1) + 1
  {
    CountAgrees(held, held - {lo}, lo + 1, hi);
    CountSplit(held - {lo}, lo + 1, hi, hi + 1);
  }

  // ----- memory -----

  /** Bytes in memory: buffered for the reader, and waiting. */
  function Kept(r: Reassembler): nat
    requires r.Valid()
  {
    r.out.Size() + |r.pending|
  }

  lemma {:induction false} CountFull(held: map<nat, Byte>, lo: nat, hi: nat)
    requires lo <= hi && forall i: nat :: lo <= i < hi ==> i in held
    ensures Count(held, lo, hi) == hi - lo
    decreases hi - lo
  {
    if lo < hi { CountFull(held, lo + 1, hi); }
  }

  lemma {:induction false} CountBound(held: map<nat, Byte>, lo: nat, hi: nat)
    requires lo <= hi
    ensures Count(held, lo, hi) <= hi - lo
    decreases hi - lo
  {
    if lo < hi { CountBound(held, lo + 1, hi); }
  }

  /** Writing out moves bytes and neither loses nor repeats one. */
  lemma EmitConserves(r: Reassembler)
    requires r.Valid()
    ensures Kept(Emit(r)) == Kept(r)
  {
    var lo, hi := r.Rpos(), r.Rpos() + r.out.capacity;
    var end := RunEnd(r.pending, lo, lo + r.out.Room());
    CountIsSize(r.pending, lo, hi);
    CountIsSize(Emit(r).pending, end, hi);
    CountSplit(r.pending, lo, end, hi);
    CountFull(r.pending, lo, end);
    CountAgrees(r.pending, Emit(r).pending, end, hi);
  }

  /** What a push keeps is what was buffered and what is held once the data is merged. */
  lemma PushKept(r: Reassembler, data: seq<Byte>, index: nat, eof: bool)
    requires r.Valid()
    ensures Kept(Push(r, data, index, eof)) == r.out.Size() + |Merged(r, data, index)|
    ensures forall i <- Merged(r, data, index) :: r.Rpos() <= i < r.Rpos() + r.out.capacity
  {
    hide Emit, Clip;
    var t := r.(pending := Merged(r, data, index));
    assert t.Valid() by { MergedInside(r, data, index); }
    EmitConserves(t);
  }

  lemma MergedInside(r: Reassembler, data: seq<Byte>, index: nat)
    requires r.Valid()
    ensures r.(pending := Merged(r, data, index)).Valid()
  {
  }

  lemma PushBound(r: Reassembler, data: seq<Byte>, index: nat, eof: bool)
    requires r.Valid()
    ensures Kept(Push(r, data, index, eof)) <= r.out.Size() + r.out.capacity
  {
    hide Push, Kept, Count, Merged;
    PushKept(r, data, index, eof);
    CountIsSize(Merged(r, data, index), r.Rpos(), r.Rpos() + r.out.capacity);
    CountBound(Merged(r, data, index), r.Rpos(), r.Rpos() + r.out.capacity);
  }

  function Flood(n: nat): (data: seq<Byte>)
    ensures |data| == n
  {
    seq(n, _ => 0)
  }

  lemma FloodCovers(r: Reassembler)
    ensures forall i: nat :: r.Rpos() <= i < r.Rpos() + r.out.capacity ==>
              i in Merged(r, Flood(r.out.capacity), r.Rpos())
  {
  }

  /** A push of a whole window of bytes. */
  lemma FloodKeeps(r: Reassembler, eof: bool)
    requires r.Valid()
    ensures Kept(Push(r, Flood(r.out.capacity), r.Rpos(), eof)) == r.out.Size() + r.out.capacity
  {
    hide Push, Kept, Count, Merged, Flood;
    var held := Merged(r, Flood(r.out.capacity), r.Rpos());
    PushKept(r, Flood(r.out.capacity), r.Rpos(), eof);
    FloodCovers(r);
    CountIsSize(held, r.Rpos(), r.Rpos() + r.out.capacity);
    CountFull(held, r.Rpos(), r.Rpos() + r.out.capacity);
  }

  /**
   * The capacity is meant to limit buffered and waiting bytes together. No push can break that exactly
   * when the reader has taken everything.
   */
  lemma CapacityHolds(r: Reassembler)
    requires r.Valid()
    ensures (forall data, index, eof :: Kept(Push(r, data, index, eof)) <= r.out.capacity) <==> r.out.Size() == 0
  {
    hide Push, Kept;
    forall data, index, eof ensures Kept(Push(r, data, index, eof)) <= r.out.Size() + r.out.capacity {
      PushBound(r, data, index, eof);
    }
    FloodKeeps(r, false);
  }

  /** No byte waits beyond what an empty output buffer could still take. */
  predicate InsideEdge(r: Reassembler) {
    forall i <- r.pending :: i < r.out.nread + r.out.capacity
  }

  /** With all of them inside, memory is within the capacity. */
  lemma InsideKept(r: Reassembler)
    requires r.Valid() && InsideEdge(r)
    ensures Kept(r) <= r.out.capacity
  {
    hide Count;
    CountIsSize(r.pending, r.Rpos(), r.out.nread + r.out.capacity);
    CountBound(r.pending, r.Rpos(), r.out.nread + r.out.capacity);
  }

  /** A peer that stays inside the advertised window keeps the memory within the capacity. */
  lemma PolitePush(r: Reassembler, data: seq<Byte>, index: nat, eof: bool)
    requires r.Valid() && InsideEdge(r) && index + |data| <= r.out.nread + r.out.capacity
    ensures var r' := Push(r, data, index, eof);
            InsideEdge(r') && Kept(r') <= r.out.capacity
  {
    hide Kept, Count, Bytes;
    var held := Merged(r, data, index);
    var edge := r.out.nread + r.out.capacity;
    PushKept(r, data, index, eof);
    assert forall i <- held :: r.Rpos() <= i < edge;
    CountIsSize(held, r.Rpos(), edge);
    CountBound(held, r.Rpos(), edge);
  }

  // ----- agreement with one stream -----

  /** Written and waiting bytes are all bytes of `stream`, in their places. */
  predicate Agrees(r: Reassembler, stream: seq<Byte>) {
    && r.out.written <= stream
    && forall i <- r.pending :: i < |stream| && r.pending[i] == stream[i]
  }

  /** `data` is what `stream` holds from `index` on; an empty slice sits anywhere. */
  predicate SliceOf(data: seq<Byte>, index: nat, stream: seq<Byte>) {
    data == [] || (index + |data| <= |stream| && data == stream[index..index + |data|])
  }

  lemma MergedAgrees(r: Reassembler, data: seq<Byte>, index: nat, stream: seq<Byte>)
    requires Agrees(r, stream) && SliceOf(data, index, stream)
    ensures forall i <- Merged(r, data, index) :: i < |stream| && Merged(r, data, index)[i] == stream[i]
  {
    forall i | i in Clip(data, index, r.Rpos(), r.Rpos() + r.out.capacity)
      ensures i < |stream| && data[i - index] == stream[i]
    {
      assert data[i - index] == stream[index..index + |data|][i - index];
    }
  }

  lemma EmitAgrees(r: Reassembler, stream: seq<Byte>)
    requires r.Valid() && Agrees(r, stream)
    ensures Agrees(Emit(r), stream)
  {
    var end := RunEnd(r.pending, r.Rpos(), r.Rpos() + r.out.Room());
    assert r.Rpos() < end ==> end - 1 in r.pending;
    assert r.out.written + Bytes(r.pending, r.Rpos(), end) == stream[..end];
  }

  /** Slices of one stream leave a reassembler in agreement with it. */
  lemma PushAgrees(r: Reassembler, data: seq<Byte>, index: nat, eof: bool, stream: seq<Byte>)
    requires r.Valid() && Agrees(r, stream) && SliceOf(data, index, stream)
    ensures Agrees(Push(r, data, index, eof), stream)
  {
    hide Emit;
    MergedAgrees(r, data, index, stream);
    EmitAgrees(r.(pending := Merged(r, data, index)), stream);
  }

  /** A slice that starts no later than the next byte and fits is written out whole. */
  lemma PushDelivers(r: Reassembler, data: seq<Byte>, index: nat, eof: bool)
    requires r.Valid() && index <= r.Rpos() && index + |data| <= r.Rpos() + r.out.Room()
    ensures index + |data| <= Push(r, data, index, eof).Rpos()
  {
    var held := Merged(r, data, index);
    assert forall i: nat :: r.Rpos() <= i < index + |data| ==> i in held;
  }

  /** Data that holds the next byte gets at least that byte written, if there is room for one. */
  lemma PushProgress(r: Reassembler, data: seq<Byte>, index: nat, eof: bool)
    requires r.Valid() && index <= r.Rpos() < index + |data| && 0 < r.out.Room()
    ensures r.Rpos() < Push(r, data, index, eof).Rpos()
  {
    assert r.Rpos() in Merged(r, data, index);
  }

  // ----- what is held, index by index -----

  /** The byte known at an index: written, or waiting. */
  function At(r: Reassembler, i: nat): Option<Byte> {
    if i < r.Rpos() then Some(r.out.written[i]) else if i in r.pending then Some(r.pending[i]) else None
  }

  lemma EmitAt(r: Reassembler, i: nat)
    requires r.Valid()
    ensures At(Emit(r), i) == At(r, i)
  {
  }

  /** A push changes exactly the indices that the data covers inside the window, and there the data wins. */
  lemma PushAt(r: Reassembler, data: seq<Byte>, index: nat, eof: bool, i: nat)
    requires r.Valid()
    ensures At(Push(r, data, index, eof), i)
            == if r.Rpos() <= i < r.Rpos() + r.out.capacity && index <= i < index + |data| then Some(data[i - index])
               else At(r, i)
  {
    hide Emit;
    EmitAt(r.(pending := Merged(r, data, index)), i);
  }

  /** Nothing that could be written is left waiting. */
  lemma PushMaximal(r: Reassembler, data: seq<Byte>, index: nat, eof: bool)
    requires r.Valid()
    ensures var r' := Push(r, data, index, eof); r'.Rpos() !in r'.pending || r'.out.Room() == 0
  {
    hide Clip;
  }

  /** The state that the indices in `got` leave, with none of them written that has a gap before it. */
  ghost predicate Filled(r: Reassembler, got: set<nat>, stream: seq<Byte>) {
    && Agrees(r, stream)
    && (forall i: nat :: i < r.Rpos() ==> i in got)
    && r.Rpos() !in got
    && (forall i: nat :: i in r.pending <==> r.Rpos() <= i && i in got)
  }

  lemma PushFilled(r: Reassembler, data: seq<Byte>, index: nat, eof: bool, got: set<nat>, stream: seq<Byte>)
    requires r.Valid() && Filled(r, got, stream) && SliceOf(data, index, stream) && |stream| <= r.out.capacity
    ensures Filled(Push(r, data, index, eof), got + Span(index, index + |data|), stream)
  {
    hide Emit, Merged, Span;
    MergedCovers(r, data, index, got, stream);
    EmitFilled(r.(pending := Merged(r, data, index)), got + Span(index, index + |data|), stream);
  }

  /** Writing out leaves no index in front of a gap waiting. */
  lemma EmitFilled(r: Reassembler, got: set<nat>, stream: seq<Byte>)
    requires r.Valid() && Agrees(r, stream) && |stream| <= r.out.capacity
    requires forall i: nat :: i < r.Rpos() ==> i in got
    requires forall i: nat :: i in r.pending <==> r.Rpos() <= i && i in got
    ensures Filled(Emit(r), got, stream)
  {
    EmitAgrees(r, stream);
    var end := RunEnd(r.pending, r.Rpos(), r.Rpos() + r.out.Room());
    assert Emit(r).Rpos() == end;
    assert end !in r.pending;
    forall i: nat | i < end ensures i in got {
      assert r.Rpos() <= i ==> i in r.pending;
    }
  }

  lemma MergedCovers(r: Reassembler, data: seq<Byte>, index: nat, got: set<nat>, stream: seq<Byte>)
    requires r.Valid() && Filled(r, got, stream) && SliceOf(data, index, stream) && |stream| <= r.out.capacity
    ensures forall i: nat :: i in Merged(r, data, index) <==> r.Rpos() <= i && i in got + Span(index, index + |data|)
    ensures var t := r.(pending := Merged(r, data, index)); t.Valid() && Agrees(t, stream)
  {
    MergedAgrees(r, data, index, stream);
  }

  lemma FilledAlike(r1: Reassembler, r2: Reassembler, got: set<nat>, stream: seq<Byte>)
    requires Filled(r1, got, stream) && Filled(r2, got, stream)
    ensures r1.out.written == r2.out.written && r1.pending == r2.pending
  {
    assert !(r1.Rpos() < r2.Rpos()) && !(r2.Rpos() < r1.Rpos());
    assert r1.pending.Keys == r2.pending.Keys;
  }

  // ----- order independence -----

  /** What can happen to a reassembler fed from one stream: slices arrive, the reader reads. */
  datatype Op = Arrive(lo: nat, hi: nat, eof: bool) | Take(len: nat)

  predicate OpOf(op: Op, stream: seq<Byte>) {
    op.Arrive? ==> op.lo <= op.hi <= |stream| && (op.eof ==> op.hi == |stream|)
  }

  predicate OpsOf(ops: seq<Op>, stream: seq<Byte>) {
    forall op <- ops :: OpOf(op, stream)
  }

  function Apply(r: Reassembler, op: Op, stream: seq<Byte>): (r': Reassembler)
    requires r.Valid() && OpOf(op, stream)
    ensures r'.Valid()
  {
    match op
    case Arrive(lo, hi, eof) => Push(r, stream[lo..hi], lo, eof)
    case Take(len) => r.(out := r.out.Read(len))
  }

  function Run(capacity: nat, ops: seq<Op>, stream: seq<Byte>): (r: Reassembler)
    requires 0 < capacity && OpsOf(ops, stream)
    ensures r.Valid()
  {
    if ops == [] then Fresh(capacity) else Apply(Run(capacity, ops[..|ops| - 1], stream), ops[|ops| - 1], stream)
  }

  predicate Covered(ops: seq<Op>, i: nat) {
    exists op <- ops :: op.Arrive? && op.lo <= i < op.hi
  }

  predicate HasEof(ops: seq<Op>) {
    exists op <- ops :: op.Arrive? && op.eof
  }

  /** A state described by which indices arrived, and by nothing about when. */
  ghost predicate DescribedBy(r: Reassembler, ops: seq<Op>, stream: seq<Byte>) {
    && Agrees(r, stream)
    && (forall i: nat :: i < r.Rpos() ==> Covered(ops, i))
    && !Covered(ops, r.Rpos())
    && (forall i: nat :: i in r.pending <==> r.Rpos() <= i && Covered(ops, i))
    && r.eofIndex == (if HasEof(ops) then Some(|stream|) else None)
    && (r.out.ended <==> HasEof(ops) && r.out.written == stream)
  }

  lemma CoveredSnoc(ops: seq<Op>, op: Op, i: nat)
    ensures Covered(ops + [op], i) <==> Covered(ops, i) || (op.Arrive? && op.lo <= i < op.hi)
  {
    assert op in ops + [op];
  }

  lemma HasEofSnoc(ops: seq<Op>, op: Op)
    ensures HasEof(ops + [op]) <==> HasEof(ops) || (op.Arrive? && op.eof)
  {
    assert op in ops + [op];
  }

  /** The indices that arrived. */
  ghost function Indices(ops: seq<Op>, stream: seq<Byte>): (got: set<nat>)
    requires OpsOf(ops, stream)
    ensures forall i: nat :: i in got <==> Covered(ops, i)
  {
    var got := set i: nat | i < |stream| && Covered(ops, i);
    assert forall i: nat :: Covered(ops, i) ==> i < |stream|;
    got
  }

  lemma ArriveDescribed(r: Reassembler, ops: seq<Op>, op: Op, stream: seq<Byte>)
    requires r.Valid() && |stream| <= r.out.capacity && OpsOf(ops, stream)
    requires DescribedBy(r, ops, stream) && OpOf(op, stream) && op.Arrive?
    ensures DescribedBy(Apply(r, op, stream), ops + [op], stream)
  {
    hide Covered, HasEof, Emit, Merged, OpsOf, Agrees, Indices;
    var Arrive(lo, hi, eof) := op;
    var got := Indices(ops, stream);
    PushFilled(r, stream[lo..hi], lo, eof, got, stream);
    HasEofSnoc(ops, op);
    forall i: nat ensures Covered(ops + [op], i) <==> i in got + Span(lo, hi) {
      CoveredSnoc(ops, op, i);
    }
    EndsAtEof(r, ops, op, stream);
  }

  lemma EndsAtEof(r: Reassembler, ops: seq<Op>, op: Op, stream: seq<Byte>)
    requires r.Valid() && DescribedBy(r, ops, stream) && OpOf(op, stream) && op.Arrive?
    ensures var r' := Apply(r, op, stream);
            && r'.eofIndex == (if HasEof(ops + [op]) then Some(|stream|) else None)
            && (r'.out.ended <==> HasEof(ops + [op]) && r'.out.written == stream)
  {
    hide Covered, HasEof, Emit, Merged;
    PushAgrees(r, stream[op.lo..op.hi], op.lo, op.eof, stream);
    HasEofSnoc(ops, op);
  }

  /** With room for the whole stream, the state after any history is fixed by what arrived. */
  lemma {:induction false} RunDescribed(capacity: nat, ops: seq<Op>, stream: seq<Byte>)
    requires 0 < capacity && |stream| <= capacity && OpsOf(ops, stream)
    ensures var r := Run(capacity, ops, stream);
            r.out.capacity == capacity && DescribedBy(r, ops, stream)
  {
    if ops != [] {
      var init, op := ops[..|ops| - 1], ops[|ops| - 1];
      assert ops == init + [op];
      assert forall o <- init :: o in ops;
      RunDescribed(capacity, init, stream);
      var r := Run(capacity, init, stream);
      if op.Arrive? {
        ArriveDescribed(r, init, op, stream);
      } else {
        HasEofSnoc(init, op);
        forall i: nat ensures Covered(ops, i) <==> Covered(init, i) { CoveredSnoc(init, op, i); }
      }
    }
  }

  /**
   * Reordering arrivals, repeating them, and reading at different moments change nothing:
   * output, waiting bytes, end index and end-of-input flag come out the same.
   */
  lemma OrderIndependence(capacity: nat, ops1: seq<Op>, ops2: seq<Op>, stream: seq<Byte>)
    requires 0 < capacity && |stream| <= capacity
    requires OpsOf(ops1, stream) && OpsOf(ops2, stream)
    requires forall op: Op :: op.Arrive? ==> (op in ops1 <==> op in ops2)
    ensures var r1, r2 := Run(capacity, ops1, stream), Run(capacity, ops2, stream);
            && r1.out.written == r2.out.written
            && r1.pending == r2.pending
            && r1.eofIndex == r2.eofIndex
            && r1.out.ended == r2.out.ended
  {
    hide Run, DescribedBy;
    RunDescribed(capacity, ops1, stream);
    RunDescribed(capacity, ops2, stream);
    assert forall i: nat :: Covered(ops1, i) <==> Covered(ops2, i);
    DescribedAlike(Run(capacity, ops1, stream), Run(capacity, ops2, stream), ops1, ops2, stream);
  }

  lemma SameRpos(r1: Reassembler, r2: Reassembler, ops1: seq<Op>, ops2: seq<Op>, stream: seq<Byte>)
    requires DescribedBy(r1, ops1, stream) && DescribedBy(r2, ops2, stream)
    requires forall i: nat :: Covered(ops1, i) <==> Covered(ops2, i)
    ensures r1.Rpos() == r2.Rpos()
  {
    hide Covered, HasEof, Agrees;
    assert !Covered(ops2, r1.Rpos()) && !Covered(ops1, r2.Rpos());
  }

  /** Two states described by the same arrivals are alike. */
  lemma DescribedAlike(r1: Reassembler, r2: Reassembler, ops1: seq<Op>, ops2: seq<Op>, stream: seq<Byte>)
    requires DescribedBy(r1, ops1, stream) && DescribedBy(r2, ops2, stream)
    requires forall i: nat :: Covered(ops1, i) <==> Covered(ops2, i)
    requires HasEof(ops1) <==> HasEof(ops2)
    ensures r1.out.written == r2.out.written && r1.pending == r2.pending
    ensures r1.eofIndex == r2.eofIndex && r1.out.ended == r2.out.ended
  {
    hide Covered, HasEof;
    SameRpos(r1, r2, ops1, ops2, stream);
    assert r1.pending.Keys == r2.pending.Keys;
  }
}
