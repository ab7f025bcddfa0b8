/** The circular-buffer reassembler, proved to be the map-based one of `Reassembly`. */
module StreamReassemblers {
  import opened Basics
  import opened ByteStreams
  import opened Reassembly

  /** Where the byte with stream index `i` lives in a ring of `m` slots: the remainder of `i` by `m`. */
  function Slot(i: nat, m: nat): (s: nat)
    requires 0 < m
    ensures s < m
  {
    if i < m then i else Slot(i - m, m)
  }

  lemma {:induction false} SlotIsRemainder(i: nat, m: nat)
    requires 0 < m
    ensures Slot(i, m) == i % m
  {
    if i >= m {
      SlotIsRemainder(i - m, m);
      RemainderPeriodic(i - m, m);
    }
  }

  lemma RemainderPeriodic(i: nat, m: nat)
    requires 0 < m
    ensures (i + m) % m == i % m
  {
    var turns := (i + m) / m - i / m - 1;
    assert m * turns == i % m - (i + m) % m;
    TurnsAreLong(m, turns);
  }

  lemma TurnsAreLong(m: nat, turns: int)
    requires 0 < m
    ensures turns >= 1 ==> m * turns >= m
    ensures turns <= -1 ==> m * turns <= -(m as int)
  {
  }

  /** Indices less than a turn apart occupy different slots. */
  lemma {:induction false} SlotsDiffer(i: nat, j: nat, m: nat)
    requires 0 < m && i < j < i + m
    ensures Slot(i, m) != Slot(j, m)
    decreases j
  {
    if m <= i { SlotsDiffer(i - m, j - m, m); }
  }

  /** A ring of bytes and marks holds exactly `held`, for the window that starts at `lo`. */
  ghost predicate Ring(bytes: seq<Byte>, marks: seq<bool>, lo: nat, held: map<nat, Byte>) {
    var m := |marks|;
    && 0 < m == |bytes|
    && (forall i <- held :: lo <= i < lo + m)
    && (forall i: nat :: lo <= i < lo + m ==>
          && (marks[Slot(i, m)] <==> i in held)
          && (i in held ==> bytes[Slot(i, m)] == held[i]))
  }

  lemma RingEmpty(bytes: seq<Byte>, marks: seq<bool>)
    requires 0 < |marks| == |bytes| && forall k :: 0 <= k < |marks| ==> !marks[k]
    ensures Ring(bytes, marks, 0, map[])
  {
  }

  lemma RingWindow(bytes: seq<Byte>, marks: seq<bool>, lo: nat, held: map<nat, Byte>)
    requires Ring(bytes, marks, lo, held)
    ensures forall i <- held :: lo <= i < lo + |marks|
  {
  }

  /** Storing a byte in its slot adds it to what the ring holds. */
  lemma RingStore(bytes: seq<Byte>, marks: seq<bool>, lo: nat, held: map<nat, Byte>, i: nat, b: Byte)
    requires Ring(bytes, marks, lo, held) && lo <= i < lo + |marks|
    ensures Ring(bytes[Slot(i, |marks|) := b], marks[Slot(i, |marks|) := true], lo, held[i := b])
    ensures marks[Slot(i, |marks|)] <==> i in held
  {
    var m := |marks|;
    forall j: nat | lo <= j < lo + m && j != i
      ensures Slot(j, m) != Slot(i, m)
    {
      if i < j { SlotsDiffer(i, j, m); } else { SlotsDiffer(j, i, m); }
    }
  }

  /** Clearing the first slot of the window slides the window on by one. */
  lemma RingRelease(bytes: seq<Byte>, marks: seq<bool>, lo: nat, held: map<nat, Byte>)
    requires Ring(bytes, marks, lo, held) && lo in held
    ensures Ring(bytes, marks[Slot(lo, |marks|) := false], lo + 1, held - {lo})
  {
    var m := |marks|;
    forall j: nat | lo < j < lo + m
      ensures Slot(j, m) != Slot(lo, m)
    {
      SlotsDiffer(lo, j, m);
    }
    assert Slot(lo + m, m) == Slot(lo, m);
  }

  lemma ClipStep(held: map<nat, Byte>, data: seq<Byte>, index: nat, lo: nat, i: nat)
    requires Max(lo, index) <= i < index + |data|
    ensures (held + Clip(data, index, lo, i))[i := data[i - index]] == held + Clip(data, index, lo, i + 1)
  {
  }

  lemma ClipEnds(data: seq<Byte>, index: nat, lo: nat, hi: nat)
    requires lo <= hi
    ensures Clip(data, index, lo, Max(lo, index)) == map[]
    ensures Clip(data, index, lo, Max(Max(lo, index), Min(hi, index + |data|))) == Clip(data, index, lo, hi)
  {
  }

  /** Initial value of the end index: `size_t(-1)`, an index no stream reaches. */
  const NO_EOF: nat := TWO64 - 1

  class StreamReassembler {
    const output: ByteStream
    const capacity: nat
    const buffer: array<Byte>
    const bitMap: array<bool>
    var rpos: nat
    var unassembledBytes: nat
    var eofIndex: nat
    /** The bytes the ring holds, by stream index. */
    ghost var pending: map<nat, Byte>

    ghost predicate Valid()
      reads this, output, buffer, bitMap
    {
      && output.Valid() && output.capacity == capacity
      && rpos == output.nwritten
      && 0 < capacity == buffer.Length == bitMap.Length
      && Ring(buffer[..], bitMap[..], rpos, pending)
      && unassembledBytes == Count(pending, rpos, rpos + capacity)
      && Model().Valid()
    }

    ghost function Model(): (r: Reassembler)
      requires output.Valid()
      reads this, output
    {
      Reassembler(output.Model(), pending, if eofIndex == NO_EOF then None else Some(eofIndex))
    }

    constructor (capacity: nat)
      requires 0 < capacity
      ensures Valid() && Model() == Fresh(capacity)
      ensures fresh(output) && fresh(buffer) && fresh(bitMap)
      ensures this.capacity == capacity
    {
      hide Ring, Slot, Count;
      this.capacity := capacity;
      output := new ByteStream(capacity);
      buffer := new Byte[capacity](_ => 0);
      bitMap := new bool[capacity](_ => false);
      rpos, unassembledBytes, eofIndex, pending := 0, 0, NO_EOF, map[];
      new;
      CountIsSize(map[], 0, capacity);
      RingEmpty(buffer[..], bitMap[..]);
    }

    /** Body of the first loop: one byte goes to its slot and is counted the first time. */
    method StoreByte(i: nat, b: Byte)
      requires Valid() && rpos <= i < rpos + capacity
      modifies this`unassembledBytes, this`pending, buffer, bitMap
      ensures Valid() && pending == old(pending)[i := b]
    {
      hide Ring, Slot, Count;
      var bi := Slot(i, capacity);
      RingStore(buffer[..], bitMap[..], rpos, pending, i, b);
      ghost var bytes, marks := buffer[..][bi := b], bitMap[..][bi := true];
      buffer[bi] := b;
      if !bitMap[bi] {
        CountAdd(pending, i, b, rpos, rpos + capacity);
        bitMap[bi] := true;
        unassembledBytes := unassembledBytes + 1;
      } else {
        CountAgrees(pending, pending[i := b], rpos, rpos + capacity);
      }
      assert buffer[..] == bytes && bitMap[..] == marks;
      pending := pending[i := b];
    }

    /** First loop of `push_substring`: store the part of `data` inside the window. */
    method Store(data: seq<Byte>, index: nat)
      requires Valid()
      modifies this`unassembledBytes, this`pending, buffer, bitMap
      ensures Valid()
      ensures pending == old(pending) + Clip(data, index, rpos, rpos + capacity)
    {
      hide Ring, Slot, Clip, Count;
      var startIndex, endIndex := Max(rpos, index), Min(rpos + capacity, index + |data|);
      var i := startIndex;
      ghost var before := pending;
      ClipEnds(data, index, rpos, rpos + capacity);
      while i < endIndex
        modifies this`unassembledBytes, this`pending, buffer, bitMap
        invariant startIndex <= i <= Max(startIndex, endIndex)
        invariant Valid()
        invariant pending == before + Clip(data, index, rpos, i)
      {
        ClipStep(before, data, index, rpos, i);
        StoreByte(i, data[i - index]);
        i := i + 1;
      }
      assert i == Max(startIndex, endIndex);
    }

    /** Second loop: the end of the contiguous bytes at the front of the window. */
    method FindAvailable() returns (availEnd: nat)
      requires Valid()
      ensures availEnd == RunEnd(pending, rpos, rpos + capacity)
    {
      availEnd := rpos;
      while bitMap[Slot(availEnd, capacity)] && availEnd < rpos + capacity
        invariant rpos <= availEnd <= rpos + capacity
        invariant forall i: nat :: rpos <= i < availEnd ==> i in pending
        decreases rpos + capacity - availEnd
      {
        availEnd := availEnd + 1;
      }
      RunEndUnique(pending, rpos, rpos + capacity, availEnd);
    }

    /** Third loop: copy the available bytes out of the ring. */
    method Collect(availEnd: nat) returns (data: seq<Byte>)
      requires Valid() && rpos <= availEnd <= rpos + capacity
      requires forall i: nat :: rpos <= i < availEnd ==> i in pending
      ensures data == Bytes(pending, rpos, availEnd)
    {
      data := [];
      for i := rpos to availEnd
        invariant data == Bytes(pending, rpos, i)
      {
        data := data + [buffer[Slot(i, capacity)]];
      }
    }

    /** Fourth loop: free the slots of the bytes that were written. */
    method Release(count: nat)
      requires 0 < capacity == buffer.Length == bitMap.Length && Ring(buffer[..], bitMap[..], rpos, pending)
      requires unassembledBytes == Count(pending, rpos, rpos + capacity)
      requires forall i: nat :: rpos <= i < rpos + count ==> i in pending
      modifies this`rpos, this`unassembledBytes, this`pending, bitMap
      ensures rpos == old(rpos) + count
      ensures pending == map i | i in old(pending) && rpos <= i :: old(pending)[i]
      ensures Ring(buffer[..], bitMap[..], rpos, pending) && unassembledBytes == Count(pending, rpos, rpos + capacity)
    {
      hide Ring, Slot, Count;
      ghost var held := pending;
      assert pending == map j | j in held && rpos <= j :: held[j] by {
        RingWindow(buffer[..], bitMap[..], rpos, pending);
      }
      for i := rpos to rpos + count
        modifies bitMap, this`pending
        invariant pending == map j | j in held && i <= j :: held[j]
        invariant Count(pending, i, i + capacity) + i - rpos == unassembledBytes
        invariant Ring(buffer[..], bitMap[..], i, pending)
      {
        RingRelease(buffer[..], bitMap[..], i, pending);
        RingWindow(buffer[..], bitMap[..], i, pending);
        CountSlide(pending, i, i + capacity);
        ghost var marks := bitMap[..][Slot(i, capacity) := false];
        bitMap[Slot(i, capacity)] := false;
        assert bitMap[..] == marks;
        pending := pending - {i};
      }
      rpos := rpos + count;
      unassembledBytes := unassembledBytes - count;
    }

    /** Hand the bytes up to `availEnd` to the output, which takes what fits. */
    method WriteOut(availEnd: nat) returns (written: nat)
      requires Valid() && rpos <= availEnd <= rpos + capacity
      requires forall i: nat :: rpos <= i < availEnd ==> i in pending
      modifies output
      ensures output.Valid() && written == Min(availEnd - rpos, old(output.RemainingCapacity()))
      ensures output.Model() == old(output.Model()).(written := output.history)
      ensures output.history == old(output.history) + Bytes(pending, rpos, rpos + written)
    {
      hide Ring, Slot, Count, Bytes;
      var toSubmit := Collect(availEnd);
      written := output.Write(toSubmit);
      BytesPrefix(pending, rpos, rpos + written, availEnd);
    }

    /** Loops three and four: write what fits of the run up to `availEnd`, and free its slots. */
    method Commit(availEnd: nat)
      requires Valid() && rpos <= availEnd <= rpos + capacity
      requires forall i: nat :: rpos <= i < availEnd ==> i in pending
      modifies this`rpos, this`unassembledBytes, this`pending, output, bitMap
      ensures output.Valid() && rpos == old(rpos) + Min(availEnd - old(rpos), old(output.RemainingCapacity()))
      ensures old(rpos) <= rpos <= availEnd
      ensures output.Model()
              == old(output.Model()).(written := old(output.history) + Bytes(old(pending), old(rpos), rpos))
      ensures pending == map i | i in old(pending) && rpos <= i :: old(pending)[i]
      ensures Ring(buffer[..], bitMap[..], rpos, pending) && unassembledBytes == Count(pending, rpos, rpos + capacity)
    {
      hide Ring, Slot, Count, Bytes;
      var written := WriteOut(availEnd);
      Release(written);
    }

    /** Loops two to four: write the bytes at the front of the window, as far as they fit. */
    method Submit()
      requires Valid()
      modifies this, output, bitMap
      ensures Valid() && Model() == Emit(old(Model()))
      ensures eofIndex == old(eofIndex)
    {
      hide Ring, Slot, RunEnd, Count, Emit, Bytes;
      ghost var room := rpos + output.RemainingCapacity();
      ghost var after := EmitShape(Model(), RunEnd(pending, rpos, room));
      var availEnd := FindAvailable();
      RunEndMin(pending, rpos, room, rpos + capacity);
      if availEnd > rpos {
        Commit(availEnd);
      }
      assert pending == after.pending && output.Model() == after.out;
    }

    /** `push_substring`: the ring, its bitmap and its counters do what the map does. */
    method PushSubstring(data: seq<Byte>, index: nat, eof: bool)
      requires Valid()
      requires rpos + capacity < NO_EOF && index + |data| < NO_EOF
      modifies this, output, buffer, bitMap
      ensures Valid() && Model() == Push(old(Model()), data, index, eof)
      ensures unassembledBytes == |Model().pending|
    {
      hide Ring, Slot, Clip, RunEnd, Emit, Count, Push;
      ghost var before := Model();
      PushShape(before, data, index, eof);
      Store(data, index);
      assert pending == Merged(before, data, index);
      Submit();
      if eof {
        eofIndex := index + |data|;
      }
      if output.nwritten == eofIndex {
        output.EndInput();
      }
      CountIsSize(pending, rpos, rpos + capacity);
    }
  }

  lemma BytesPrefix(held: map<nat, Byte>, from: nat, mid: nat, end: nat)
    requires from <= mid <= end && forall i: nat :: from <= i < end ==> i in held
    ensures Bytes(held, from, end)[..mid - from] == Bytes(held, from, mid)
  {
  }

  lemma PushShape(r: Reassembler, data: seq<Byte>, index: nat, eof: bool)
    requires r.Valid()
    ensures var e := Emit(r.(pending := Merged(r, data, index)));
            var eofIndex := if eof then Some(index + |data|) else r.eofIndex;
            Push(r, data, index, eof)
            == Reassembler(e.out.(ended := e.out.ended || eofIndex == Some(e.Rpos())), e.pending, eofIndex)
  {
  }

  /** What `Emit` leaves, in terms of where the run ends. */
  lemma EmitShape(r: Reassembler, end: nat) returns (r': Reassembler)
    requires r.Valid() && end == RunEnd(r.pending, r.Rpos(), r.Rpos() + r.out.Room())
    ensures r' == Emit(r)
    ensures r'.out == r.out.(written := r.out.written + Bytes(r.pending, r.Rpos(), end)) && r'.eofIndex == r.eofIndex
    ensures r'.pending == map i | i in r.pending && end <= i :: r.pending[i]
    ensures end == r.Rpos() ==> r' == r
  {
    r' := Emit(r);
  }

  /** A tighter limit only cuts the run short. */
  lemma RunEndMin(held: map<nat, Byte>, from: nat, limit: nat, wider: nat)
    requires from <= limit <= wider
    ensures RunEnd(held, from, limit) == Min(limit, RunEnd(held, from, wider))
  {
    RunEndUnique(held, from, limit, Min(limit, RunEnd(held, from, wider)));
  }
}
