/** The flow-controlled in-memory byte stream. */
module ByteStreams {
  import opened Basics

  /**
   * What a stream is, seen from outside: every byte ever accepted, in order, and how
   * many of them the reader has taken. The buffer is the part in between.
   */
  datatype Stream = Stream(capacity: nat, written: seq<Byte>, nread: nat, ended: bool, error: bool) {

    predicate Valid() {
      nread <= |written| <= nread + capacity
    }

    function Size(): nat
      requires Valid()
    {
      |written| - nread
    }

    function Buffered(): seq<Byte>
      requires Valid()
    {
      written[nread..]
    }

    function Room(): nat
      requires Valid()
    {
      capacity - Size()
    }

    predicate Eof()
      requires Valid()
    {
      ended && Size() == 0
    }

    /** Accept the longest prefix of `data` that fits. */
    function Write(data: seq<Byte>): (s: Stream)
      requires Valid()
      ensures s.Valid() && written <= s.written <= written + data
      ensures s.written == written + data || s.Room() == 0
    {
      this.(written := written + data[..Min(|data|, Room())])
    }

    /** Take up to `len` bytes off the front of the buffer. */
    function Read(len: nat): (s: Stream)
      requires Valid()
      ensures s.Valid() && s.written == written && s.Size() + Min(len, Size()) == Size()
    {
      this.(nread := nread + Min(len, Size()))
    }

    function End(): (s: Stream) {
      this.(ended := true)
    }

    function SetError(): (s: Stream) {
      this.(error := true)
    }
  }

  function Empty(capacity: nat): (s: Stream)
    ensures s.Valid()
  {
    Stream(capacity, [], 0, false, false)
  }

  // ----- first in, first out -----

  datatype Op = Put(data: seq<Byte>) | Get(len: nat) | Close

  function Perform(s: Stream, op: Op): (s': Stream)
    requires s.Valid()
    ensures s'.Valid()
  {
    match op
    case Put(data) => s.Write(data)
    case Get(len) => s.Read(len)
    case Close => s.End()
  }

  /** What an operation hands to the reader. */
  function Output(s: Stream, op: Op): seq<Byte>
    requires s.Valid()
  {
    if op.Get? then s.Buffered()[..Min(op.len, s.Size())] else []
  }

  function Replay(s: Stream, ops: seq<Op>): (r: (Stream, seq<Byte>))
    requires s.Valid()
    ensures r.0.Valid()
    decreases |ops|
  {
    if ops == [] then (s, []) else
    var (t, out) := Replay(Perform(s, ops[0]), ops[1..]);
    (t, Output(s, ops[0]) + out)
  }

  lemma PerformInOrder(s: Stream, op: Op)
    requires s.Valid()
    ensures var t := Perform(s, op);
            && s.written <= t.written && s.nread <= t.nread
            && t.written[..t.nread] == s.written[..s.nread] + Output(s, op)
  {
  }

  /** Over any history, everything read, put end to end, is the front of everything accepted. */
  lemma {:induction false} ReadsAreInOrder(s: Stream, ops: seq<Op>)
    requires s.Valid()
    ensures var (t, out) := Replay(s, ops);
            && s.written <= t.written && s.nread <= t.nread
            && t.written[..t.nread] == s.written[..s.nread] + out
    decreases |ops|
  {
    hide Perform, Output;
    if ops != [] {
      PerformInOrder(s, ops[0]);
      ReadsAreInOrder(Perform(s, ops[0]), ops[1..]);
      var first, rest := Output(s, ops[0]), Replay(Perform(s, ops[0]), ops[1..]).1;
      assert s.written[..s.nread] + first + rest == s.written[..s.nread] + (first + rest);
    }
  }

  class ByteStream {
    var buffer: seq<Byte>
    const capacity: nat
    var size: nat
    var nwritten: nat
    var nread: nat
    var inputEnded: bool
    var error: bool
    /** Every byte ever accepted. */
    ghost var history: seq<Byte>

    ghost predicate Valid()
      reads this
    {
      && nwritten == |history|
      && nread <= nwritten
      && buffer == history[nread..]
      && size == |buffer| <= capacity
    }

    ghost function Model(): (s: Stream)
      requires Valid()
      reads this
      ensures s.Valid()
    {
      Stream(capacity, history, nread, inputEnded, error)
    }

    constructor (capacity: nat)
      ensures Valid() && Model() == Empty(capacity)
    {
      this.capacity := capacity;
      buffer, size, nwritten, nread, inputEnded, error := [], 0, 0, 0, false, false;
      history := [];
    }

    function BufferSize(): (n: nat)
      requires Valid()
      reads this
      ensures n == Model().Size()
    {
      size
    }

    predicate BufferEmpty()
      requires Valid()
      reads this
      ensures BufferEmpty() == (Model().Buffered() == [])
    {
      size == 0
    }

    predicate Eof()
      requires Valid()
      reads this
      ensures Eof() == Model().Eof()
    {
      inputEnded && BufferEmpty()
    }

    function RemainingCapacity(): (n: nat)
      requires Valid()
      reads this
      ensures n == Model().Room()
    {
      capacity - size
    }

    method Write(data: seq<Byte>) returns (accepted: nat)
      requires Valid()
      modifies this
      ensures Valid() && Model() == old(Model()).Write(data)
      ensures accepted == nwritten - old(nwritten) == Min(|data|, old(RemainingCapacity()))
    {
      var toWrite := data[..Min(|data|, RemainingCapacity())];
      for i := 0 to |toWrite|
        modifies this`buffer
        invariant buffer == old(buffer) + toWrite[..i]
      {
        buffer := buffer + [toWrite[i]];
      }
      nwritten := nwritten + |toWrite|;
      size := size + |toWrite|;
      history := history + toWrite;
      accepted := |toWrite|;
    }

    method PeekOutput(len: nat) returns (r: seq<Byte>)
      requires Valid()
      ensures |r| == Min(len, Model().Size()) && r <= Model().Buffered()
    {
      r := buffer[..Min(size, len)];
    }

    method PopOutput(len: nat)
      requires Valid()
      modifies this
      ensures Valid() && Model() == old(Model()).Read(len)
    {
      var toPop := Min(size, len);
      for i := 0 to toPop
        modifies this`buffer
        invariant buffer == old(buffer)[i..]
      {
        buffer := buffer[1..];
      }
      nread := nread + toPop;
      size := size - toPop;
    }

    method Read(len: nat) returns (r: seq<Byte>)
      requires Valid()
      modifies this
      ensures Valid() && Model() == old(Model()).Read(len)
      ensures r == old(Model()).Buffered()[..Min(len, old(Model()).Size())]
    {
      r := PeekOutput(len);
      PopOutput(len);
    }

    method EndInput()
      requires Valid()
      modifies this
      ensures Valid() && Model() == old(Model()).End()
    {
      inputEnded := true;
    }

    method SetError()
      requires Valid()
      modifies this
      ensures Valid() && Model() == old(Model()).SetError()
    {
      error := true;
    }
  }
}
