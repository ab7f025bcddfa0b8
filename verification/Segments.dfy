/** TCP segments, on the wire and by absolute sequence number. */
module Segments {
  import opened Basics
  import opened WrappingIntegers
  import Reassembly

  datatype TCPHeader = TCPHeader(
    sport: U16, dport: U16, seqno: U32, ackno: U32, doff: Byte,
    urg: bool, ack: bool, psh: bool, rst: bool, syn: bool, fin: bool,
    win: U16, cksum: U16, uptr: U16)

  const DEFAULT_HEADER := TCPHeader(0, 0, 0, 0, 5, false, false, false, false, false, false, 0, 0, 0)

  datatype Segment = Segment(header: TCPHeader, payload: seq<Byte>) {
    function LengthInSequenceSpace(): nat {
      |payload| + (if header.syn then 1 else 0) + (if header.fin then 1 else 0)
    }
  }

  /** A segment together with the absolute number of its first element: 0 is the SYN, 1 the first byte. */
  datatype AbsSegment = AbsSegment(start: nat, syn: bool, fin: bool, payload: seq<Byte>) {

    function Length(): nat {
      |payload| + (if syn then 1 else 0) + (if fin then 1 else 0)
    }

    function End(): nat {
      start + Length()
    }

    /** Stream index of the first payload byte. */
    function Index(): nat {
      if start > 0 then start - 1 else 0
    }

    /** What goes on the wire: the number is cut to 32 bits. */
    function Wire(isn: U32): (s: Segment)
      ensures s.LengthInSequenceSpace() == Length()
    {
      Segment(DEFAULT_HEADER.(seqno := Wrap(start, isn), syn := syn, fin := fin), payload)
    }

    /** The segment is a slice of SYN, the bytes `sent`, and, once `finished`, FIN. */
    predicate SliceOf(sent: seq<Byte>, finished: bool) {
      && (syn ==> start == 0)
      && (start == 0 ==> syn || Length() == 0)
      && Reassembly.SliceOf(payload, Index(), sent)
      && (fin ==> finished && End() == |sent| + 2)
    }
  }

  /** `seg` is `u` on the wire, whatever its acknowledgement, window and reset fields say. */
  predicate Carries(seg: Segment, u: AbsSegment, isn: U32) {
    && seg.header.seqno == Wrap(u.start, isn)
    && seg.header.syn == u.syn && seg.header.fin == u.fin && seg.payload == u.payload
  }

  /** The segment that opens a connection. */
  const SYN := AbsSegment(0, true, false, [])

  /** Sending more bytes, or the FIN, leaves every earlier slice a slice. */
  lemma SliceStays(u: AbsSegment, sent: seq<Byte>, finished: bool, sent': seq<Byte>, finished': bool)
    requires u.SliceOf(sent, finished) && sent <= sent'
    requires finished ==> finished' && sent' == sent
    ensures u.SliceOf(sent', finished')
  {
    if u.payload != [] {
      var lo, hi := u.Index(), u.Index() + |u.payload|;
      assert sent'[lo..hi] == sent[lo..hi];
    }
  }
}
