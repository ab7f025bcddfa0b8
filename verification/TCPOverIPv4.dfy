/** Carrying TCP segments in IPv4 datagrams. */
module TCPOverIPv4 {
  import opened Basics
  import opened Checksums
  import opened Parsers
  import opened Segments
  import T = TCPSegmentCodec
  import I = IPv4Codec

  datatype Address = Address(ip: U32, port: U16)

  /** Source and destination as one end sees them, and whether it still listens for its peer. */
  datatype Adapter = Adapter(source: Address, destination: Address, listening: bool)

  function WithPorts(a: Adapter, seg: Segment): Segment {
    seg.(header := seg.header.(sport := a.source.port, dport := a.destination.port))
  }

  /** The header `wrap_tcp_in_ip` builds; the length is cut to 16 bits. */
  function HeaderFor(a: Adapter, seg: Segment): I.IPv4Header {
    I.DEFAULT_HEADER.(src := a.source.ip, dst := a.destination.ip,
                      len := Low16(4 * I.DEFAULT_HEADER.hlen + 4 * seg.header.doff + |seg.payload|))
  }

  /** `wrap_tcp_in_ip`. */
  function Wrap(a: Adapter, seg: Segment): I.IPv4Datagram
    requires 5 <= seg.header.doff
  {
    var h := HeaderFor(a, seg);
    I.IPv4Datagram(h, T.SegmentBytes(WithPorts(a, seg), h.PseudoCksum()))
  }

  /** `unwrap_tcp_in_ip`: the adapter afterwards, and the segment if it is for this connection. */
  function Unwrap(a: Adapter, d: I.IPv4Datagram): (Adapter, Option<Segment>) {
    Claim(a, d.header, T.ParseSegment(d.payload, d.header.PseudoCksum()))
  }

  /** The same once the payload is parsed. */
  function Claim(a: Adapter, h: I.IPv4Header, payload: (ParseResult, Option<Segment>)): (Adapter, Option<Segment>) {
    if !a.listening && h.dst != a.source.ip then (a, None)
    else if !a.listening && h.src != a.destination.ip then (a, None)
    else if h.proto != I.PROTO_TCP then (a, None)
    else
      var (result, parsed) := payload;
      if result != NoError || parsed.None? then (a, None)
      else
        var seg := parsed.value;
        if seg.header.dport != a.source.port then (a, None)
        else if a.listening && (!seg.header.syn || seg.header.rst) then (a, None)
        else
          var b := if a.listening
                   then Adapter(Address(h.dst, a.source.port), Address(h.src, seg.header.sport), false)
                   else a;
          (b, if seg.header.sport != b.destination.port then None else parsed)
  }

  /** The other end of a connection. */
  predicate Mirrored(a: Adapter, b: Adapter) {
    a.source == b.destination && a.destination == b.source
  }

  /** What is sent, apart from the checksum, which is filled in on the way. */
  predicate SameButChecksum(s: Segment, t: Segment) {
    t == s.(header := s.header.(cksum := t.header.cksum))
  }

  /** The datagram made of a segment can be serialized, and its lengths add up. */
  lemma WrapFits(a: Adapter, seg: Segment)
    requires 5 <= seg.header.doff && 20 + 4 * seg.header.doff + |seg.payload| < TWO16
    ensures var d := Wrap(a, seg);
            && I.CanSerialize(d)
            && d.header.len == 4 * d.header.hlen + |d.payload|
            && d.header.hlen < 0x10 && d.header.offset < 0x2000
  {
  }

  /** The pseudo-header sum does not depend on the header's own checksum. */
  lemma PseudoUnchanged(h: I.IPv4Header)
    requires 5 <= h.hlen
    ensures I.Checked(h).PseudoCksum() == h.PseudoCksum()
  {
  }

  /** What the other end parses out of a datagram's bytes. */
  function Transported(d: I.IPv4Datagram): (ParseResult, I.IPv4Datagram)
    requires I.CanSerialize(d)
  {
    I.ParseDatagram(I.DatagramBytes(d))
  }

  /**
   * Wrapped, serialized, parsed and unwrapped at the other end, a segment comes out as it went in, with
   * its ports set, for every data offset TCP allows. The receiving end keeps its adapter.
   */
  lemma Encapsulation(a: Adapter, b: Adapter, seg: Segment)
    requires Mirrored(a, b) && !b.listening
    requires 5 <= seg.header.doff < 0x10 && 20 + 4 * seg.header.doff + |seg.payload| < TWO16
    ensures var (result, d') := Transported(Wrap(a, seg));
            var (b', got) := Unwrap(b, d');
            && result == NoError
            && b' == b
            && got.Some? && SameButChecksum(WithPorts(a, seg), got.value)
  {
    hide T.SegmentBytes, T.ParseSegment, I.DatagramBytes, I.ParseDatagram, I.HeaderBytes, T.HeaderBytes;
    var d := Wrap(a, seg);
    WrapFits(a, seg);
    I.DatagramRoundTrip(d);
    PseudoUnchanged(d.header);
    T.SegmentRoundTrip(WithPorts(a, seg), d.header.PseudoCksum());
  }

  /** A listening end takes a SYN from anyone that names its port, and from then on answers that peer only. */
  lemma ListenLearnsPeer(a: Adapter, b: Adapter, seg: Segment)
    requires b.listening && a.destination.port == b.source.port && seg.header.syn && !seg.header.rst
    requires 5 <= seg.header.doff < 0x10 && 20 + 4 * seg.header.doff + |seg.payload| < TWO16
    ensures var (result, d') := Transported(Wrap(a, seg));
            var (b', got) := Unwrap(b, d');
            && result == NoError
            && Mirrored(a, b') && !b'.listening
            && got.Some? && SameButChecksum(WithPorts(a, seg), got.value)
  {
    hide T.SegmentBytes, T.ParseSegment, I.DatagramBytes, I.ParseDatagram, I.HeaderBytes, T.HeaderBytes;
    var d := Wrap(a, seg);
    WrapFits(a, seg);
    I.DatagramRoundTrip(d);
    PseudoUnchanged(d.header);
    T.SegmentRoundTrip(WithPorts(a, seg), d.header.PseudoCksum());
  }

  // ----- what goes on the wire, and what comes off it -----

  /** Whose name a wrapped segment carries: this end's address and port as source, the peer's as destination. */
  lemma WrapAddresses(a: Adapter, seg: Segment)
    requires 5 <= seg.header.doff < 0x10 && 20 + 4 * seg.header.doff + |seg.payload| < TWO16
    ensures var d := Wrap(a, seg);
            && d.header.ver == 4 && d.header.hlen == 5 && d.header.proto == 6 && d.header.ttl == 128
            && d.header.df && !d.header.mf && d.header.offset == 0
            && d.header.src == a.source.ip && d.header.dst == a.destination.ip
            && d.header.len == 20 + |d.payload| == 20 + 4 * seg.header.doff + |seg.payload|
            && d.payload[0..2] == Digits(a.source.port, 2) && d.payload[2..4] == Digits(a.destination.port, 2)
            && d.payload[4 * seg.header.doff..] == seg.payload
  {
    hide T.HeaderBytes, T.Checked, Digits;
    var d := Wrap(a, seg);
    var h := T.Checked(WithPorts(a, seg), d.header.PseudoCksum());
    CheckedPorts(WithPorts(a, seg), d.header.PseudoCksum());
    T.WrittenLayout(h);
    assert d.payload == T.HeaderBytes(h) + seg.payload;
    assert d.payload[0..2] == T.HeaderBytes(h)[0..2] && d.payload[2..4] == T.HeaderBytes(h)[2..4];
  }

  lemma CheckedPorts(seg: Segment, initial: nat)
    requires 5 <= seg.header.doff
    ensures T.Checked(seg, initial) == seg.header.(cksum := T.Checked(seg, initial).cksum)
  {
  }

  /** With the pseudo-header in front, a wrapped segment checks. */
  lemma WrapChecks(a: Adapter, seg: Segment)
    requires 5 <= seg.header.doff
    ensures var d := Wrap(a, seg); Checksum(0, I.PseudoHeader(d.header) + d.payload) == 0
  {
    hide T.SegmentBytes, Checksum, I.PseudoHeader;
    var d := Wrap(a, seg);
    T.SegmentChecks(WithPorts(a, seg), d.header.PseudoCksum());
    I.PseudoInFront(d.header, d.payload);
  }

  /** A wrapped segment that arrives under an address with one byte changed is handed on to no one. */
  lemma AddressProtected(a: Adapter, b: Adapter, seg: Segment, h: I.IPv4Header, i: nat)
    requires 5 <= seg.header.doff && i < 8
    requires var d := Wrap(a, seg);
             && h == d.header.(src := h.src, dst := h.dst) && (h.src != d.header.src || h.dst != d.header.dst)
             && I.PseudoHeader(h) == I.PseudoHeader(d.header)[i := I.PseudoHeader(h)[i]]
    ensures Unwrap(b, I.IPv4Datagram(h, Wrap(a, seg).payload)) == (b, None)
  {
    hide T.SegmentBytes, Checksum, I.PseudoHeader, T.ParseHeader;
    var d := Wrap(a, seg);
    T.SegmentChecks(WithPorts(a, seg), d.header.PseudoCksum());
    AddressesTell(h, d.header);
    I.PseudoProtects(d.header, h, d.payload, i);
  }

  lemma AddressesTell(h: I.IPv4Header, g: I.IPv4Header)
    ensures I.PseudoHeader(h) == I.PseudoHeader(g) ==> h.src == g.src && h.dst == g.dst
  {
    hide Digits;
    var p, q := I.PseudoHeader(h), I.PseudoHeader(g);
    assert p[..4] == Digits(h.src, 4) && q[..4] == Digits(g.src, 4);
    assert p[4..8] == Digits(h.dst, 4) && q[4..8] == Digits(g.dst, 4);
    HoldsWidths(h.src); HoldsWidths(g.src); HoldsWidths(h.dst); HoldsWidths(g.dst);
    NumberDigits(h.src, 4); NumberDigits(g.src, 4); NumberDigits(h.dst, 4); NumberDigits(g.dst, 4);
  }

  /**
   * Exactly what is handed on. A connected end takes TCP from its peer's address and port to its own; a listening one
   * takes TCP to its port, from anyone, if it is a SYN and not a reset. In both cases the segment must parse.
   */
  lemma HandedOnExactly(a: Adapter, d: I.IPv4Datagram)
    ensures var (result, parsed) := T.ParseSegment(d.payload, d.header.PseudoCksum());
            var (b, got) := Unwrap(a, d);
            && (got.Some? <==>
                  && d.header.proto == 6 && result == NoError && parsed.Some?
                  && parsed.value.header.dport == a.source.port
                  && (if a.listening then parsed.value.header.syn && !parsed.value.header.rst
                      else && d.header.dst == a.source.ip && d.header.src == a.destination.ip
                           && parsed.value.header.sport == a.destination.port))
            && (got.Some? ==> got == parsed)
            && b == (if got.Some? && a.listening
                     then Adapter(Address(d.header.dst, a.source.port),
                                  Address(d.header.src, parsed.value.header.sport), false)
                     else a)
  {
    hide T.ParseSegment;
  }

  // ----- what the dropped header results let through -----

  /** A segment that is handed on had a header its parser found good exactly for an offset of five or more. */
  lemma UnwrappedHeader(a: Adapter, d: I.IPv4Datagram)
    requires Unwrap(a, d).1.Some?
    ensures T.ParseHeader(Parser(d.payload, NoError)).1 == NoError <==> 5 <= Unwrap(a, d).1.value.header.doff
  {
    hide T.ParseSegment, T.ParseHeader;
    T.AcceptedHeader(d.payload, d.header.PseudoCksum());
  }

  /** Such a segment with a shorter offset, sent to a connected end by its peer, is handed on as valid. */
  lemma ShortOffsetUnwrapped(b: Adapter, h: TCPHeader, payload: seq<Byte>, ip: I.IPv4Header)
    requires !b.listening && ip.src == b.destination.ip && ip.dst == b.source.ip && ip.proto == I.PROTO_TCP
    requires h.doff < 5 && h.sport == b.destination.port && h.dport == b.source.port
    ensures var seg := T.ShortSegment(h, payload, ip.PseudoCksum());
            Unwrap(b, I.IPv4Datagram(ip, Encode(T.Fields(seg.header), T.WIDTHS) + payload)) == (b, Some(seg))
  {
    hide T.ParseSegment, T.ParseHeader, Encode, T.Fields, Checksum;
    T.ShortOffsetAccepted(h, payload, ip.PseudoCksum());
  }

  /**
   * A datagram whose IPv4 header has the wrong version or the wrong checksum is parsed without error, and
   * its segment handed on as if nothing were wrong.
   */
  lemma BadHeaderUnwrapped(a: Adapter, b: Adapter, seg: Segment, ver: Byte, cksum: U16)
    requires Mirrored(a, b) && !b.listening && ver < 0x10
    requires 5 <= seg.header.doff < 0x10 && 20 + 4 * seg.header.doff + |seg.payload| < TWO16
    ensures var d := Wrap(a, seg);
            var h := d.header.(ver := ver, cksum := cksum);
            var (result, d') := I.ParseDatagram(I.HeaderBytes(h) + d.payload);
            && result == NoError
            && Unwrap(b, d').1.Some? && SameButChecksum(WithPorts(a, seg), Unwrap(b, d').1.value)
            && (ver != 4 || Checksum(0, I.HeaderBytes(h)) != 0 ==>
                  I.ParseHeader(Parser(I.HeaderBytes(h) + d.payload, NoError)).1 != NoError)
  {
    hide T.SegmentBytes, T.ParseSegment, I.ParseDatagram, I.ParseHeader, I.HeaderBytes, T.HeaderBytes, Checksum;
    var d := Wrap(a, seg);
    var h := d.header.(ver := ver, cksum := cksum);
    WrapFits(a, seg);
    I.BadHeaderAccepted(h, d.payload);
    T.SegmentRoundTrip(WithPorts(a, seg), d.header.PseudoCksum());
  }

  class TCPOverIPv4Adapter {
    var source: Address
    var destination: Address
    var listening: bool

    ghost function Model(): Adapter
      reads this
    {
      Adapter(source, destination, listening)
    }

    constructor (source: Address, destination: Address, listening: bool)
      ensures Model() == Adapter(source, destination, listening)
    {
      this.source, this.destination, this.listening := source, destination, listening;
    }

    /** `wrap_tcp_in_ip`; a segment whose header is too short is refused. */
    method WrapTcpInIp(seg: Segment) returns (r: Option<I.IPv4Datagram>)
      ensures seg.header.doff < 5 ==> r == None
      ensures 5 <= seg.header.doff ==>
                var h, s := HeaderFor(Model(), seg), WithPorts(Model(), seg);
                var cksum := Checksum32(h.PseudoCksum(), T.HeaderBytes(s.header.(cksum := 0)) + s.payload);
                r == Some(I.IPv4Datagram(h, T.Sealed(s, cksum)))
      ensures 5 <= seg.header.doff && 4 * seg.header.doff + |seg.payload| < TWO16 ==> r == Some(Wrap(Model(), seg))
    {
      hide T.SegmentBytes, T.Sealed, T.HeaderBytes, Checksum32;
      var addressed := seg.(header := seg.header.(sport := source.port, dport := destination.port));
      var h := I.DEFAULT_HEADER.(src := source.ip, dst := destination.ip);
      h := h.(len := Low16(4 * h.hlen + 4 * seg.header.doff + |seg.payload|));
      var payload := T.WriteSegment(addressed, h.PseudoCksum());
      return if payload.None? then None else Some(I.IPv4Datagram(h, payload.value));
    }

    /** `unwrap_tcp_in_ip`. */
    method UnwrapTcpInIp(d: I.IPv4Datagram) returns (seg: Option<Segment>)
      modifies this
      ensures (Model(), seg)
              == Claim(old(Model()), d.header, T.ParseChecked(d.payload, Checksum32(d.header.PseudoCksum(), d.payload)))
      ensures |d.payload| < TWO16 ==> (Model(), seg) == Unwrap(old(Model()), d)
    {
      hide T.ParseSegment, T.ParseChecked, Checksum32;
      if !listening && d.header.dst != source.ip {
        return None;
      }
      if !listening && d.header.src != destination.ip {
        return None;
      }
      if d.header.proto != I.PROTO_TCP {
        return None;
      }
      var result, parsed := T.ReadSegment(d.payload, d.header.PseudoCksum());
      if result != NoError || parsed.None? {
        return None;
      }
      var header := parsed.value.header;
      if header.dport != source.port {
        return None;
      }
      if listening {
        if header.syn && !header.rst {
          source := Address(d.header.dst, source.port);
          destination := Address(d.header.src, header.sport);
          listening := false;
        } else {
          return None;
        }
      }
      if header.sport != destination.port {
        return None;
      }
      return parsed;
    }
  }
}
