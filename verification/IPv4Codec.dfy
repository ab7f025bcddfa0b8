/** IPv4 headers and datagrams on the wire (section 3.1 of RFC 791). */
module IPv4Codec {
  import opened Basics
  import opened Checksums
  import opened ChecksumFields
  import opened Parsers

  const HEADER_LENGTH := 20
  const DEFAULT_TTL: Byte := 128
  const PROTO_TCP: Byte := 6
  const WIDTHS: seq<nat> := [1, 1, 2, 2, 2, 1, 1, 2, 4, 4]
  /** Which field is the checksum. */
  const CKSUM := 7

  datatype IPv4Header = IPv4Header(
    ver: Byte, hlen: Byte, tos: Byte, len: U16, id: U16, df: bool, mf: bool, offset: U16,
    ttl: Byte, proto: Byte, cksum: U16, src: U32, dst: U32)
  {
    /** `payload_length`, in 16 bits. */
    function PayloadLength(): U16 {
      Low16(len - 4 * hlen)
    }

    /** `pseudo_cksum`. */
    function PseudoCksum(): (c: U32)
      ensures c < 0x10_0000
    {
      src / TWO16 + src % TWO16 + dst / TWO16 + dst % TWO16 + proto + PayloadLength()
    }
  }

  const DEFAULT_HEADER := IPv4Header(4, 5, 0, 0, 0, true, false, 0, DEFAULT_TTL, PROTO_TCP, 0, 0, 0)

  datatype IPv4Datagram = IPv4Datagram(header: IPv4Header, payload: seq<Byte>)

  function Fields(h: IPv4Header): (v: seq<nat>)
    ensures |v| == |WIDTHS|
  {
    [h.ver % 0x10 * 0x10 + h.hlen % 0x10, h.tos, h.len, h.id,
     (if h.df then 0x4000 else 0) + (if h.mf then 0x2000 else 0) + h.offset % 0x2000,
     h.ttl, h.proto, h.cksum, h.src, h.dst]
  }

  lemma FieldsCksum(h: IPv4Header, c: U16)
    ensures Fields(h.(cksum := c)) == Fields(h)[CKSUM := c]
    ensures Fields(h)[CKSUM] == h.cksum
  {
  }

  function FromFields(v: seq<nat>): IPv4Header
    requires FitIn(v, WIDTHS)
  {
    FitWidths(v);
    IPv4Header(v[0] / 0x10, v[0] % 0x10, v[1], v[2], v[3],
               v[4] / 0x4000 % 2 == 1, v[4] / 0x2000 % 2 == 1, v[4] % 0x2000,
               v[5], v[6], v[7], v[8], v[9])
  }

  lemma FitWidths(v: seq<nat>)
    requires |v| == |WIDTHS|
    ensures FitIn(v, WIDTHS) <==>
            && v[0] < 0x100 && v[1] < 0x100 && v[2] < TWO16 && v[3] < TWO16 && v[4] < TWO16
            && v[5] < 0x100 && v[6] < 0x100 && v[7] < TWO16 && v[8] < TWO32 && v[9] < TWO32
  {
    hide Holds;
    HoldsWidths(v[0]); HoldsWidths(v[1]); HoldsWidths(v[2]); HoldsWidths(v[3]); HoldsWidths(v[4]);
    HoldsWidths(v[5]); HoldsWidths(v[6]); HoldsWidths(v[7]); HoldsWidths(v[8]); HoldsWidths(v[9]);
    assert WIDTHS[0] == 1 && WIDTHS[1] == 1 && WIDTHS[2] == 2 && WIDTHS[3] == 2 && WIDTHS[4] == 2;
    assert WIDTHS[5] == 1 && WIDTHS[6] == 1 && WIDTHS[7] == 2 && WIDTHS[8] == 4 && WIDTHS[9] == 4;
  }

  lemma WidthTotal()
    ensures Total(WIDTHS) == HEADER_LENGTH
    ensures Total(WIDTHS[..CKSUM]) == 10
  {
    assert WIDTHS == WIDTHS[..CKSUM] + [2, 4, 4];
    assert Total([2, 4, 4]) == 10 by {
      assert [2, 4, 4][1..] == [4, 4]; assert [4, 4][1..] == [4]; assert [4][1..] == [];
    }
    TotalConcat(WIDTHS[..CKSUM], [2, 4, 4]);
    assert WIDTHS[..CKSUM] == [1, 1, 2] + [2, 2, 1, 1];
    TotalConcat([1, 1, 2], [2, 2, 1, 1]);
    assert Total([1, 1, 2]) == 4 by {
      assert [1, 1, 2][1..] == [1, 2]; assert [1, 2][1..] == [2]; assert [2][1..] == [];
    }
    assert Total([2, 2, 1, 1]) == 6 by {
      assert [2, 2, 1, 1][1..] == [2, 1, 1]; assert [2, 1, 1][1..] == [1, 1];
      assert [1, 1][1..] == [1]; assert [1][1..] == [];
    }
  }

  /** A header with room for options, which are left zero. */
  function HeaderBytes(h: IPv4Header): (s: seq<Byte>)
    requires 5 <= h.hlen
    ensures |s| == 4 * h.hlen
  {
    EncodeLength(Fields(h), WIDTHS);
    WidthTotal();
    Encode(Fields(h), WIDTHS) + Zeros(4 * h.hlen - HEADER_LENGTH)
  }

  /** `IPv4Header::parse`: the header, the result it returns, and what is left of the input. */
  function ParseHeader(p: Parser): (IPv4Header, ParseResult, Parser) {
    var size := |p.buffer|;
    if size < HEADER_LENGTH then (DEFAULT_HEADER, PacketTooShort, p) else
    var (vals, rest) := Decode(p, WIDTHS);
    var h := FromFields(vals);
    if size < 4 * h.hlen then (h, PacketTooShort, rest)
    else if h.ver != 4 then (h, WrongIPVersion, rest)
    else if h.hlen < 5 then (h, HeaderTooShort, rest)
    else if size != h.len then (h, TruncatedPacket, rest)
    else
      var q := rest.Skip(h.hlen * 4 - HEADER_LENGTH);
      if q.error != NoError then (h, q.error, q)
      else if Checksum(0, p.buffer[..4 * h.hlen]) != 0 then (h, BadChecksum, q)
      else (h, NoError, q)
  }

  /** The fields survive exactly when version, header length and offset fit their bits. */
  lemma FieldsBack(h: IPv4Header)
    ensures FitIn(Fields(h), WIDTHS)
    ensures FromFields(Fields(h)) == h <==> h.ver < 0x10 && h.hlen < 0x10 && h.offset < 0x2000
  {
    FitWidths(Fields(h));
  }

  // ----- the layout -----

  lemma Offsets()
    ensures Total(WIDTHS[..0]) == 0 && Total(WIDTHS[..1]) == 1 && Total(WIDTHS[..2]) == 2 && Total(WIDTHS[..3]) == 4
    ensures Total(WIDTHS[..4]) == 6 && Total(WIDTHS[..5]) == 8 && Total(WIDTHS[..6]) == 9
    ensures Total(WIDTHS[..7]) == 10 && Total(WIDTHS[..8]) == 12 && Total(WIDTHS[..9]) == 16
  {
    hide Total;
    TotalSnoc(WIDTHS, 0); TotalSnoc(WIDTHS, 1); TotalSnoc(WIDTHS, 2); TotalSnoc(WIDTHS, 3); TotalSnoc(WIDTHS, 4);
    TotalSnoc(WIDTHS, 5); TotalSnoc(WIDTHS, 6); TotalSnoc(WIDTHS, 7); TotalSnoc(WIDTHS, 8);
  }

  /** The bytes of a header stand as section 3.1 of RFC 791 draws them. */
  predicate Drawn(h: IPv4Header, b: seq<Byte>)
    requires HEADER_LENGTH <= |b|
  {
    && b[0] / 0x10 == h.ver && b[0] % 0x10 == h.hlen && b[1] == h.tos
    && b[2..4] == Digits(h.len, 2) && b[4..6] == Digits(h.id, 2)
    && (b[6] / 0x40 % 2 == 1 <==> h.df) && (b[6] / 0x20 % 2 == 1 <==> h.mf)
    && (b[6] as int) % 0x20 * 0x100 + b[7] == h.offset
    && b[8] == h.ttl && b[9] == h.proto && b[10..12] == Digits(h.cksum, 2)
    && b[12..16] == Digits(h.src, 4) && b[16..20] == Digits(h.dst, 4)
  }

  /** What is written is drawn so, with the reserved flag clear and zeros for the options. */
  lemma WrittenLayout(h: IPv4Header)
    requires h.ver < 0x10 && 5 <= h.hlen < 0x10 && h.offset < 0x2000
    ensures var b := HeaderBytes(h);
            && Drawn(h, b) && b[6] < 0x80
            && forall i :: HEADER_LENGTH <= i < |b| ==> b[i] == 0
  {
    hide HeaderBytes, Digits, Fields, Fragment, Total;
    Offsets();
    FieldsAre(h);
    WrittenAt(h, 0, 0); WrittenAt(h, 1, 1); WrittenAt(h, 2, 2); WrittenAt(h, 3, 4); WrittenAt(h, 4, 6);
    WrittenAt(h, 5, 8); WrittenAt(h, 6, 9); WrittenAt(h, 7, 10); WrittenAt(h, 8, 12); WrittenAt(h, 9, 16);
    var v, b := Fields(h), HeaderBytes(h);
    FragmentBits(h);
    ByteAt(b, 0, v[0]);
    ByteAt(b, 1, v[1]);
    WordAt(b, 6, v[4]);
    ByteAt(b, 8, v[5]);
    ByteAt(b, 9, v[6]);
    Padding(h);
  }

  lemma WrittenAt(h: IPv4Header, k: nat, at: nat)
    requires 5 <= h.hlen && k < |WIDTHS| && at == Total(WIDTHS[..k])
    ensures at + WIDTHS[k] <= HEADER_LENGTH && HeaderBytes(h)[at..at + WIDTHS[k]] == Digits(Fields(h)[k], WIDTHS[k])
  {
    hide Digits, Fields, Total, Encode;
    WidthTotal();
    EncodeLength(Fields(h), WIDTHS);
    EncodeField(Fields(h), WIDTHS, k);
    assert HeaderBytes(h)[at..at + WIDTHS[k]] == Encode(Fields(h), WIDTHS)[at..at + WIDTHS[k]];
  }

  lemma Padding(h: IPv4Header)
    requires 5 <= h.hlen
    ensures forall i :: HEADER_LENGTH <= i < 4 * h.hlen ==> HeaderBytes(h)[i] == 0
  {
    hide Fields, Encode;
    WidthTotal();
    EncodeLength(Fields(h), WIDTHS);
  }

  lemma FieldsAre(h: IPv4Header)
    requires h.ver < 0x10 && h.hlen < 0x10 && h.offset < 0x2000
    ensures Fields(h) == [h.ver * 0x10 + h.hlen, h.tos, h.len, h.id, Fragment(h), h.ttl, h.proto, h.cksum, h.src, h.dst]
  {
  }

  function Fragment(h: IPv4Header): nat {
    (if h.df then 0x4000 else 0) + (if h.mf then 0x2000 else 0) + h.offset
  }

  lemma FragmentBits(h: IPv4Header)
    requires h.offset < 0x2000
    ensures Fragment(h) < 0x8000
    ensures var hi, lo := Fragment(h) / 0x100, Fragment(h) % 0x100;
            && hi < 0x80 && (hi / 0x40 % 2 == 1 <==> h.df) && (hi / 0x20 % 2 == 1 <==> h.mf)
            && hi % 0x20 * 0x100 + lo == h.offset
  {
  }

  /** What is read was drawn so, whatever the reserved flag says. */
  lemma ReadLayout(bytes: seq<Byte>)
    requires HEADER_LENGTH <= |bytes|
    ensures Drawn(HeaderOf(bytes), bytes)
  {
    hide Number, Digits, Decode, Total;
    Offsets();
    ReadAt(bytes, 0, 0); ReadAt(bytes, 1, 1); ReadAt(bytes, 2, 2); ReadAt(bytes, 3, 4); ReadAt(bytes, 4, 6);
    ReadAt(bytes, 5, 8); ReadAt(bytes, 6, 9); ReadAt(bytes, 7, 10); ReadAt(bytes, 8, 12); ReadAt(bytes, 9, 16);
    assert bytes[0..1] == [bytes[0]] && bytes[1..2] == [bytes[1]];
    assert bytes[8..9] == [bytes[8]] && bytes[9..10] == [bytes[9]] && bytes[6..8] == [bytes[6], bytes[7]];
    NumberOne(bytes[0]); NumberOne(bytes[1]); NumberOne(bytes[8]); NumberOne(bytes[9]);
    NumberTwo(bytes[6], bytes[7]);
    WordBits(bytes[6], bytes[7]);
    DigitsNumber(bytes[2..4]); DigitsNumber(bytes[4..6]); DigitsNumber(bytes[10..12]);
    DigitsNumber(bytes[12..16]); DigitsNumber(bytes[16..20]);
  }

  lemma ReadAt(bytes: seq<Byte>, k: nat, at: nat)
    requires HEADER_LENGTH <= |bytes| && k < |WIDTHS| && at == Total(WIDTHS[..k])
    ensures at + WIDTHS[k] <= |bytes|
    ensures Decode(Parser(bytes, NoError), WIDTHS).0[k] == Number(bytes[at..at + WIDTHS[k]])
  {
    hide Number, Decode, Total;
    WidthTotal();
    DecodeField(Parser(bytes, NoError), WIDTHS, k);
  }

  lemma WordBits(a: Byte, b: Byte)
    ensures var w := 0x100 * a + b;
            && (w / 0x4000 % 2 == 1 <==> a / 0x40 % 2 == 1) && (w / 0x2000 % 2 == 1 <==> a / 0x20 % 2 == 1)
            && w % 0x2000 == a % 0x20 * 0x100 + b
  {
  }

  lemma NumberTwo(a: Byte, b: Byte)
    ensures Number([a, b]) == 0x100 * a + b
  {
    assert [a, b][..1] == [a];
    NumberOne(a);
  }

  // ----- datagrams -----

  function Checked(h: IPv4Header): IPv4Header
    requires 5 <= h.hlen
  {
    h.(cksum := Checksum(0, HeaderBytes(h.(cksum := 0))))
  }

  /** What `IPv4Datagram::serialize` accepts; it throws otherwise. */
  predicate CanSerialize(d: IPv4Datagram) {
    |d.payload| == d.header.PayloadLength() && d.header.ver == 4 && 5 <= d.header.hlen
  }

  function DatagramBytes(d: IPv4Datagram): (s: seq<Byte>)
    requires CanSerialize(d)
    ensures |s| == 4 * d.header.hlen + |d.payload|
  {
    HeaderBytes(Checked(d.header)) + d.payload
  }

  /** `IPv4Datagram::parse`; what the header parser returns is dropped. */
  function ParseDatagram(bytes: seq<Byte>): (ParseResult, IPv4Datagram) {
    var (h, _, rest) := ParseHeader(Parser(bytes, NoError));
    (if |rest.buffer| != h.PayloadLength() then PacketTooShort else rest.error, IPv4Datagram(h, rest.buffer))
  }

  lemma HeaderChecks(h: IPv4Header)
    requires 5 <= h.hlen
    ensures Checksum(0, HeaderBytes(Checked(h))) == 0
  {
    hide Encode, Checksum, Fields;
    var h0 := h.(cksum := 0);
    var pad := Zeros(4 * h.hlen - HEADER_LENGTH);
    var c := Checksum(0, HeaderBytes(h0));
    FieldsCksum(h0, c);
    WidthTotal();
    FieldChecks(0, Fields(h0), WIDTHS, CKSUM, pad);
  }

  /** The header of a serialized datagram parses without error, checksum and length included. */
  lemma HeaderRoundTrip(d: IPv4Datagram)
    requires CanSerialize(d) && d.header.hlen < 0x10 && d.header.offset < 0x2000
    requires d.header.len == 4 * d.header.hlen + |d.payload|
    ensures ParseHeader(Parser(DatagramBytes(d), NoError)) == (Checked(d.header), NoError, Parser(d.payload, NoError))
  {
    hide Encode, Decode, Fields, FromFields, Checksum;
    var h := Checked(d.header);
    FieldsBack(h);
    HeaderChecks(d.header);
    var pad := Zeros(4 * h.hlen - HEADER_LENGTH);
    DecodeEncode(Fields(h), WIDTHS, pad + d.payload);
    assert DatagramBytes(d) == Encode(Fields(h), WIDTHS) + (pad + d.payload);
    assert (pad + d.payload)[|pad|..] == d.payload;
    assert DatagramBytes(d)[..4 * h.hlen] == HeaderBytes(h);
  }

  lemma DatagramRoundTrip(d: IPv4Datagram)
    requires CanSerialize(d) && d.header.hlen < 0x10 && d.header.offset < 0x2000
    requires d.header.len == 4 * d.header.hlen + |d.payload|
    ensures ParseDatagram(DatagramBytes(d)) == (NoError, d.(header := Checked(d.header)))
  {
    hide ParseHeader, HeaderBytes;
    HeaderRoundTrip(d);
  }

  // ----- the pseudo-header -----

  /** The pseudo-header of section 3.1 of RFC 793: both addresses, a zero, the protocol, the length of the segment. */
  function PseudoHeader(h: IPv4Header): (b: seq<Byte>)
    ensures |b| == 12
  {
    Digits(h.src, 4) + (Digits(h.dst, 4) + ([0, h.proto] + Digits(h.PayloadLength(), 2)))
  }

  lemma PseudoTail(proto: Byte, len: U16)
    ensures Weigh([0, proto] + Digits(len, 2), false) == proto + len
  {
    hide Digits;
    WeighConcat([0, proto], Digits(len, 2), false);
    WeighWord(len);
    assert [0, proto][1..] == [proto] && [proto][1..] == [];
    assert Weigh([proto], true) == proto;
  }

  /** `pseudo_cksum` is its sum. */
  lemma PseudoIsWeight(h: IPv4Header)
    ensures h.PseudoCksum() == Weigh(PseudoHeader(h), false)
  {
    hide Weigh, Digits;
    var tail := [0, h.proto] + Digits(h.PayloadLength(), 2);
    WeighConcat(Digits(h.src, 4), Digits(h.dst, 4) + tail, false);
    WeighConcat(Digits(h.dst, 4), tail, false);
    WeighDouble(h.src);
    WeighDouble(h.dst);
    PseudoTail(h.proto, h.PayloadLength());
  }

  /** Starting from it is summing with the pseudo-header in front. */
  lemma PseudoInFront(h: IPv4Header, data: seq<Byte>)
    ensures Checksum(h.PseudoCksum(), data) == Checksum(0, PseudoHeader(h) + data)
  {
    hide Weigh, Folded, PseudoHeader;
    PseudoIsWeight(h);
    WeighConcat(PseudoHeader(h), data, false);
  }

  /** A payload that checks under one pseudo-header does not under one that differs in a byte. */
  lemma PseudoProtects(h: IPv4Header, h': IPv4Header, data: seq<Byte>, i: nat)
    requires i < 12 && PseudoHeader(h') == PseudoHeader(h)[i := PseudoHeader(h')[i]]
    requires PseudoHeader(h') != PseudoHeader(h)
    requires Checksum(h.PseudoCksum(), data) == 0
    ensures Checksum(h'.PseudoCksum(), data) != 0
  {
    hide Checksum, PseudoHeader;
    PseudoInFront(h, data);
    PseudoInFront(h', data);
    var p, p' := PseudoHeader(h), PseudoHeader(h');
    assert p' + data == (p + data)[i := p'[i]];
    SingleByteDetected(0, p + data, i, p'[i]);
  }

  // ----- what dropping the header's result lets through -----

  /** The fields of the first twenty bytes. */
  function HeaderOf(bytes: seq<Byte>): IPv4Header {
    FromFields(Decode(Parser(bytes, NoError), WIDTHS).0)
  }

  /** What a header must say of the bytes it heads. */
  predicate WellFormed(h: IPv4Header, bytes: seq<Byte>) {
    h.ver == 4 && 5 <= h.hlen && 4 * h.hlen <= |bytes| == h.len
  }

  /** The header parser's verdict, and where it leaves the input. */
  lemma HeaderVerdict(bytes: seq<Byte>)
    requires HEADER_LENGTH <= |bytes|
    ensures var h := HeaderOf(bytes);
            var (h', result, rest) := ParseHeader(Parser(bytes, NoError));
            && h' == h
            && (result == NoError <==> WellFormed(h, bytes) && Checksum(0, bytes[..4 * h.hlen]) == 0)
            && rest == Parser(bytes[if WellFormed(h, bytes) then 4 * h.hlen else HEADER_LENGTH..], NoError)
  {
    hide Decode, FromFields, Checksum;
    WidthTotal();
    DecodeRest(Parser(bytes, NoError), WIDTHS);
    var h := HeaderOf(bytes);
    if WellFormed(h, bytes) {
      assert bytes[HEADER_LENGTH..][4 * h.hlen - HEADER_LENGTH..] == bytes[4 * h.hlen..];
    }
  }

  /** Which complaint the header parser makes, the first that applies. */
  lemma HeaderComplaint(bytes: seq<Byte>)
    ensures var result := ParseHeader(Parser(bytes, NoError)).1;
            if |bytes| < HEADER_LENGTH then result == PacketTooShort else
            var h := HeaderOf(bytes);
            && (result == PacketTooShort <==> |bytes| < 4 * h.hlen)
            && (result == WrongIPVersion <==> 4 * h.hlen <= |bytes| && h.ver != 4)
            && (result == HeaderTooShort <==> 4 * h.hlen <= |bytes| && h.ver == 4 && h.hlen < 5)
            && (result == TruncatedPacket <==>
                  4 * h.hlen <= |bytes| && h.ver == 4 && 5 <= h.hlen && |bytes| != h.len)
            && (result == BadChecksum <==> WellFormed(h, bytes) && Checksum(0, bytes[..4 * h.hlen]) != 0)
  {
    hide Decode, FromFields, Checksum;
    WidthTotal();
    if HEADER_LENGTH <= |bytes| { DecodeRest(Parser(bytes, NoError), WIDTHS); }
  }

  /**
   * `IPv4Datagram::parse` accepts every well-formed header, whatever its checksum, and an ill-formed one
   * exactly when its lengths, taken modulo 2^16, happen to match twenty bytes of header.
   */
  lemma AcceptsExactly(bytes: seq<Byte>)
    ensures ParseDatagram(bytes).0 == NoError <==>
            && HEADER_LENGTH <= |bytes|
            && (WellFormed(HeaderOf(bytes), bytes) || |bytes| - HEADER_LENGTH == HeaderOf(bytes).PayloadLength())
  {
    hide Decode, FromFields, Checksum, ParseHeader;
    if HEADER_LENGTH <= |bytes| {
      HeaderVerdict(bytes);
    } else {
      TooShort(bytes);
    }
  }

  lemma TooShort(bytes: seq<Byte>)
    requires |bytes| < HEADER_LENGTH
    ensures ParseDatagram(bytes).0 != NoError
  {
    hide Decode, FromFields, Checksum;
  }

  /** Of what it accepts, the header parser had found exactly these headers good. */
  lemma AcceptedHeader(bytes: seq<Byte>)
    requires ParseDatagram(bytes).0 == NoError
    ensures var h := ParseDatagram(bytes).1.header;
            ParseHeader(Parser(bytes, NoError)).1 == NoError <==>
              h.ver == 4 && 5 <= h.hlen && 4 * h.hlen <= |bytes| == h.len && Checksum(0, bytes[..4 * h.hlen]) == 0
  {
    hide ParseHeader, Checksum;
    AcceptsExactly(bytes);
    HeaderVerdict(bytes);
  }

  /** Any version and any checksum get past: a twenty-byte header with the right length is accepted. */
  lemma BadHeaderAccepted(h: IPv4Header, payload: seq<Byte>)
    requires h.ver < 0x10 && h.hlen == 5 && h.offset < 0x2000 && h.len == HEADER_LENGTH + |payload|
    ensures var bytes := HeaderBytes(h) + payload;
            && ParseDatagram(bytes) == (NoError, IPv4Datagram(h, payload))
            && ParseHeader(Parser(bytes, NoError)).1
               == (if h.ver != 4 then WrongIPVersion
                   else if Checksum(0, HeaderBytes(h)) != 0 then BadChecksum else NoError)
  {
    hide Encode, Decode, Fields, FromFields, Checksum;
    var bytes := HeaderBytes(h) + payload;
    FieldsBack(h);
    assert bytes == Encode(Fields(h), WIDTHS) + payload;
    DecodeEncode(Fields(h), WIDTHS, payload);
    assert bytes[..4 * h.hlen] == HeaderBytes(h);
    assert payload[0..] == payload;
  }

  /** A header whose stored checksum is off by one is one of those. */
  lemma WrongChecksum(h: IPv4Header, c: U16)
    requires 5 <= h.hlen && c == (Checked(h).cksum + 1) % TWO16
    ensures Checksum(0, HeaderBytes(h.(cksum := c))) != 0
  {
    hide Encode, Checksum, Fields;
    var h0 := h.(cksum := 0);
    FieldsCksum(h0, c);
    WidthTotal();
    FieldOffByOne(0, Fields(h0), WIDTHS, CKSUM, Zeros(4 * h.hlen - HEADER_LENGTH));
  }

  // ----- the methods -----

  /** The header length was read from four bits. */
  lemma NibbleLength(v: seq<nat>)
    requires FitIn(v, WIDTHS)
    ensures FromFields(v).hlen < 0x10
  {
  }

  /** `IPv4Header::parse`. */
  method ReadHeader(p: NetParser) returns (h: IPv4Header, result: ParseResult)
    modifies p
    ensures (h, result, p.Model()) == ParseHeader(old(p.Model()))
  {
    hide Decode, FromFields, Checksum, Checksum32;
    var original := p.buffer;
    if |original| < HEADER_LENGTH {
      return DEFAULT_HEADER, PacketTooShort;
    }
    var vals := p.ReadFields(WIDTHS);
    h := FromFields(vals);
    assert h.hlen < 0x10 by { NibbleLength(vals); }
    if |original| < 4 * h.hlen {
      return h, PacketTooShort;
    }
    if h.ver != 4 {
      return h, WrongIPVersion;
    }
    if h.hlen < 5 {
      return h, HeaderTooShort;
    }
    if |original| != h.len {
      return h, TruncatedPacket;
    }
    p.RemovePrefix(h.hlen * 4 - HEADER_LENGTH);
    if p.error != NoError {
      return h, p.error;
    }
    assert original[..4 * h.hlen] + [] == original[..4 * h.hlen];
    var v := ChecksumOf(0, original[..4 * h.hlen], []);
    return h, if v != 0 then BadChecksum else NoError;
  }

  /** `IPv4Datagram::parse`. */
  method ReadDatagram(bytes: seq<Byte>) returns (result: ParseResult, d: IPv4Datagram)
    ensures (result, d) == ParseDatagram(bytes)
  {
    hide ParseHeader;
    var p := new NetParser(bytes);
    var h, _ := ReadHeader(p);
    d := IPv4Datagram(h, p.buffer);
    return if |p.buffer| != h.PayloadLength() then PacketTooShort else p.error, d;
  }

  /** `IPv4Datagram::serialize`. */
  method WriteDatagram(d: IPv4Datagram) returns (r: Option<seq<Byte>>)
    ensures r == if CanSerialize(d) then Some(DatagramBytes(d)) else None
  {
    hide Encode, Fields, Checksum, Checksum32;
    var h := d.header;
    if |d.payload| != h.PayloadLength() || h.ver != 4 || 4 * h.hlen < HEADER_LENGTH {
      return None;
    }
    var zeroed := WriteFields(Fields(h.(cksum := 0)), WIDTHS);
    zeroed := zeroed + Zeros(4 * h.hlen - HEADER_LENGTH);
    assert zeroed + [] == zeroed == HeaderBytes(h.(cksum := 0));
    var cksum := ChecksumOf(0, zeroed, []);
    var header := WriteFields(Fields(h.(cksum := cksum)), WIDTHS);
    return Some(header + Zeros(4 * h.hlen - HEADER_LENGTH) + d.payload);
  }
}
