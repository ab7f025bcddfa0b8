/** TCP headers and segments on the wire (section 3.1 of RFC 793). */
module TCPSegmentCodec {
  import opened Basics
  import opened Checksums
  import opened ChecksumFields
  import opened Parsers
  import opened Segments

  const HEADER_LENGTH := 20
  const WIDTHS: seq<nat> := [2, 2, 4, 4, 1, 1, 2, 2, 2]
  /** Which field is the checksum. */
  const CKSUM := 7

  function Bit(b: bool): nat {
    if b then 1 else 0
  }

  function FlagByte(h: TCPHeader): (b: nat)
    ensures b < 0x40
  {
    0x20 * Bit(h.urg) + 0x10 * Bit(h.ack) + 8 * Bit(h.psh) + 4 * Bit(h.rst) + 2 * Bit(h.syn) + Bit(h.fin)
  }

  function Fields(h: TCPHeader): (v: seq<nat>)
    ensures |v| == |WIDTHS|
  {
    [h.sport, h.dport, h.seqno, h.ackno, h.doff * 0x10 % 0x100, FlagByte(h), h.win, h.cksum, h.uptr]
  }

  lemma FieldsCksum(h: TCPHeader, c: U16)
    ensures Fields(h.(cksum := c)) == Fields(h)[CKSUM := c]
    ensures Fields(h)[CKSUM] == h.cksum
  {
  }

  function FromFields(v: seq<nat>): TCPHeader
    requires FitIn(v, WIDTHS)
  {
    FitWidths(v);
    TCPHeader(v[0], v[1], v[2], v[3], v[4] / 0x10,
              v[5] / 0x20 % 2 == 1, v[5] / 0x10 % 2 == 1, v[5] / 8 % 2 == 1,
              v[5] / 4 % 2 == 1, v[5] / 2 % 2 == 1, v[5] % 2 == 1,
              v[6], v[7], v[8])
  }

  lemma FitWidths(v: seq<nat>)
    requires |v| == |WIDTHS|
    ensures FitIn(v, WIDTHS) <==>
            && v[0] < TWO16 && v[1] < TWO16 && v[2] < TWO32 && v[3] < TWO32 && v[4] < 0x100
            && v[5] < 0x100 && v[6] < TWO16 && v[7] < TWO16 && v[8] < TWO16
  {
    hide Holds;
    HoldsWidths(v[0]); HoldsWidths(v[1]); HoldsWidths(v[2]);
    HoldsWidths(v[3]); HoldsWidths(v[4]); HoldsWidths(v[5]);
    HoldsWidths(v[6]); HoldsWidths(v[7]); HoldsWidths(v[8]);
    assert WIDTHS[0] == 2 && WIDTHS[1] == 2 && WIDTHS[2] == 4 && WIDTHS[3] == 4 && WIDTHS[4] == 1;
    assert WIDTHS[5] == 1 && WIDTHS[6] == 2 && WIDTHS[7] == 2 && WIDTHS[8] == 2;
  }

  /** A header with room for options, which are left zero. */
  function HeaderBytes(h: TCPHeader): (s: seq<Byte>)
    requires 5 <= h.doff
    ensures |s| == 4 * h.doff
  {
    EncodeLength(Fields(h), WIDTHS);
    WidthTotal();
    Encode(Fields(h), WIDTHS) + Zeros(4 * h.doff - HEADER_LENGTH)
  }

  lemma WidthTotal()
    ensures Total(WIDTHS) == HEADER_LENGTH
    ensures Total(WIDTHS[..CKSUM]) == 16
  {
    assert WIDTHS == WIDTHS[..CKSUM] + [2, 2];
    assert Total([2, 2]) == 4 by { assert [2, 2][1..] == [2]; assert [2][1..] == []; }
    TotalConcat(WIDTHS[..CKSUM], [2, 2]);
    assert WIDTHS[..CKSUM] == [2, 2, 4] + [4, 1, 1, 2];
    TotalConcat([2, 2, 4], [4, 1, 1, 2]);
    assert Total([2, 2, 4]) == 8 by {
      assert [2, 2, 4][1..] == [2, 4]; assert [2, 4][1..] == [4]; assert [4][1..] == [];
    }
    assert Total([4, 1, 1, 2]) == 8 by {
      assert [4, 1, 1, 2][1..] == [1, 1, 2]; assert [1, 1, 2][1..] == [1, 2];
      assert [1, 2][1..] == [2]; assert [2][1..] == [];
    }
  }

  /** `TCPHeader::parse`: the header, the result it returns, and what is left of the input. */
  function ParseHeader(p: Parser): (TCPHeader, ParseResult, Parser) {
    var (vals, rest) := Decode(p, WIDTHS);
    var h := FromFields(vals);
    if h.doff < 5 then (h, HeaderTooShort, rest) else
    var q := rest.Skip(h.doff * 4 - HEADER_LENGTH);
    (h, q.error, q)
  }

  /** The nibble and the flags survive exactly when the offset fits its four bits. */
  lemma FieldsBack(h: TCPHeader)
    ensures FitIn(Fields(h), WIDTHS)
    ensures FromFields(Fields(h)) == h <==> h.doff < 0x10
  {
    FitWidths(Fields(h));
  }

  lemma HeaderRoundTrip(h: TCPHeader, rest: seq<Byte>)
    requires 5 <= h.doff < 0x10
    ensures ParseHeader(Parser(HeaderBytes(h) + rest, NoError)) == (h, NoError, Parser(rest, NoError))
  {
    hide Encode, Decode, Fields, FromFields;
    FieldsBack(h);
    var pad := Zeros(4 * h.doff - HEADER_LENGTH);
    DecodeEncode(Fields(h), WIDTHS, pad + rest);
    assert HeaderBytes(h) + rest == Encode(Fields(h), WIDTHS) + (pad + rest);
    assert (pad + rest)[|pad|..] == rest;
  }

  // ----- the layout -----

  /** Where each field starts. */
  lemma Offsets()
    ensures Total(WIDTHS[..0]) == 0 && Total(WIDTHS[..1]) == 2 && Total(WIDTHS[..2]) == 4 && Total(WIDTHS[..3]) == 8
    ensures Total(WIDTHS[..4]) == 12 && Total(WIDTHS[..5]) == 13 && Total(WIDTHS[..6]) == 14
    ensures Total(WIDTHS[..7]) == 16 && Total(WIDTHS[..8]) == 18
  {
    hide Total;
    TotalSnoc(WIDTHS, 0); TotalSnoc(WIDTHS, 1); TotalSnoc(WIDTHS, 2); TotalSnoc(WIDTHS, 3);
    TotalSnoc(WIDTHS, 4); TotalSnoc(WIDTHS, 5); TotalSnoc(WIDTHS, 6); TotalSnoc(WIDTHS, 7);
  }

  /** The bytes of a header stand as section 3.1 of RFC 793 draws them. */
  predicate Drawn(h: TCPHeader, b: seq<Byte>)
    requires HEADER_LENGTH <= |b|
  {
    && b[0..2] == Digits(h.sport, 2) && b[2..4] == Digits(h.dport, 2)
    && b[4..8] == Digits(h.seqno, 4) && b[8..12] == Digits(h.ackno, 4)
    && b[12] / 0x10 == h.doff
    && (b[13] / 0x20 % 2 == 1 <==> h.urg) && (b[13] / 0x10 % 2 == 1 <==> h.ack) && (b[13] / 8 % 2 == 1 <==> h.psh)
    && (b[13] / 4 % 2 == 1 <==> h.rst) && (b[13] / 2 % 2 == 1 <==> h.syn) && (b[13] % 2 == 1 <==> h.fin)
    && b[14..16] == Digits(h.win, 2) && b[16..18] == Digits(h.cksum, 2) && b[18..20] == Digits(h.uptr, 2)
  }

  /** What is written is drawn so, with nothing in the reserved bits and zeros for the options. */
  lemma WrittenLayout(h: TCPHeader)
    requires 5 <= h.doff < 0x10
    ensures var b := HeaderBytes(h);
            && Drawn(h, b) && b[12] % 0x10 == 0 && b[13] < 0x40
            && forall i :: HEADER_LENGTH <= i < |b| ==> b[i] == 0
  {
    hide HeaderBytes, Digits, Fields, FlagByte, Total;
    Offsets();
    FieldsAre(h);
    WrittenAt(h, 0, 0); WrittenAt(h, 1, 2); WrittenAt(h, 2, 4); WrittenAt(h, 3, 8); WrittenAt(h, 4, 12);
    WrittenAt(h, 5, 13); WrittenAt(h, 6, 14); WrittenAt(h, 7, 16); WrittenAt(h, 8, 18);
    var b := HeaderBytes(h);
    ByteAt(b, 12, h.doff * 0x10);
    ByteAt(b, 13, FlagByte(h));
    FlagBits(h);
    Padding(h);
  }

  lemma WrittenAt(h: TCPHeader, k: nat, at: nat)
    requires 5 <= h.doff && k < |WIDTHS| && at == Total(WIDTHS[..k])
    ensures at + WIDTHS[k] <= HEADER_LENGTH && HeaderBytes(h)[at..at + WIDTHS[k]] == Digits(Fields(h)[k], WIDTHS[k])
  {
    hide Digits, Fields, Total, Encode;
    WidthTotal();
    EncodeLength(Fields(h), WIDTHS);
    EncodeField(Fields(h), WIDTHS, k);
    assert HeaderBytes(h)[at..at + WIDTHS[k]] == Encode(Fields(h), WIDTHS)[at..at + WIDTHS[k]];
  }

  lemma Padding(h: TCPHeader)
    requires 5 <= h.doff
    ensures forall i :: HEADER_LENGTH <= i < 4 * h.doff ==> HeaderBytes(h)[i] == 0
  {
    hide Fields, Encode;
    WidthTotal();
    EncodeLength(Fields(h), WIDTHS);
  }

  lemma FlagBits(h: TCPHeader)
    ensures var b := FlagByte(h);
            && (b / 0x20 % 2 == 1 <==> h.urg) && (b / 0x10 % 2 == 1 <==> h.ack) && (b / 8 % 2 == 1 <==> h.psh)
            && (b / 4 % 2 == 1 <==> h.rst) && (b / 2 % 2 == 1 <==> h.syn) && (b % 2 == 1 <==> h.fin)
  {
    hide FlagByte;
    HighFlags(h);
    LowFlags(h);
  }

  lemma HighFlags(h: TCPHeader)
    ensures var b := FlagByte(h);
            (b / 0x20 % 2 == 1 <==> h.urg) && (b / 0x10 % 2 == 1 <==> h.ack) && (b / 8 % 2 == 1 <==> h.psh)
  {
    var high, low := 4 * Bit(h.urg) + 2 * Bit(h.ack) + Bit(h.psh), 4 * Bit(h.rst) + 2 * Bit(h.syn) + Bit(h.fin);
    assert FlagByte(h) == 8 * high + low && low < 8;
    assert FlagByte(h) / 8 == high && FlagByte(h) / 0x10 == high / 2 && FlagByte(h) / 0x20 == high / 4;
  }

  lemma LowFlags(h: TCPHeader)
    ensures var b := FlagByte(h);
            (b / 4 % 2 == 1 <==> h.rst) && (b / 2 % 2 == 1 <==> h.syn) && (b % 2 == 1 <==> h.fin)
  {
  }

  lemma FieldsAre(h: TCPHeader)
    requires h.doff < 0x10
    ensures Fields(h) == [h.sport, h.dport, h.seqno, h.ackno, h.doff * 0x10, FlagByte(h), h.win, h.cksum, h.uptr]
  {
  }

  /** What is read was drawn so, whatever stands in the reserved bits. */
  lemma ReadLayout(bytes: seq<Byte>)
    requires HEADER_LENGTH <= |bytes|
    ensures Drawn(HeaderOf(bytes), bytes)
  {
    hide Number, Digits, Decode, Total;
    Offsets();
    ReadAt(bytes, 0, 0); ReadAt(bytes, 1, 2); ReadAt(bytes, 2, 4); ReadAt(bytes, 3, 8); ReadAt(bytes, 4, 12);
    ReadAt(bytes, 5, 13); ReadAt(bytes, 6, 14); ReadAt(bytes, 7, 16); ReadAt(bytes, 8, 18);
    assert bytes[12..13] == [bytes[12]] && bytes[13..14] == [bytes[13]];
    NumberOne(bytes[12]); NumberOne(bytes[13]);
    DigitsNumber(bytes[0..2]); DigitsNumber(bytes[2..4]); DigitsNumber(bytes[4..8]); DigitsNumber(bytes[8..12]);
    DigitsNumber(bytes[14..16]); DigitsNumber(bytes[16..18]); DigitsNumber(bytes[18..20]);
  }

  lemma ReadAt(bytes: seq<Byte>, k: nat, at: nat)
    requires HEADER_LENGTH <= |bytes| && k < |WIDTHS| && at == Total(WIDTHS[..k])
    ensures at + WIDTHS[k] <= |bytes|
    ensures Decode(Parser(bytes, NoError), WIDTHS).0[k] == Number(bytes[at..at + WIDTHS[k]])
  {
    hide Number, Decode, Total;
    WidthTotal();
    DecodeField(Parser(bytes, NoError), WIDTHS, k);
  }

  // ----- segments -----

  /** The header with its checksum computed over the whole segment. */
  function Checked(seg: Segment, initial: nat): TCPHeader
    requires 5 <= seg.header.doff
  {
    seg.header.(cksum := Checksum(initial, HeaderBytes(seg.header.(cksum := 0)) + seg.payload))
  }

  /** The segment with this checksum in its header. */
  function Sealed(seg: Segment, cksum: U16): (s: seq<Byte>)
    requires 5 <= seg.header.doff
    ensures |s| == 4 * seg.header.doff + |seg.payload|
  {
    HeaderBytes(seg.header.(cksum := cksum)) + seg.payload
  }

  /** `TCPSegment::serialize`. */
  function SegmentBytes(seg: Segment, initial: nat): (s: seq<Byte>)
    requires 5 <= seg.header.doff
    ensures |s| == 4 * seg.header.doff + |seg.payload|
  {
    Sealed(seg, Checked(seg, initial).cksum)
  }

  /** What is made of the bytes once their checksum is known; what `TCPHeader::parse` returns is dropped. */
  function ParseChecked(bytes: seq<Byte>, cksum: U16): (ParseResult, Option<Segment>) {
    if cksum != 0 then (BadChecksum, None) else
    var (h, _, rest) := ParseHeader(Parser(bytes, NoError));
    (rest.error, Some(Segment(h, rest.buffer)))
  }

  /** `TCPSegment::parse`. */
  function ParseSegment(bytes: seq<Byte>, initial: nat): (ParseResult, Option<Segment>) {
    ParseChecked(bytes, Checksum(initial, bytes))
  }

  /** A serialized segment checks to zero. */
  lemma SegmentChecks(seg: Segment, initial: nat)
    requires 5 <= seg.header.doff
    ensures Checksum(initial, SegmentBytes(seg, initial)) == 0
  {
    hide Encode, Checksum, Fields;
    var h0 := seg.header.(cksum := 0);
    var pad := Zeros(4 * h0.doff - HEADER_LENGTH);
    var c := Checksum(initial, HeaderBytes(h0) + seg.payload);
    assert HeaderBytes(h0) + seg.payload == Encode(Fields(h0), WIDTHS) + (pad + seg.payload);
    FieldsCksum(h0, c);
    assert SegmentBytes(seg, initial) == Encode(Fields(h0)[CKSUM := c], WIDTHS) + (pad + seg.payload);
    WidthTotal();
    FieldChecks(initial, Fields(h0), WIDTHS, CKSUM, pad + seg.payload);
  }

  /** Serialize, then parse: the same segment with its checksum filled in. */
  lemma SegmentRoundTrip(seg: Segment, initial: nat)
    requires 5 <= seg.header.doff < 0x10
    ensures ParseSegment(SegmentBytes(seg, initial), initial)
            == (NoError, Some(seg.(header := Checked(seg, initial))))
  {
    hide Checksum, HeaderBytes, ParseHeader;
    SegmentChecks(seg, initial);
    HeaderRoundTrip(Checked(seg, initial), seg.payload);
  }

  /** A serialized segment with any one byte changed is refused for its checksum. */
  lemma CorruptionDetected(seg: Segment, initial: nat, i: nat, b: Byte)
    requires 5 <= seg.header.doff && i < |SegmentBytes(seg, initial)| && b != SegmentBytes(seg, initial)[i]
    ensures ParseSegment(SegmentBytes(seg, initial)[i := b], initial) == (BadChecksum, None)
  {
    hide Checksum, HeaderBytes, ParseHeader;
    SegmentChecks(seg, initial);
    SingleByteDetected(initial, SegmentBytes(seg, initial), i, b);
  }

  // ----- what dropping the header's result lets through -----

  function HeaderOf(bytes: seq<Byte>): TCPHeader {
    FromFields(Decode(Parser(bytes, NoError), WIDTHS).0)
  }

  /** The header parser's verdict, and where it leaves the input. */
  lemma HeaderVerdict(bytes: seq<Byte>)
    requires HEADER_LENGTH <= |bytes|
    ensures var h := HeaderOf(bytes);
            var (h', result, rest) := ParseHeader(Parser(bytes, NoError));
            && h' == h
            && (result == NoError <==> 5 <= h.doff && 4 * h.doff <= |bytes|)
            && (rest.error == NoError <==> 4 * h.doff <= |bytes|)
            && (rest.error == NoError ==> rest.buffer == bytes[if h.doff < 5 then HEADER_LENGTH else 4 * h.doff..])
  {
    hide Decode, FromFields;
    WidthTotal();
    DecodeRest(Parser(bytes, NoError), WIDTHS);
    var h := HeaderOf(bytes);
    if 5 <= h.doff && 4 * h.doff <= |bytes| {
      assert bytes[HEADER_LENGTH..][4 * h.doff - HEADER_LENGTH..] == bytes[4 * h.doff..];
    }
  }

  /** `TCPSegment::parse` asks for the checksum and as many bytes as the offset says; not for an offset of five. */
  lemma AcceptsExactly(bytes: seq<Byte>, initial: nat)
    ensures ParseSegment(bytes, initial).0 == NoError <==>
            Checksum(initial, bytes) == 0 && HEADER_LENGTH <= |bytes| && 4 * HeaderOf(bytes).doff <= |bytes|
  {
    hide Decode, FromFields, Checksum;
    WidthTotal();
    if |bytes| < HEADER_LENGTH {
      DecodeShort(Parser(bytes, NoError), WIDTHS);
    } else {
      hide ParseHeader;
      HeaderVerdict(bytes);
    }
  }

  /** Of what it accepts, the header parser had found exactly the offsets of five and more good. */
  lemma AcceptedHeader(bytes: seq<Byte>, initial: nat)
    requires ParseSegment(bytes, initial).0 == NoError
    ensures ParseSegment(bytes, initial).1.Some?
    ensures ParseHeader(Parser(bytes, NoError)).1 == NoError <==> 5 <= ParseSegment(bytes, initial).1.value.header.doff
  {
    hide ParseHeader, Checksum;
    AcceptsExactly(bytes, initial);
    HeaderVerdict(bytes);
  }

  /** A segment that claims a header shorter than twenty bytes, with its checksum right. */
  function ShortSegment(h: TCPHeader, payload: seq<Byte>, initial: nat): Segment {
    var zeroed := Encode(Fields(h.(cksum := 0)), WIDTHS) + payload;
    Segment(h.(cksum := Checksum(initial, zeroed)), payload)
  }

  /** It is accepted, and what follows the twenty bytes is taken for its payload. */
  lemma ShortOffsetAccepted(h: TCPHeader, payload: seq<Byte>, initial: nat)
    requires h.doff < 5
    ensures var seg := ShortSegment(h, payload, initial);
            var bytes := Encode(Fields(seg.header), WIDTHS) + payload;
            && ParseSegment(bytes, initial) == (NoError, Some(seg))
            && ParseHeader(Parser(bytes, NoError)).1 == HeaderTooShort
  {
    hide Encode, Decode, Fields, FromFields, Checksum;
    var h0 := h.(cksum := 0);
    var seg := ShortSegment(h, payload, initial);
    FieldsCksum(h0, seg.header.cksum);
    WidthTotal();
    FieldChecks(initial, Fields(h0), WIDTHS, CKSUM, payload);
    FieldsBack(seg.header);
    DecodeEncode(Fields(seg.header), WIDTHS, payload);
  }

  // ----- the methods -----

  /** `TCPHeader::parse`. */
  method ReadHeader(p: NetParser) returns (h: TCPHeader, result: ParseResult)
    modifies p
    ensures (h, result, p.Model()) == ParseHeader(old(p.Model()))
  {
    hide Decode, FromFields;
    var vals := p.ReadFields(WIDTHS);
    h := FromFields(vals);
    if h.doff < 5 {
      return h, HeaderTooShort;
    }
    p.RemovePrefix(h.doff * 4 - HEADER_LENGTH);
    return h, p.error;
  }

  /** `TCPHeader::serialize`; a header that is too short is refused. */
  method WriteHeader(h: TCPHeader) returns (r: Option<seq<Byte>>)
    ensures r == if h.doff < 5 then None else Some(HeaderBytes(h))
  {
    hide Encode, Fields;
    if h.doff < 5 {
      return None;
    }
    var s := WriteFields(Fields(h), WIDTHS);
    return Some(s + Zeros(4 * h.doff - HEADER_LENGTH));
  }

  /** `TCPSegment::serialize`, adding header and payload to the checksum in turn. */
  method WriteSegment(seg: Segment, initial: U32) returns (r: Option<seq<Byte>>)
    ensures seg.header.doff < 5 ==> r == None
    ensures 5 <= seg.header.doff ==>
              r == Some(Sealed(seg, Checksum32(initial, HeaderBytes(seg.header.(cksum := 0)) + seg.payload)))
    ensures 5 <= seg.header.doff && Fits(initial, 4 * seg.header.doff + |seg.payload|) ==>
              r == Some(SegmentBytes(seg, initial))
  {
    hide HeaderBytes, Checksum, Checksum32;
    var zeroed := WriteHeader(seg.header.(cksum := 0));
    if zeroed.None? {
      return None;
    }
    var cksum := ChecksumOf(initial, zeroed.value, seg.payload);
    var header := WriteHeader(seg.header.(cksum := cksum));
    return Some(header.value + seg.payload);
  }

  /** `TCPSegment::parse`. */
  method ReadSegment(bytes: seq<Byte>, initial: U32) returns (result: ParseResult, seg: Option<Segment>)
    ensures (result, seg) == ParseChecked(bytes, Checksum32(initial, bytes))
    ensures Fits(initial, |bytes|) ==> (result, seg) == ParseSegment(bytes, initial)
  {
    hide ParseHeader, Checksum, Checksum32;
    assert bytes + [] == bytes;
    var v := ChecksumOf(initial, bytes, []);
    if v != 0 {
      return BadChecksum, None;
    }
    var p := new NetParser(bytes);
    var h, _ := ReadHeader(p);
    return p.error, Some(Segment(h, p.buffer));
  }
}
