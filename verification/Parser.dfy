/** Reading and writing integers in network byte order, with a sticky error. */
module Parsers {
  import opened Basics

  datatype ParseResult = NoError | BadChecksum | PacketTooShort | WrongIPVersion | HeaderTooShort | TruncatedPacket

  /** The number `bytes` spell, most significant first. */
  function Number(bytes: seq<Byte>): nat {
    if bytes == [] then 0 else 0x100 * Number(bytes[..|bytes| - 1]) + bytes[|bytes| - 1]
  }

  /** The `len` low bytes of `val`, most significant first. */
  function Digits(val: nat, len: nat): (s: seq<Byte>)
    ensures |s| == len
  {
    if len == 0 then [] else Digits(val / 0x100, len - 1) + [val % 0x100]
  }

  /** `val` has no more than `len` bytes. */
  predicate Holds(val: nat, len: nat) {
    if len == 0 then val == 0 else Holds(val / 0x100, len - 1)
  }

  lemma HoldsWidths(val: nat)
    ensures Holds(val, 1) <==> val < 0x100
    ensures Holds(val, 2) <==> val < TWO16
    ensures Holds(val, 4) <==> val < TWO32
  {
    assert Holds(val, 1) <==> val / 0x100 == 0;
    assert Holds(val, 2) <==> Holds(val / 0x100, 1);
    assert Holds(val, 3) <==> Holds(val / 0x100, 2);
    assert Holds(val, 4) <==> Holds(val / 0x100, 3);
    assert Holds(val / 0x100, 1) <==> val / 0x100 / 0x100 == 0;
    assert Holds(val / 0x100, 2) <==> Holds(val / 0x100 / 0x100, 1);
    assert Holds(val / 0x100, 3) <==> Holds(val / 0x100 / 0x100, 2);
    assert Holds(val / 0x100 / 0x100, 2) <==> Holds(val / 0x100 / 0x100 / 0x100, 1);
  }

  /** Written numbers read back, and what is read writes back. */
  lemma {:induction false} NumberDigits(val: nat, len: nat)
    requires Holds(val, len)
    ensures Number(Digits(val, len)) == val
  {
    if len > 0 {
      var s := Digits(val, len);
      assert s[..len - 1] == Digits(val / 0x100, len - 1);
      NumberDigits(val / 0x100, len - 1);
    }
  }

  lemma {:induction false} DigitsNumber(bytes: seq<Byte>)
    ensures Holds(Number(bytes), |bytes|) && Digits(Number(bytes), |bytes|) == bytes
  {
    if bytes != [] {
      DigitsNumber(bytes[..|bytes| - 1]);
      assert bytes == bytes[..|bytes| - 1] + [bytes[|bytes| - 1]];
    }
  }

  datatype Parser = Parser(buffer: seq<Byte>, error: ParseResult) {

    /** The state after asking for `n` bytes. */
    function Check(n: nat): Parser {
      if n > |buffer| then this.(error := PacketTooShort) else this
    }

    /** Skip `n` bytes; after an error nothing moves. */
    function Skip(n: nat): Parser {
      if Check(n).error == NoError then this.(buffer := buffer[n..]) else Check(n)
    }

    /** The next `len` bytes as a number; after an error, zero. */
    function Peek(len: nat): (v: nat)
      ensures Holds(v, len)
    {
      if Check(len).error == NoError then DigitsNumber(buffer[..len]); Number(buffer[..len])
      else HoldsZero(len); 0
    }
  }

  lemma {:induction false} HoldsZero(len: nat)
    ensures Holds(0, len)
  {
    if len > 0 { HoldsZero(len - 1); }
  }

  // ----- records of fixed-width fields -----

  /** The numbers `vals`, each in its width. */
  function Encode(vals: seq<nat>, widths: seq<nat>): seq<Byte>
    requires |vals| == |widths|
  {
    if vals == [] then [] else Digits(vals[0], widths[0]) + Encode(vals[1..], widths[1..])
  }

  /** Read one number per width, in turn. */
  function Decode(p: Parser, widths: seq<nat>): (r: (seq<nat>, Parser))
    ensures |r.0| == |widths| && forall i :: 0 <= i < |widths| ==> Holds(r.0[i], widths[i])
    decreases |widths|
  {
    if widths == [] then ([], p) else
    var (vals, rest) := Decode(p.Skip(widths[0]), widths[1..]);
    ([p.Peek(widths[0])] + vals, rest)
  }

  function Total(widths: seq<nat>): nat {
    if widths == [] then 0 else widths[0] + Total(widths[1..])
  }

  lemma {:induction false} TotalConcat(a: seq<nat>, b: seq<nat>)
    ensures Total(a + b) == Total(a) + Total(b)
  {
    if a == [] {
      assert a + b == b;
    } else {
      assert (a + b)[1..] == a[1..] + b;
      TotalConcat(a[1..], b);
    }
  }

  /** Reading two runs of fields one after the other. */
  lemma {:induction false} DecodeConcat(p: Parser, a: seq<nat>, b: seq<nat>)
    ensures var (va, q) := Decode(p, a);
            var (vb, r) := Decode(q, b);
            Decode(p, a + b) == (va + vb, r)
    decreases |a|
  {
    if a == [] {
      assert a + b == b;
      assert [] + Decode(p, b).0 == Decode(p, b).0;
    } else {
      assert (a + b)[1..] == a[1..] + b;
      DecodeConcat(p.Skip(a[0]), a[1..], b);
      var (va, q) := Decode(p.Skip(a[0]), a[1..]);
      var vb := Decode(q, b).0;
      assert ([p.Peek(a[0])] + va) + vb == [p.Peek(a[0])] + (va + vb);
    }
  }

  lemma DecodeOne(p: Parser, w: nat)
    ensures Decode(p, [w]) == ([p.Peek(w)], p.Skip(w))
  {
    assert [w][1..] == [];
    assert [p.Peek(w)] + [] == [p.Peek(w)];
  }

  predicate FitIn(vals: seq<nat>, widths: seq<nat>) {
    |vals| == |widths| && forall i :: 0 <= i < |vals| ==> Holds(vals[i], widths[i])
  }

  lemma {:induction false} EncodeLength(vals: seq<nat>, widths: seq<nat>)
    requires |vals| == |widths|
    ensures |Encode(vals, widths)| == Total(widths)
  {
    if vals != [] { EncodeLength(vals[1..], widths[1..]); }
  }

  /** A record that fits its widths decodes to itself and leaves what follows. */
  lemma {:induction false} DecodeEncode(vals: seq<nat>, widths: seq<nat>, rest: seq<Byte>)
    requires FitIn(vals, widths)
    ensures Decode(Parser(Encode(vals, widths) + rest, NoError), widths) == (vals, Parser(rest, NoError))
  {
    if vals == [] {
      assert Encode(vals, widths) + rest == rest;
    } else {
      hide Number, Digits;
      var first, tail := Digits(vals[0], widths[0]), Encode(vals[1..], widths[1..]) + rest;
      var p := Parser(Encode(vals, widths) + rest, NoError);
      assert p.buffer == first + tail;
      assert p.buffer[..widths[0]] == first && p.buffer[widths[0]..] == tail;
      NumberDigits(vals[0], widths[0]);
      assert p.Skip(widths[0]) == Parser(tail, NoError);
      DecodeEncode(vals[1..], widths[1..], rest);
      assert vals == [vals[0]] + vals[1..];
    }
  }

  /** Too short an input leaves the error set, whatever was asked for. */
  lemma {:induction false} DecodeShort(p: Parser, widths: seq<nat>)
    requires p.error != NoError || |p.buffer| < Total(widths)
    ensures Decode(p, widths).1.error != NoError
    ensures p.error == NoError || p.error == PacketTooShort ==> Decode(p, widths).1.error == PacketTooShort
    decreases |widths|
  {
    if widths != [] { DecodeShort(p.Skip(widths[0]), widths[1..]); }
  }

  /** Enough input is consumed to the byte, without error. */
  lemma {:induction false} DecodeRest(p: Parser, widths: seq<nat>)
    requires p.error == NoError && Total(widths) <= |p.buffer|
    ensures Decode(p, widths).1 == Parser(p.buffer[Total(widths)..], NoError)
    decreases |widths|
  {
    if widths == [] {
      assert p.buffer[0..] == p.buffer;
    } else {
      DecodeRest(p.Skip(widths[0]), widths[1..]);
      assert p.buffer[widths[0]..][Total(widths[1..])..] == p.buffer[Total(widths)..];
    }
  }

  /** Network byte order: the most significant byte first. */
  lemma NetworkOrder(val: nat)
    ensures Digits(val, 1) == [val % 0x100]
    ensures Digits(val, 2) == [val / 0x100 % 0x100, val % 0x100]
    ensures Digits(val, 4) == [val / 0x1_000000 % 0x100, val / TWO16 % 0x100, val / 0x100 % 0x100, val % 0x100]
  {
    hide Digits;
    TwoDigits(val);
    FourDigits(val);
  }

  lemma TwoDigits(val: nat)
    ensures Digits(val, 1) == [val % 0x100] && Digits(val, 2) == [val / 0x100 % 0x100, val % 0x100]
  {
    hide Digits;
    DigitsStep(val, 1);
    DigitsStep(val, 2);
    DigitsStep(val / 0x100, 1);
  }

  lemma FourDigits(val: nat)
    ensures Digits(val, 4) == [val / 0x1_000000 % 0x100, val / TWO16 % 0x100, val / 0x100 % 0x100, val % 0x100]
  {
    hide Digits;
    var a := val / 0x100;
    var b := a / 0x100;
    DigitsStep(val, 4);
    DigitsStep(a, 3);
    TwoDigits(b);
    assert b == val / TWO16 && b / 0x100 == val / 0x1_000000;
  }

  lemma DigitsStep(val: nat, len: nat)
    requires 0 < len
    ensures Digits(val, len) == Digits(val / 0x100, len - 1) + [val % 0x100]
    ensures Digits(val, 0) == []
  {
  }

  /** A byte, and a word, found where they were written. */
  lemma ByteAt(b: seq<Byte>, at: nat, v: Byte)
    requires at < |b| && b[at..at + 1] == Digits(v, 1)
    ensures b[at] == v
  {
    hide Digits;
    TwoDigits(v);
    assert b[at] == b[at..at + 1][0];
  }

  lemma WordAt(b: seq<Byte>, at: nat, v: U16)
    requires at + 1 < |b| && b[at..at + 2] == Digits(v, 2)
    ensures b[at] == v / 0x100 && b[at + 1] == v % 0x100
  {
    hide Digits;
    TwoDigits(v);
    assert b[at] == b[at..at + 2][0] && b[at + 1] == b[at..at + 2][1];
  }

  lemma TotalSnoc(widths: seq<nat>, k: nat)
    requires k < |widths|
    ensures Total(widths[..k + 1]) == Total(widths[..k]) + widths[k]
    ensures Total(widths[..0]) == 0
  {
    assert widths[..k + 1] == widths[..k] + [widths[k]];
    TotalConcat(widths[..k], [widths[k]]);
    assert [widths[k]][1..] == [];
  }

  /** Where a field stands in an encoded record. */
  lemma {:induction false} EncodeField(vals: seq<nat>, widths: seq<nat>, k: nat)
    requires |vals| == |widths| && k < |vals|
    ensures var at := Total(widths[..k]);
            && at + widths[k] <= |Encode(vals, widths)|
            && Encode(vals, widths)[at..at + widths[k]] == Digits(vals[k], widths[k])
  {
    var rest := Encode(vals[1..], widths[1..]);
    if k == 0 {
      assert widths[..0] == [];
    } else {
      EncodeField(vals[1..], widths[1..], k - 1);
      var at := Total(widths[1..][..k - 1]);
      assert widths[..k][1..] == widths[1..][..k - 1];
      assert Encode(vals, widths)[widths[0] + at..widths[0] + at + widths[k]] == rest[at..at + widths[k]];
    }
  }

  /** What a field is read from. */
  lemma {:induction false} DecodeField(p: Parser, widths: seq<nat>, k: nat)
    requires p.error == NoError && Total(widths) <= |p.buffer| && k < |widths|
    ensures var at := Total(widths[..k]);
            && at + widths[k] <= |p.buffer|
            && Decode(p, widths).0[k] == Number(p.buffer[at..at + widths[k]])
    decreases |widths|
  {
    hide Number;
    if k == 0 {
      assert widths[..0] == [];
      assert p.buffer[0..widths[0]] == p.buffer[..widths[0]];
    } else {
      var q := p.Skip(widths[0]);
      DecodeField(q, widths[1..], k - 1);
      var at := Total(widths[1..][..k - 1]);
      assert widths[..k][1..] == widths[1..][..k - 1];
      assert q.buffer[at..at + widths[k]] == p.buffer[widths[0] + at..widths[0] + at + widths[k]];
    }
  }

  lemma NumberOne(b: Byte)
    ensures Number([b]) == b
  {
    assert [b][..0] == [];
  }

  // ----- the objects -----

  class NetParser {
    var buffer: seq<Byte>
    var error: ParseResult

    ghost function Model(): Parser
      reads this
    {
      Parser(buffer, error)
    }

    constructor (buffer: seq<Byte>)
      ensures Model() == Parser(buffer, NoError)
    {
      this.buffer, error := buffer, NoError;
    }

    method CheckSize(size: nat)
      modifies this`error
      ensures Model() == old(Model()).Check(size)
    {
      if size > |buffer| {
        error := PacketTooShort;
      }
    }

    /** `_parse_int`. */
    method ParseInt(len: nat) returns (ret: nat)
      modifies this
      ensures ret == old(Model()).Peek(len) && Model() == old(Model()).Skip(len)
      ensures Holds(ret, len)
    {
      CheckSize(len);
      if error != NoError {
        HoldsZero(len);
        return 0;
      }
      ret := 0;
      for i := 0 to len
        invariant ret == Number(buffer[..i])
      {
        assert buffer[..i + 1][..i] == buffer[..i];
        ret := ret * 0x100;
        ret := ret + buffer[i];
      }
      buffer := buffer[len..];
    }

    /** One integer after the other, as the header parsers read them. */
    method ReadFields(widths: seq<nat>) returns (vals: seq<nat>)
      modifies this
      ensures (vals, Model()) == Decode(old(Model()), widths)
    {
      hide Number, Holds, Parser.Peek, Parser.Skip;
      vals := [];
      for i := 0 to |widths|
        invariant (vals, Model()) == Decode(old(Model()), widths[..i])
      {
        assert widths[..i + 1] == widths[..i] + [widths[i]];
        DecodeConcat(old(Model()), widths[..i], [widths[i]]);
        DecodeOne(Model(), widths[i]);
        var val := ParseInt(widths[i]);
        vals := vals + [val];
      }
      assert widths[..|widths|] == widths;
    }

    method RemovePrefix(n: nat)
      modifies this
      ensures Model() == old(Model()).Skip(n)
    {
      CheckSize(n);
      if error != NoError {
        return;
      }
      buffer := buffer[n..];
    }
  }

  /** 256 to the `k`, for the widths in use. */
  function Shift(k: nat): nat
    requires k <= 3
  {
    if k == 0 then 1 else if k == 1 then 0x100 else if k == 2 then 0x1_0000 else 0x100_0000
  }

  lemma DigitAt(val: nat, len: nat, i: nat)
    requires i < len <= 4
    ensures Digits(val, len)[i] == val / Shift(len - i - 1) % 0x100
  {
    var v1, v2, v3 := val / 0x100, val / 0x100 / 0x100, val / 0x100 / 0x100 / 0x100;
    assert v2 == val / 0x1_0000 && v3 == val / 0x100_0000;
    assert Digits(val, len) == Digits(v1, len - 1) + [val % 0x100];
    if len >= 2 {
      assert Digits(v1, len - 1) == Digits(v2, len - 2) + [v1 % 0x100];
      if len >= 3 {
        assert Digits(v2, len - 2) == Digits(v3, len - 3) + [v2 % 0x100];
        if len == 4 {
          assert Digits(v3, 1) == Digits(v3 / 0x100, 0) + [v3 % 0x100];
        }
      }
    }
  }

  /** `_unparse_int`, byte by byte from the top. */
  method UnparseInt(s: seq<Byte>, val: nat, len: nat) returns (r: seq<Byte>)
    requires len <= 4
    ensures r == s + Digits(val, len)
  {
    r := s;
    for i := 0 to len
      invariant r == s + Digits(val, len)[..i]
    {
      DigitAt(val, len, i);
      var theByte: Byte := val / Shift(len - i - 1) % 0x100;
      r := r + [theByte];
    }
  }

  lemma {:induction false} EncodeSnoc(vals: seq<nat>, widths: seq<nat>, v: nat, w: nat)
    requires |vals| == |widths|
    ensures Encode(vals + [v], widths + [w]) == Encode(vals, widths) + Digits(v, w)
  {
    if vals == [] {
      assert vals + [v] == [v] && widths + [w] == [w];
      assert Encode([v], [w]) == Digits(v, w) + Encode([v][1..], [w][1..]);
    } else {
      assert (vals + [v])[1..] == vals[1..] + [v] && (widths + [w])[1..] == widths[1..] + [w];
      EncodeSnoc(vals[1..], widths[1..], v, w);
    }
  }

  /** One integer after the other, as the header serializers write them. */
  method WriteFields(vals: seq<nat>, widths: seq<nat>) returns (s: seq<Byte>)
    requires |vals| == |widths| && forall w <- widths :: w <= 4
    ensures s == Encode(vals, widths)
  {
    hide Digits;
    s := [];
    for i := 0 to |vals|
      invariant s == Encode(vals[..i], widths[..i])
    {
      assert vals[..i + 1] == vals[..i] + [vals[i]] && widths[..i + 1] == widths[..i] + [widths[i]];
      EncodeSnoc(vals[..i], widths[..i], vals[i], widths[i]);
      assert widths[i] in widths;
      s := UnparseInt(s, vals[i], widths[i]);
    }
    assert vals[..|vals|] == vals && widths[..|widths|] == widths;
  }
}
