/** A checksum stored in one of the fields it covers. */
module ChecksumFields {
  import opened Basics
  import opened Checksums
  import opened Parsers

  function Zeros(n: nat): (s: seq<Byte>)
    ensures |s| == n
  {
    seq(n, _ => 0)
  }

  lemma {:induction false} WeighZeros(n: nat, odd: bool)
    ensures Weigh(Zeros(n), odd) == 0
  {
    if n > 0 {
      assert Zeros(n)[1..] == Zeros(n - 1);
      WeighZeros(n - 1, !odd);
    }
  }

  lemma WeighWord(c: U16)
    ensures Weigh(Digits(c, 2), false) == c
  {
    var hi, lo := c / 0x100, c % 0x100;
    assert Digits(c, 2) == Digits(hi, 1) + [lo];
    assert Digits(hi, 1) == Digits(hi / 0x100, 0) + [hi % 0x100];
    assert Digits(c, 2) == [hi, lo];
    assert [hi, lo][1..] == [lo];
    assert [lo][1..] == [];
    assert Weigh([lo], true) == lo + Weigh([], false) == lo;
    assert Weigh([hi, lo], false) == 0x100 * hi + Weigh([lo], true);
  }

  lemma DoubleDigits(v: U32)
    ensures Digits(v, 4) == Digits(v / TWO16, 2) + Digits(v % TWO16, 2)
  {
    hide Digits;
    var a := v / 0x100;
    var hi, mid, lo := a / 0x100, a % 0x100, v % 0x100;
    DigitsStep(v, 4);
    DigitsStep(a, 3);
    WordParts(v, hi, 0x100 * mid + lo);
    ByteParts(v % TWO16, mid, lo);
    TwoDigits(v % TWO16);
  }

  lemma WordParts(v: nat, q: nat, r: nat)
    requires v == TWO16 * q + r && r < TWO16
    ensures v / TWO16 == q && v % TWO16 == r
  {
  }

  lemma ByteParts(v: nat, q: nat, r: nat)
    requires v == 0x100 * q + r && r < 0x100
    ensures v / 0x100 == q && v % 0x100 == r
  {
  }

  /** A 32-bit number adds its two halves. */
  lemma WeighDouble(v: U32)
    ensures Weigh(Digits(v, 4), false) == v / TWO16 + v % TWO16
  {
    hide Weigh, Digits;
    var hi, lo := v / TWO16, v % TWO16;
    DoubleDigits(v);
    WeighConcat(Digits(hi, 2), Digits(lo, 2), false);
    WeighWord(hi);
    WeighWord(lo);
  }

  /** A 16-bit field at an even offset adds its value to the sum. */
  lemma {:induction false} FieldWeight(vals: seq<nat>, widths: seq<nat>, k: nat, c: U16, odd: bool)
    requires |vals| == |widths| && k < |vals| && widths[k] == 2 && vals[k] == 0
    requires !Flip(odd, Total(widths[..k]))
    ensures Weigh(Encode(vals[k := c], widths), odd) == Weigh(Encode(vals, widths), odd) + c
  {
    hide Weigh, Digits;
    var vals' := vals[k := c];
    WeighConcat(Digits(vals[0], widths[0]), Encode(vals[1..], widths[1..]), odd);
    WeighConcat(Digits(vals'[0], widths[0]), Encode(vals'[1..], widths[1..]), odd);
    if k == 0 {
      assert widths[..0] == [];
      assert vals'[1..] == vals[1..];
      WeighWord(c);
      WeighWord(0);
    } else {
      assert vals'[1..] == vals[1..][k - 1 := c];
      assert widths[..k][1..] == widths[1..][..k - 1];
      FieldWeight(vals[1..], widths[1..], k - 1, c, Flip(odd, widths[0]));
    }
  }

  /** With any 16-bit value in the field, the whole sums to the sum without it plus the value. */
  lemma FieldSum(vals: seq<nat>, widths: seq<nat>, k: nat, c: U16, back: seq<Byte>)
    requires |vals| == |widths| && k < |vals| && widths[k] == 2 && vals[k] == 0 && Total(widths[..k]) % 2 == 0
    ensures Weigh(Encode(vals[k := c], widths) + back, false) == Weigh(Encode(vals, widths) + back, false) + c
  {
    hide Weigh, Encode;
    FieldWeight(vals, widths, k, c, false);
    EncodeLength(vals, widths);
    EncodeLength(vals[k := c], widths);
    WeighConcat(Encode(vals, widths), back, false);
    WeighConcat(Encode(vals[k := c], widths), back, false);
  }

  /** Filling the checksum of `front + back` into its zero field makes the whole check to zero. */
  lemma FieldChecks(initial: nat, vals: seq<nat>, widths: seq<nat>, k: nat, back: seq<Byte>)
    requires |vals| == |widths| && k < |vals| && widths[k] == 2 && vals[k] == 0 && Total(widths[..k]) % 2 == 0
    ensures var c := Checksum(initial, Encode(vals, widths) + back);
            Checksum(initial, Encode(vals[k := c], widths) + back) == 0
  {
    hide Weigh, Encode, Folded;
    FieldSum(vals, widths, k, Checksum(initial, Encode(vals, widths) + back), back);
    ChecksumCompletes(initial + Weigh(Encode(vals, widths) + back, false));
  }

  /** One more than the right checksum does not check. */
  lemma FieldOffByOne(initial: nat, vals: seq<nat>, widths: seq<nat>, k: nat, back: seq<Byte>)
    requires |vals| == |widths| && k < |vals| && widths[k] == 2 && vals[k] == 0 && Total(widths[..k]) % 2 == 0
    ensures var c := Checksum(initial, Encode(vals, widths) + back);
            Checksum(initial, Encode(vals[k := (c + 1) % TWO16], widths) + back) != 0
  {
    hide Weigh, Encode;
    var sum := initial + Weigh(Encode(vals, widths) + back, false);
    var c := Checksum(initial, Encode(vals, widths) + back);
    FieldSum(vals, widths, k, (c + 1) % TWO16, back);
    FoldedFull(sum + (c + 1) % TWO16);
    if sum > 0 {
      assert sum + c == 0xffff * ((sum - 1) / 0xffff + 1);
      ResidueShift(1, (sum - 1) / 0xffff + 1);
    }
  }
}
