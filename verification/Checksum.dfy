/** The Internet checksum (section 2 of RFC 1071). */
module Checksums {
  import opened Basics

  /** The 16-bit words of `data` added up, a byte counting high or low by its position's parity. */
  function Weigh(data: seq<Byte>, odd: bool): nat {
    if data == [] then 0 else (if odd then data[0] else 0x100 * data[0]) + Weigh(data[1..], !odd)
  }

  function Flip(odd: bool, n: nat): bool {
    odd != (n % 2 == 1)
  }

  /** One's-complement sum of a number: its residue modulo 65535, but 65535 for positive multiples. */
  function Folded(sum: nat): (r: nat)
    ensures r <= 0xffff
  {
    if sum == 0 then 0 else (sum - 1) % 0xffff + 1
  }

  /** The checksum of `data` on top of an initial sum, with no 32-bit overflow. */
  function Checksum(initial: nat, data: seq<Byte>): (v: U16) {
    0xffff - Folded(initial + Weigh(data, false))
  }

  /** Sums that stay below 2^32 whatever the bytes are; 65535 bytes and any pseudo-header do. */
  predicate Fits(initial: nat, n: nat) {
    initial + 0xff00 * n < TWO32
  }

  lemma {:induction false} WeighBound(data: seq<Byte>, odd: bool)
    ensures Weigh(data, odd) <= 0xff00 * |data|
  {
    if data != [] { WeighBound(data[1..], !odd); }
  }

  lemma WeighNone(odd: bool)
    ensures Weigh([], odd) == 0
  {
  }

  lemma WeighOne(b: Byte, odd: bool)
    ensures Weigh([b], odd) == if odd then b as nat else 0x100 * b as nat
  {
    assert [b][1..] == [];
  }

  /** Adding data in pieces, at odd lengths too, adds up to adding it at once. */
  lemma {:induction false} WeighConcat(a: seq<Byte>, b: seq<Byte>, odd: bool)
    ensures Weigh(a + b, odd) == Weigh(a, odd) + Weigh(b, Flip(odd, |a|))
  {
    if a == [] {
      assert a + b == b;
    } else {
      assert (a + b)[1..] == a[1..] + b;
      WeighConcat(a[1..], b, !odd);
    }
  }

  /** The checksum is zero exactly for positive multiples of 65535. */
  lemma FoldedFull(sum: nat)
    ensures Folded(sum) == 0xffff <==> 0 < sum && sum % 0xffff == 0
  {
  }

  lemma FoldedStep(sum: nat)
    requires 0xffff < sum
    ensures var next := sum / TWO16 + sum % TWO16;
            0 < next < sum && Folded(next) == Folded(sum)
  {
    var q, r := sum / TWO16, sum % TWO16;
    assert sum - 1 == (q + r - 1) + 0xffff * q;
    ResidueShift(q + r - 1, q);
  }

  lemma {:induction false} ResidueShift(x: nat, k: nat)
    ensures (x + 0xffff * k) % 0xffff == x % 0xffff
  {
    if k > 0 {
      ResidueShift(x, k - 1);
      assert x + 0xffff * k == (x + 0xffff * (k - 1)) + 0xffff;
    }
  }

  /** Filling the checksum into a zero field makes the whole sum check. */
  lemma ChecksumCompletes(sum: nat)
    ensures Folded(sum + (0xffff - Folded(sum))) == 0xffff
  {
    FoldedFull(sum + (0xffff - Folded(sum)));
    if sum > 0 {
      assert sum == 0xffff * ((sum - 1) / 0xffff) + Folded(sum);
      ResidueShift(0, (sum - 1) / 0xffff + 1);
    }
  }

  /** Changing one byte changes the sum by less than 65535 and by something. */
  lemma {:induction false} WeighUpdate(data: seq<Byte>, odd: bool, i: nat, b: Byte)
    requires i < |data|
    ensures Weigh(data[i := b], odd) - Weigh(data, odd)
            == (if Flip(odd, i) then b - data[i] else 0x100 * (b - data[i]))
  {
    if i == 0 {
      assert data[0 := b][1..] == data[1..];
    } else {
      assert data[i := b][1..] == data[1..][i - 1 := b];
      WeighUpdate(data[1..], !odd, i - 1, b);
    }
  }

  /** Data that checks no longer does once a single byte of it is different. */
  lemma SingleByteDetected(initial: nat, data: seq<Byte>, i: nat, b: Byte)
    requires i < |data| && b != data[i] && Checksum(initial, data) == 0
    ensures Checksum(initial, data[i := b]) != 0
  {
    var sum, sum' := initial + Weigh(data, false), initial + Weigh(data[i := b], false);
    WeighUpdate(data, false, i, b);
    FoldedFull(sum);
    FoldedFull(sum');
    var d := sum' - sum;
    assert -0xffff < d < 0xffff && d != 0;
    NotBothMultiples(sum, sum');
  }

  lemma NotBothMultiples(a: nat, b: nat)
    requires a != b && -0xffff < b - a < 0xffff && a % 0xffff == 0
    ensures b % 0xffff != 0
  {
    var x, y := a / 0xffff, b / 0xffff;
    assert a == 0xffff * x;
  }

  class InternetChecksum {
    var sum: U32
    var parity: bool

    constructor (initialSum: U32)
      ensures sum == initialSum && !parity
    {
      sum, parity := initialSum, false;
    }

    /** `add`: the sum is kept modulo 2^32. */
    method Add(data: seq<Byte>)
      modifies this
      ensures sum == (old(sum) + Weigh(data, old(parity))) % TWO32
      ensures parity == Flip(old(parity), |data|)
    {
      hide Weigh;
      WeighNone(old(parity));
      assert data[..|data|] == data;
      for i := 0 to |data|
        invariant sum == (old(sum) + Weigh(data[..i], old(parity))) % TWO32
        invariant parity == Flip(old(parity), i)
      {
        var val: nat := data[i];
        if !parity {
          val := 0x100 * val;
        }
        assert data[..i + 1] == data[..i] + [data[i]];
        WeighConcat(data[..i], [data[i]], old(parity));
        WeighOne(data[i], parity);
        WrapAdd(old(sum) + Weigh(data[..i], old(parity)), val);
        sum := (sum + val) % TWO32;
        parity := !parity;
      }
    }

    /** `value`: the folding loop ends, and with the one's-complement sum. */
    method Value() returns (v: U16)
      ensures v == 0xffff - Folded(sum)
    {
      var ret: nat := sum;
      while ret > 0xffff
        invariant Folded(ret) == Folded(sum)
      {
        FoldedStep(ret);
        ret := ret / TWO16 + ret % TWO16;
      }
      assert Folded(ret) == ret;
      v := 0xffff - ret;
    }
  }

  /** The checksum as the object computes it: the sum is kept in 32 bits. */
  function Checksum32(initial: nat, data: seq<Byte>): (v: U16) {
    0xffff - Folded((initial + Weigh(data, false)) % TWO32)
  }

  /** Where the sum cannot overflow, the two are the same. */
  lemma NoOverflow(initial: nat, data: seq<Byte>)
    requires Fits(initial, |data|)
    ensures Checksum32(initial, data) == Checksum(initial, data)
  {
    hide Weigh, Folded;
    WeighBound(data, false);
  }

  /** The checksum of two pieces added in turn. */
  method ChecksumOf(initial: U32, front: seq<Byte>, back: seq<Byte>) returns (v: U16)
    ensures v == Checksum32(initial, front + back)
    ensures Fits(initial, |front| + |back|) ==> v == Checksum(initial, front + back)
  {
    hide Weigh, Folded;
    WeighConcat(front, back, false);
    if Fits(initial, |front| + |back|) { NoOverflow(initial, front + back); }
    WrapAdd(initial + Weigh(front, false), Weigh(back, Flip(false, |front|)));
    var check := new InternetChecksum(initial);
    check.Add(front);
    check.Add(back);
    v := check.Value();
  }

  lemma WrapAdd(a: nat, b: nat)
    ensures (a % TWO32 + b) % TWO32 == (a + b) % TWO32
  {
  }
}
