/** 32-bit sequence numbers: `wrap`, `unwrap` and the operators they rest on. */
module WrappingIntegers {
  import opened Basics

  /** `WrappingInt32 + uint32_t`, the second operand truncated to 32 bits. */
  function Plus(a: U32, b: nat): U32 {
    (a + b % TWO32) % TWO32
  }

  /** `WrappingInt32 - WrappingInt32`: the offset as a signed 32-bit number. */
  function Minus(a: U32, b: U32): (d: int)
    ensures -TWO31 <= d < TWO31
    ensures Plus(b, d % TWO32) == a
  {
    var raw := (a - b) % TWO32;
    if raw < TWO31 then raw else raw - TWO32
  }

  /** The 32-bit number that stands for the absolute number `n`. */
  function Wrap(n: nat, isn: U32): U32 {
    Plus(isn, n)
  }

  /** `unwrap`, with its 64-bit additions written out modulo 2^64. */
  function Unwrap(n: U32, isn: U32, checkpoint: nat): nat {
    var diff := Minus(n, Wrap(checkpoint, isn)) % TWO32;
    if diff >= TWO31 && (diff + checkpoint) % TWO64 < TWO32 then
      (checkpoint + diff) % TWO64
    else
      (checkpoint + (if diff < TWO31 then diff else diff - TWO32)) % TWO64
  }

  function Distance(a: int, b: int): nat {
    if a <= b then b - a else a - b
  }

  /** The checkpoint leaves room for a full turn below 2^64. */
  predicate Checkpoint(c: nat) {
    c + TWO32 <= TWO64
  }

  /** The absolute numbers a checkpoint resolves correctly. */
  predicate InRange(v: nat, checkpoint: nat) {
    || checkpoint - TWO31 <= v < checkpoint + TWO31
    || (checkpoint + TWO31 <= v < TWO32)
  }

  /** The offset from `w` to `n` around the circle of 2^32 numbers, going up. */
  function Ahead(n: U32, w: U32): U32 {
    if n >= w then n - w else n - w + TWO32
  }

  lemma Remainder(x: nat, turns: nat, r: U32)
    requires x == TWO32 * turns + r
    ensures x % TWO32 == r
  {
  }

  lemma WrapIsMod(v: nat, isn: U32)
    ensures Wrap(v, isn) == (isn + v) % TWO32
  {
  }

  /** Two numbers wrap to the same 32 bits exactly when they are a whole number of turns apart. */
  lemma WrapAgrees(v: nat, w: nat, isn: U32)
    ensures Wrap(v, isn) == Wrap(w, isn) <==> exists turns: int :: v == w + TWO32 * turns
  {
    hide Wrap;
    WrapIsMod(v, isn);
    WrapIsMod(w, isn);
    if Wrap(v, isn) == Wrap(w, isn) {
      assert v == w + TWO32 * ((isn + v) / TWO32 - (isn + w) / TWO32);
    }
  }

  /** `unwrap` is the checkpoint plus an offset chosen between two turns, except that the sum may overflow 64 bits. */
  lemma UnwrapShape(n: U32, isn: U32, checkpoint: nat)
    requires checkpoint < TWO64
    ensures var up := Ahead(n, Wrap(checkpoint, isn));
            Unwrap(n, isn, checkpoint)
            == checkpoint + up
               - (if checkpoint + up >= TWO64 then TWO64
                  else if up >= TWO31 && checkpoint + up >= TWO32 then TWO32 else 0)
  {
    hide Wrap, Minus;
    MinusIsAhead(n, Wrap(checkpoint, isn));
  }

  lemma UnwrapBound(n: U32, isn: U32, checkpoint: nat)
    requires Checkpoint(checkpoint)
    ensures Unwrap(n, isn, checkpoint) <= checkpoint + TWO32
  {
    hide Wrap, Ahead, Unwrap;
    UnwrapShape(n, isn, checkpoint);
  }

  lemma MinusIsAhead(n: U32, w: U32)
    ensures Minus(n, w) % TWO32 == Ahead(n, w)
  {
    assert (n - w) % TWO32 == Ahead(n, w);
  }

  lemma WrapAhead(n: U32, isn: U32, checkpoint: nat)
    ensures Wrap(checkpoint + Ahead(n, Wrap(checkpoint, isn)), isn) == n
  {
    hide Wrap;
    var up := Ahead(n, Wrap(checkpoint, isn));
    WrapIsMod(checkpoint, isn);
    WrapIsMod(checkpoint + up, isn);
    var turns := (isn + checkpoint) / TWO32;
    Remainder(isn + checkpoint + up, if n >= Wrap(checkpoint, isn) then turns else turns + 1, n);
  }

  /** The numbers that wrap to `n` are those a whole number of turns from `checkpoint + Ahead`. */
  lemma WrapsTo(v: nat, n: U32, isn: U32, checkpoint: nat)
    ensures Wrap(v, isn) == n
            <==> exists turns: int :: v == checkpoint + Ahead(n, Wrap(checkpoint, isn)) + TWO32 * turns
  {
    hide Wrap, Ahead;
    WrapAhead(n, isn, checkpoint);
    WrapAgrees(v, checkpoint + Ahead(n, Wrap(checkpoint, isn)), isn);
  }

  lemma NearestTurn(checkpoint: nat, up: U32, turns: int)
    requires checkpoint + up + TWO32 * turns >= 0
    ensures var r := checkpoint + up - (if up >= TWO31 && checkpoint + up >= TWO32 then TWO32 else 0);
            Distance(r, checkpoint) <= Distance(checkpoint + up + TWO32 * turns, checkpoint)
  {
  }

  /** The result wraps back to `n`, and no other number that does is closer to the checkpoint. */
  lemma UnwrapIsClosest(n: U32, isn: U32, checkpoint: nat, v: nat)
    requires checkpoint < TWO64 && checkpoint + Ahead(n, Wrap(checkpoint, isn)) < TWO64
    ensures var r := Unwrap(n, isn, checkpoint);
            && Wrap(r, isn) == n
            && (Wrap(v, isn) == n ==> Distance(r, checkpoint) <= Distance(v, checkpoint))
  {
    hide Wrap, Ahead, Unwrap;
    var r, up := Unwrap(n, isn, checkpoint), Ahead(n, Wrap(checkpoint, isn));
    UnwrapShape(n, isn, checkpoint);
    assert r == checkpoint + up + TWO32 * (if up >= TWO31 && checkpoint + up >= TWO32 then -1 else 0);
    WrapsTo(r, n, isn, checkpoint);
    if Wrap(v, isn) == n {
      WrapsTo(v, n, isn, checkpoint);
      var turns :| v == checkpoint + up + TWO32 * turns;
      NearestTurn(checkpoint, up, turns);
    }
  }

  /** No 64-bit number that wraps to `n` is closer to the checkpoint than `r`. */
  ghost predicate Closest(r: nat, n: U32, isn: U32, checkpoint: nat) {
    forall v: nat :: v < TWO64 && Wrap(v, isn) == n ==> Distance(r, checkpoint) <= Distance(v, checkpoint)
  }

  /** The result is closest for every 64-bit checkpoint exactly when the next number up that fits is below 2^64. */
  lemma ClosestExactly(n: U32, isn: U32, checkpoint: nat)
    requires checkpoint < TWO64
    ensures Closest(Unwrap(n, isn, checkpoint), n, isn, checkpoint)
            <==> checkpoint + Ahead(n, Wrap(checkpoint, isn)) < TWO64
  {
    hide Wrap, Ahead, Unwrap;
    var up := Ahead(n, Wrap(checkpoint, isn));
    if checkpoint + up < TWO64 {
      forall v: nat | v < TWO64 && Wrap(v, isn) == n
        ensures Distance(Unwrap(n, isn, checkpoint), checkpoint) <= Distance(v, checkpoint)
      {
        UnwrapIsClosest(n, isn, checkpoint, v);
      }
    } else {
      UnwrapShape(n, isn, checkpoint);
      var v := checkpoint + up - TWO32;
      assert v == checkpoint + up + TWO32 * -1;
      WrapsTo(v, n, isn, checkpoint);
      assert Distance(Unwrap(n, isn, checkpoint), checkpoint) > Distance(v, checkpoint);
    }
  }

  /** One that is not: the number just below the last 64-bit checkpoint is missed, whatever the initial number. */
  lemma OverflowMisses(isn: U32)
    ensures var c, v := TWO64 - 1, TWO64 - 2;
            && Unwrap(Wrap(v, isn), isn, c) != v
            && !Closest(Unwrap(Wrap(v, isn), isn, c), Wrap(v, isn), isn, c)
  {
    hide Wrap, Unwrap;
    var c, v := TWO64 - 1, TWO64 - 2;
    UnwrapWrapExactly(v, isn, c);
    WrapIsMod(v, isn);
    WrapIsMod(c, isn);
    assert Ahead(Wrap(v, isn), Wrap(c, isn)) == TWO32 - 1;
    ClosestExactly(Wrap(v, isn), isn, c);
  }

  /** The numbers any 64-bit checkpoint resolves: those in range short of 2^64, and those met by overflowing. */
  predicate Reach(v: nat, checkpoint: nat) {
    || (InRange(v, checkpoint) && (if checkpoint <= v then v < TWO64 else v + TWO32 < TWO64))
    || v + TWO64 < checkpoint + TWO32
  }

  /** `unwrap` undoes `wrap` for exactly the numbers within reach of the checkpoint. */
  lemma UnwrapWrapExactly(v: nat, isn: U32, checkpoint: nat)
    requires checkpoint < TWO64
    ensures Unwrap(Wrap(v, isn), isn, checkpoint) == v <==> Reach(v, checkpoint)
  {
    hide Wrap, Ahead, Unwrap;
    UnwrapShape(Wrap(v, isn), isn, checkpoint);
    WrapsTo(v, Wrap(v, isn), isn, checkpoint);
  }

  /** Away from 2^64, within reach is in range. */
  lemma UnwrapWrap(v: nat, isn: U32, checkpoint: nat)
    requires Checkpoint(checkpoint)
    ensures Unwrap(Wrap(v, isn), isn, checkpoint) == v <==> InRange(v, checkpoint)
  {
    hide Wrap, Unwrap;
    UnwrapWrapExactly(v, isn, checkpoint);
  }
}
