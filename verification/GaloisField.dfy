/**
 Arithmetic in the field GF(2^8/0x11D) as the QR encoder does it: addition is XOR and
 multiplication is the Russian-peasant loop of reedSolomonMultiply.
 */
module GaloisField {

  /** An unsigned 8-bit value as its bits, most significant first. */
  type Byte = bits: seq<bool> | |bits| == 8 witness [false, false, false, false, false, false, false, false]

  const ZERO: Byte := [false, false, false, false, false, false, false, false]
  const ONE: Byte := [false, false, false, false, false, false, false, true]
  const TWO: Byte := [false, false, false, false, false, false, true, false]

  function Add(x: Byte, y: Byte): Byte {
    seq(8, i requires 0 <= i < 8 => x[i] != y[i])
  }

  /** Multiplication by x, reduced modulo x^8 + x^4 + x^3 + x^2 + 1. */
  function TimesX(v: Byte): Byte {
    if v[0] then Add(Shift(v), REDUCTION) else Shift(v)
  }

  const REDUCTION: Byte := [false, false, false, true, true, true, false, true]  // 0x11D without its top bit

  function Shift(v: Byte): Byte {
    v[1..] + [false]
  }

  /** The accumulator of the peasant loop once the given leading bits of y are consumed. */
  function Peasant(x: Byte, bits: seq<bool>): Byte {
    if bits == [] then ZERO
    else
      var h := TimesX(Peasant(x, bits[..|bits| - 1]));
      if bits[|bits| - 1] then Add(h, x) else h
  }

  function Mul(x: Byte, y: Byte): Byte {
    Peasant(x, y)
  }

  function Pow(x: Byte, n: nat): Byte {
    if n == 0 then ONE else Mul(x, Pow(x, n - 1))
  }

  // ---- Ring laws -------------------------------------------------------------

  lemma AddLaws(a: Byte, b: Byte)
    ensures Add(a, b) == Add(b, a)
    ensures Add(a, a) == ZERO
    ensures Add(a, ZERO) == Add(ZERO, a) == a
  {
  }

  lemma AddAssociative(a: Byte, b: Byte, c: Byte)
    ensures Add(Add(a, b), c) == Add(a, Add(b, c))
  {
  }

  lemma ShiftAdditive(a: Byte, b: Byte)
    ensures Shift(Add(a, b)) == Add(Shift(a), Shift(b))
  {
  }

  lemma TimesXAdditive(a: Byte, b: Byte)
    ensures TimesX(Add(a, b)) == Add(TimesX(a), TimesX(b))
  {
    var r := REDUCTION;
    ShiftAdditive(a, b);
    if a[0] && b[0] {
      AddShuffle(Shift(a), r, Shift(b), r);
      AddLaws(r, r);
      AddLaws(Add(Shift(a), Shift(b)), r);
    } else if a[0] {
      AddAssociative(Shift(a), r, Shift(b));
      AddLaws(r, Shift(b));
      AddAssociative(Shift(a), Shift(b), r);
    } else if b[0] {
      AddAssociative(Shift(a), Shift(b), r);
    }
  }

  lemma AddShuffle(a: Byte, b: Byte, c: Byte, d: Byte)
    ensures Add(Add(a, b), Add(c, d)) == Add(Add(a, c), Add(b, d))
  {
  }

  lemma {:induction false} PeasantAdditive(v: Byte, w: Byte, bits: seq<bool>)
    ensures Peasant(Add(v, w), bits) == Add(Peasant(v, bits), Peasant(w, bits))
  {
    if bits == [] {
      assert Add(ZERO, ZERO) == ZERO;
    } else {
      var init := bits[..|bits| - 1];
      PeasantAdditive(v, w, init);
      var a, b := Peasant(v, init), Peasant(w, init);
      TimesXAdditive(a, b);
      AddShuffle(TimesX(a), TimesX(b), v, w);
    }
  }

  lemma {:induction false} PeasantTimesX(v: Byte, bits: seq<bool>)
    ensures Peasant(TimesX(v), bits) == TimesX(Peasant(v, bits))
  {
    if bits == [] {
      assert TimesX(ZERO) == ZERO;
    } else {
      var init := bits[..|bits| - 1];
      PeasantTimesX(v, init);
      TimesXAdditive(TimesX(Peasant(v, init)), v);
    }
  }

  lemma {:induction false} PeasantZero(bits: seq<bool>)
    ensures Peasant(ZERO, bits) == ZERO
  {
    if bits != [] {
      PeasantZero(bits[..|bits| - 1]);
      assert TimesX(ZERO) == ZERO;
      assert Add(ZERO, ZERO) == ZERO;
    }
  }

  /** Partial products on the right commute with each other. */
  lemma {:induction false} PeasantCommutes(v: Byte, ys: seq<bool>, xs: seq<bool>)
    ensures Peasant(Peasant(v, ys), xs) == Peasant(Peasant(v, xs), ys)
  {
    if ys == [] {
      PeasantZero(xs);
    } else {
      var init := ys[..|ys| - 1];
      var h := Peasant(v, init);
      PeasantCommutes(v, init, xs);
      PeasantAdditive(TimesX(h), v, xs);
      PeasantTimesX(h, xs);
    }
  }

  function Zeros(n: nat): (s: seq<bool>)
    ensures |s| == n
  {
    seq(n, _ => false)
  }

  lemma AppendBit(h: Byte)
    requires !h[0]
    ensures TimesX(h) == h[1..] + [false]
    ensures Add(TimesX(h), ONE) == h[1..] + [true]
  {
  }

  /** Multiplying one by the leading bits of y rebuilds those bits. */
  lemma {:induction false} OneTimesPrefix(y: Byte, n: nat)
    requires n <= 8
    ensures Peasant(ONE, y[..n]) == Zeros(8 - n) + y[..n]
  {
    if n > 0 {
      OneTimesPrefix(y, n - 1);
      assert y[..n][..n - 1] == y[..n - 1];
      var h: Byte := Zeros(9 - n) + y[..n - 1];
      AppendBit(h);
    }
  }

  lemma OneTimes(y: Byte)
    ensures Mul(ONE, y) == y
  {
    OneTimesPrefix(y, 8);
    assert y[..8] == y;
  }

  lemma MulCommutative(x: Byte, y: Byte)
    ensures Mul(x, y) == Mul(y, x)
  {
    OneTimes(x);
    OneTimes(y);
    PeasantCommutes(ONE, x, y);
  }

  lemma MulAssociative(x: Byte, y: Byte, z: Byte)
    ensures Mul(Mul(x, y), z) == Mul(x, Mul(y, z))
  {
    MulCommutative(x, y);
    PeasantCommutes(y, x, z);
    MulCommutative(Mul(y, z), x);
  }

  lemma MulDistributive(x: Byte, y: Byte, z: Byte)
    ensures Mul(Add(x, y), z) == Add(Mul(x, z), Mul(y, z))
    ensures Mul(z, Add(x, y)) == Add(Mul(z, x), Mul(z, y))
  {
    PeasantAdditive(x, y, z);
    MulCommutative(z, Add(x, y));
    MulCommutative(z, x);
    MulCommutative(z, y);
  }

  lemma MulZero(z: Byte)
    ensures Mul(ZERO, z) == Mul(z, ZERO) == ZERO
  {
    PeasantZero(z);
    MulCommutative(z, ZERO);
  }

  // ---- The loop as written ------------------------------------------------------

  /** The int accumulator of the loop: nine bits are all it ever needs. */
  type Accumulator = bits: seq<bool> | |bits| == 9 witness [false] + ZERO

  function Xor(z: Accumulator, w: Accumulator): Accumulator {
    [z[0] != w[0]] + Add(z[1..], w[1..])
  }

  /** reedSolomonMultiply; the range assertion that closes it never fires. */
  method Multiply(x: Byte, y: Byte) returns (r: Byte)
    ensures r == Mul(x, y)
  {
    var z: Accumulator := [false] + ZERO;
    for i := 0 to 8
      invariant z == [false] + Peasant(x, y[..i])
    {
      assert y[..i + 1][..i] == y[..i];
      var carry := z[1];
      z := z[1..] + [false];
      if carry {
        z := Xor(z, [true] + REDUCTION);
      }
      assert z == [false] + TimesX(Peasant(x, y[..i]));
      if y[i] {
        z := Xor(z, [false] + x);
      }
    }
    assert y[..8] == y;
    assert !z[0];
    r := z[1..];
  }
}
