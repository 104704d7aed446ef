/**
 Powers of 0x02 in GF(2^8/0x11D).  The Reed-Solomon divisor relies on 0x02 generating the
 field: its first 255 powers are exactly the non-zero bytes, so products of non-zero bytes
 are non-zero and every non-zero byte can be divided by.
 */
module FieldOrder {
  import opened GaloisField

  lemma {:induction false} PowAdd(x: Byte, a: nat, b: nat)
    ensures Pow(x, a + b) == Mul(Pow(x, a), Pow(x, b))
  {
    hide Peasant;
    if a == 0 {
      OneTimes(Pow(x, b));
    } else {
      PowAdd(x, a - 1, b);
      MulAssociative(x, Pow(x, a - 1), Pow(x, b));
    }
  }

  lemma {:induction false} PowOfUnit(x: Byte, g: nat, k: nat)
    requires Pow(x, g) == ONE
    ensures Pow(x, g * k) == ONE
  {
    hide Peasant;
    if k > 0 {
      PowOfUnit(x, g, k - 1);
      PowAdd(x, g, g * (k - 1));
      OneTimes(ONE);
    }
  }

  // ---- Constants as uint8 values ----------------------------------------------------

  function Mask(i: nat): bv8
    requires i < 8
  {
    match i
    case 0 => 0x80 case 1 => 0x40 case 2 => 0x20 case 3 => 0x10
    case 4 => 0x08 case 5 => 0x04 case 6 => 0x02 case _ => 0x01
  }

  function On(v: bv8, mask: bv8): bool {
    v & mask != 0
  }

  function Of(v: bv8): Byte {
    seq(8, i requires 0 <= i < 8 => On(v, Mask(i)))
  }

  function Twice(v: bv8): bv8 {
    if v & 0x80 != 0 then (v << 1) ^ 0x1D else v << 1
  }

  lemma OnXor(v: bv8, w: bv8, mask: bv8)
    requires mask & (mask - 1) == 0
    ensures On(v ^ w, mask) == (On(v, mask) != On(w, mask))
  {
  }

  lemma OfXor(v: bv8, w: bv8)
    ensures Of(v ^ w) == Add(Of(v), Of(w))
  {
    var a, b, c := Of(v), Of(w), Of(v ^ w);
    forall i | 0 <= i < 8
      ensures c[i] == (a[i] != b[i])
    {
      hide On;
      OnXor(v, w, Mask(i));
    }
  }

  lemma OfShift(v: bv8)
    ensures Of(v << 1) == Shift(Of(v))
  {
  }

  lemma OfReduction()
    ensures Of(0x1D) == REDUCTION
  {
  }

  lemma OfTwice(v: bv8)
    ensures Of(Twice(v)) == TimesX(Of(v))
  {
    OfShift(v);
    OfReduction();
    assert Of(v)[0] == On(v, 0x80);
    OfXor(v << 1, 0x1D);
  }

  // ---- The order of 0x02 is 255 ---------------------------------------------------

  lemma TwoTimes(v: Byte)
    ensures Mul(TWO, v) == TimesX(v)
  {
    assert TimesX(ONE) == TWO;
    PeasantTimesX(ONE, v);
    OneTimes(v);
  }

  function Doubled(v: bv8, k: nat): bv8 {
    if k == 0 then v else Twice(Doubled(v, k - 1))
  }

  function Product(x: bv8, y: bv8, n: nat): bv8
    requires n <= 8
  {
    if n == 0 then 0
    else
      var h := Twice(Product(x, y, n - 1));
      if On(y, Mask(n - 1)) then h ^ x else h
  }

  lemma {:induction false} PowDoubled(n: nat, v: bv8, k: nat)
    requires Pow(TWO, n) == Of(v)
    ensures Pow(TWO, n + k) == Of(Doubled(v, k))
  {
    hide Peasant, TimesX, Of, Twice;
    if k > 0 {
      PowDoubled(n, v, k - 1);
      TwoTimes(Of(Doubled(v, k - 1)));
      OfTwice(Doubled(v, k - 1));
    }
  }

  lemma {:induction false} OfProduct(x: bv8, y: bv8, n: nat)
    requires n <= 8
    ensures Peasant(Of(x), Of(y)[..n]) == Of(Product(x, y, n))
  {
    hide *;
    if n == 0 {
      OfZero();
      NoneMultiplied(x, y, Of(y)[..0]);
    } else {
      OfProduct(x, y, n - 1);
      var bits, h := Of(y)[..n], Product(x, y, n - 1);
      assert bits[..n - 1] == Of(y)[..n - 1] && bits[n - 1] == Of(y)[n - 1];
      OfBit(y, n - 1);
      OfTwice(h);
      OfXor(Twice(h), x);
      PeasantStep(Of(x), bits);
      ProductStep(x, y, n);
    }
  }

  lemma PeasantStep(x: Byte, bits: seq<bool>)
    requires bits != []
    ensures var h := TimesX(Peasant(x, bits[..|bits| - 1]));
            Peasant(x, bits) == if bits[|bits| - 1] then Add(h, x) else h
  {
    hide TimesX, Add;
  }

  lemma ProductStep(x: bv8, y: bv8, n: nat)
    requires 0 < n <= 8
    ensures var h := Twice(Product(x, y, n - 1));
            Product(x, y, n) == if On(y, Mask(n - 1)) then h ^ x else h
  {
    hide Twice, On, Mask;
  }

  lemma NoneMultiplied(x: bv8, y: bv8, bits: seq<bool>)
    requires bits == []
    ensures Peasant(Of(x), bits) == ZERO && Product(x, y, 0) == 0
  {
  }

  lemma OfZero()
    ensures Of(0) == ZERO
  {
  }

  lemma OfBit(y: bv8, i: nat)
    requires i < 8
    ensures Of(y)[i] == On(y, Mask(i))
  {
    hide On, Mask;
  }

  lemma PowSquared(n: nat, x: bv8)
    requires Pow(TWO, n) == Of(x)
    ensures Pow(TWO, 2 * n) == Of(Product(x, x, 8))
  {
    hide Of, Twice, On, Mask, Peasant, Pow, Product;
    OfProduct(x, x, 8);
    assert Of(x)[..8] == Of(x);
    PowAdd(TWO, n, n);
  }

  lemma PowersTo16()
    ensures Pow(TWO, 13) == Of(135) && Pow(TWO, 16) == Of(76)
  {
    assert Of(1) == ONE;
    hide Of;
    PowDoubled(0, 1, 8);
    assert Doubled(1, 8) == 29;
    PowDoubled(8, 29, 5);
    assert Doubled(29, 5) == 135;
    PowSquared(8, 29);
    assert Product(29, 29, 8) == 76;
  }

  lemma PowersTo256()
    ensures Pow(TWO, 43) == Of(119)
    ensures Pow(TWO, 64) == Of(95) && Pow(TWO, 128) == Of(133) && Pow(TWO, 256) == Of(2)
  {
    PowersTo16();
    hide Of;
    PowSquared(16, 76);
    assert Product(76, 76, 8) == 157;
    PowDoubled(32, 157, 11);
    assert Doubled(157, 11) == 119;
    PowSquared(32, 157);
    assert Product(157, 157, 8) == 95;
    PowSquared(64, 95);
    assert Product(95, 95, 8) == 133;
    PowSquared(128, 133);
    assert Product(133, 133, 8) == 2;
  }

  lemma TimesXInjective(a: Byte, b: Byte)
    requires TimesX(a) == TimesX(b)
    ensures a == b
  {
    assert TimesX(a)[7] == a[0] && TimesX(b)[7] == b[0];
    if a[0] {
      AddAssociative(Shift(a), REDUCTION, REDUCTION);
      AddAssociative(Shift(b), REDUCTION, REDUCTION);
      AddLaws(REDUCTION, REDUCTION);
      AddLaws(Shift(a), ZERO);
      AddLaws(Shift(b), ZERO);
    }
    assert Shift(a) == Shift(b);
    assert a == [a[0]] + Shift(a)[..7] && b == [b[0]] + Shift(b)[..7];
  }

  lemma PowNext(n: nat)
    ensures Pow(TWO, n + 1) == TimesX(Pow(TWO, n))
  {
    hide Peasant, TimesX;
    TwoTimes(Pow(TWO, n));
  }

  lemma FullCycle()
    ensures Pow(TWO, 255) == ONE
  {
    hide Pow, Peasant;
    PowersTo256();
    assert Of(2) == TWO && TimesX(ONE) == TWO;
    hide *;
    PowNext(255);
    TimesXInjective(Pow(TWO, 255), ONE);
  }

  lemma ShortCycles()
    ensures Pow(TWO, 15) != ONE && Pow(TWO, 51) != ONE && Pow(TWO, 85) != ONE
  {
    hide Pow, Peasant;
    PowersTo16();
    PowersTo256();
    assert TimesX(ONE) == TWO;
    assert Of(76)[1] && !TWO[1];
    assert Of(135)[0] && !Of(95)[0];
    assert Of(133)[0] && !Of(119)[0];
    hide *;
    PowNext(15);
    PowAdd(TWO, 51, 13);
    OneTimes(Pow(TWO, 13));
    PowAdd(TWO, 85, 43);
    OneTimes(Pow(TWO, 43));
  }

  /** Euclid's algorithm on exponents: the units among the powers of x are the multiples of one. */
  lemma {:induction false} UnitGcd(x: Byte, a: nat, b: nat) returns (g: nat, k: nat, m: nat)
    requires Pow(x, a) == ONE && Pow(x, b) == ONE
    ensures Pow(x, g) == ONE && a == g * k && b == g * m
    decreases b
  {
    hide Peasant;
    if b == 0 {
      g, k, m := a, 1, 0;
    } else {
      var q, r := a / b, a % b;
      assert a == b * q + r;
      PowOfUnit(x, b, q);
      PowAdd(x, b * q, r);
      OneTimes(Pow(x, r));
      var l;
      g, m, l := UnitGcd(x, b, r);
      k := m * q + l;
      assert a == g * k by { assert g * m * q == g * (m * q); }
    }
  }

  lemma DivisorsOf255(g: nat, m: nat)
    requires g * m == 255 && m != 1
    ensures m % 3 == 0 || m % 5 == 0 || m % 17 == 0
  {
    assert m <= 15 || g <= 15;
    if m <= 15 {
      assert m == 0 || m == 2 || m == 3 || m == 4 || m == 5 || m == 6 || m == 7 || m == 8 ||
             m == 9 || m == 10 || m == 11 || m == 12 || m == 13 || m == 14 || m == 15;
    } else {
      assert g == 0 || g == 1 || g == 2 || g == 3 || g == 4 || g == 5 || g == 6 || g == 7 ||
             g == 8 || g == 9 || g == 10 || g == 11 || g == 12 || g == 13 || g == 14 || g == 15;
    }
  }

  lemma UnitSpreads(x: Byte, g: nat, k: nat)
    ensures Pow(x, g) == ONE ==> Pow(x, g * k) == ONE
  {
    hide Pow;
    if Pow(x, g) == ONE {
      PowOfUnit(x, g, k);
    }
  }

  /** 0x02 to a proper divisor of 255 is not one, or 0x02 to one of 85, 51 and 15 would be. */
  lemma ProperDivisor(g: nat, m: nat)
    requires g * m == 255 && m != 1
    ensures Pow(TWO, g) != ONE
  {
    hide Pow;
    ShortCycles();
    DivisorsOf255(g, m);
    if m % 3 == 0 {
      assert g * (m / 3) == 85;
      UnitSpreads(TWO, g, m / 3);
    } else if m % 5 == 0 {
      assert g * (m / 5) == 51;
      UnitSpreads(TWO, g, m / 5);
    } else {
      assert g * (m / 17) == 15;
      UnitSpreads(TWO, g, m / 17);
    }
  }

  /** No smaller positive power of 0x02 is one. */
  lemma OrderOfTwo(n: nat)
    requires 0 < n < 255
    ensures Pow(TWO, n) != ONE
  {
    hide Pow, Peasant;
    FullCycle();
    if Pow(TWO, n) == ONE {
      var g, m, k := UnitGcd(TWO, 255, n);
      assert m != 1 by {
        assert k != 0;
        assert g * k >= g;
      }
      ProperDivisor(g, m);
    }
  }

  /** The first 255 powers of 0x02 are distinct and non-zero. */
  lemma PowersDistinct(i: nat, j: nat)
    requires i < 255 && j < 255
    ensures Pow(TWO, i) != ZERO
    ensures Pow(TWO, i) == Pow(TWO, j) ==> i == j
  {
    hide Pow, Peasant;
    assert ONE[7] && !ZERO[7];
    FullCycle();
    PowAdd(TWO, i, 255 - i);
    MulZero(Pow(TWO, 255 - i));
    if i < j {
      PowAdd(TWO, j, 255 - i);
      PowAdd(TWO, j - i, 255);
      MulCommutative(Pow(TWO, j - i), ONE);
      OneTimes(Pow(TWO, j - i));
      OrderOfTwo(j - i);
    } else if j < i {
      PowersDistinct(j, i);
    }
  }

  function Value(b: seq<bool>): nat {
    if b == [] then 0 else 2 * Value(b[..|b| - 1]) + (if b[|b| - 1] then 1 else 0)
  }

  lemma {:induction false} ValueInjective(a: seq<bool>, b: seq<bool>)
    requires |a| == |b| && Value(a) == Value(b)
    ensures a == b
  {
    if a != [] {
      var n := |a| - 1;
      ValueInjective(a[..n], b[..n]);
      assert a == a[..n] + [a[n]] && b == b[..n] + [b[n]];
    }
  }

  lemma {:induction false} ValueBound(a: seq<bool>)
    ensures Value(a) < Exp2(|a|)
  {
    if a != [] {
      ValueBound(a[..|a| - 1]);
    }
  }

  function Exp2(n: nat): nat {
    if n == 0 then 1 else 2 * Exp2(n - 1)
  }

  /** A set of bytes is no larger than the range its values lie in. */
  lemma {:induction false} BoundedSet(s: set<Byte>, n: nat)
    requires forall b :: b in s ==> Value(b) < n
    ensures |s| <= n
  {
    if n == 0 {
      assert forall b :: b !in s;
      assert s == {};
    } else if b :| b in s && Value(b) == n - 1 {
      forall c | c in s - {b} ensures Value(c) < n - 1 {
        if Value(c) == n - 1 {
          ValueInjective(b, c);
        }
      }
      BoundedSet(s - {b}, n - 1);
    } else {
      BoundedSet(s, n - 1);
    }
  }

  ghost function PowersBelow(n: nat): set<Byte> {
    set i | 0 <= i < n :: Pow(TWO, i)
  }

  lemma {:induction false} PowersCount(n: nat)
    requires n <= 255
    ensures |PowersBelow(n)| == n
    ensures ZERO !in PowersBelow(n)
  {
    hide Pow;
    if n > 0 {
      PowersCount(n - 1);
      assert PowersBelow(n) == PowersBelow(n - 1) + {Pow(TWO, n - 1)};
      PowersDistinct(n - 1, 0);
      forall i | 0 <= i < n - 1 ensures Pow(TWO, i) != Pow(TWO, n - 1) {
        PowersDistinct(i, n - 1);
      }
    }
  }

  /** 0x02 generates the field: every non-zero byte is one of its powers. */
  lemma TwoGenerates(b: Byte) returns (i: nat)
    requires b != ZERO
    ensures i < 255 && Pow(TWO, i) == b
  {
    hide Pow;
    PowersCount(255);
    var all := PowersBelow(255) + {ZERO, b};
    if b !in PowersBelow(255) {
      assert |all| == 257;
      forall c: Byte | c in all ensures Value(c) < 256 {
        ValueBound(c);
      }
      BoundedSet(all, 256);
      assert false;
    }
    i :| 0 <= i < 255 && Pow(TWO, i) == b;
  }

  lemma {:induction false} PowNonZero(n: nat)
    ensures Pow(TWO, n) != ZERO
  {
    hide Pow, Peasant;
    if n < 255 {
      PowersDistinct(n, n);
    } else {
      FullCycle();
      PowAdd(TWO, 255, n - 255);
      OneTimes(Pow(TWO, n - 255));
      PowNonZero(n - 255);
    }
  }

  /** There are no zero divisors. */
  lemma MulNonZero(x: Byte, y: Byte)
    requires x != ZERO && y != ZERO
    ensures Mul(x, y) != ZERO
  {
    hide Peasant;
    var i := TwoGenerates(x);
    var j := TwoGenerates(y);
    PowAdd(TWO, i, j);
    PowNonZero(i + j);
  }
}
