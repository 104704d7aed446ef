/**
 What the parts of a symbol are, stated without the functions that the encoder and the reader share:
 the field product, the order of the codewords, the segment bits, the padding, the masks and the
 format words (ISO/IEC 18004:2015).
 */
module SymbolFacts {
  import Deinterleave
  import Encoder
  import opened FieldOrder
  import opened GaloisField
  import opened Interleave
  import Masking
  import Penalty
  import opened ReedSolomon
  import opened Segments
  import opened Zigzag

  // ---- The field (section 7.5.2) -------------------------------------------------------------------

  /**
   Twice a byte is the byte shifted, less 0x11D if a bit was shifted out.  With the field laws this
   fixes the product.
   */
  lemma TwoTimes(v: Byte)
    ensures Mul(v, TWO) == if v[0] then Add(v[1..] + [false], [false, false, false, true, true, true, false, true])
                           else v[1..] + [false]
    ensures Mul(v, ONE) == v
  {
    hide Peasant;
    MulCommutative(v, ONE);
    OneTimes(v);
    var six: seq<bool> := TWO[..6];
    NoBits(v, six);
    assert TWO[..7] == six + [true] && TWO == TWO[..7] + [false];
    PeasantBit(v, six, true);
    PeasantBit(v, TWO[..7], false);
    assert TimesX(ZERO) == ZERO && Add(ZERO, v) == v;
  }

  lemma PeasantBit(v: Byte, bits: seq<bool>, b: bool)
    ensures Peasant(v, bits + [b]) ==
            if b then Add(TimesX(Peasant(v, bits)), v) else TimesX(Peasant(v, bits))
  {
    hide TimesX, Add;
    assert (bits + [b])[..|bits|] == bits;
  }

  lemma {:induction false} NoBits(v: Byte, bits: seq<bool>)
    requires forall i :: 0 <= i < |bits| ==> !bits[i]
    ensures Peasant(v, bits) == ZERO
    decreases |bits|
  {
    if bits != [] {
      NoBits(v, bits[..|bits| - 1]);
      assert TimesX(ZERO) == ZERO;
    }
  }

  // ---- The order of the codewords (section 7.6) -----------------------------------------------------

  /** Where block b begins in the data: after that many whole blocks, the long ones last. */
  function FirstByte(l: Layout, b: nat): nat
    requires l.Valid()
  {
    b * l.PadColumn() + if b < l.numShortBlocks then 0 else b - l.numShortBlocks
  }

  lemma FirstBytes(l: Layout, data: seq<Byte>, b: nat)
    requires l.Valid() && |data| == l.NumDataCodewords() && b < l.numBlocks
    ensures FirstByte(l, b) == l.Start(b) <= FirstByte(l, b + 1) == l.Start(b + 1) <= |data|
  {
    hide Layout.NumDataCodewords, Layout.Start;
    BlockFits(l, data, b);
    StartFormula(l, b);
    StartFormula(l, b + 1);
  }

  /** Byte i of every block in turn comes first. */
  lemma FirstColumns(l: Layout, data: seq<Byte>, b: nat, i: nat, at: nat)
    requires l.Valid() && |data| == l.NumDataCodewords() && b < l.numBlocks
    requires i < l.PadColumn() && at == i * l.numBlocks + b
    ensures at < |Interleaved(l, data)| && FirstByte(l, b) + i < |data|
    ensures Interleaved(l, data)[at] == data[FirstByte(l, b) + i]
  {
    hide Remainder, DivisorAfter, Layout.NumDataCodewords, Columns, Layout.Offset, Layout.Start, FirstByte;
    FirstBytes(l, data, b);
    OffsetFormula(l, i);
    StoredAt(l, data, b, i);
    Deinterleave.ColumnsAt(l, AllStored(l, data), l.shortBlockLen + 1, b, i);
  }

  lemma StoredAt(l: Layout, data: seq<Byte>, b: nat, i: nat)
    requires l.Valid() && |data| == l.NumDataCodewords() && b < l.numBlocks && i <= l.shortBlockLen
    ensures l.Start(b) <= l.Start(b + 1) <= |data| && l.Start(b + 1) == l.Start(b) + l.DataLen(b)
    ensures i < l.DataLen(b) ==> AllStored(l, data)[b][i] == data[l.Start(b) + i]
    ensures i > l.PadColumn() ==>
              AllStored(l, data)[b][i] ==
              Remainder(data[l.Start(b)..l.Start(b + 1)], Divisor(l.blockEccLen))[i - l.PadColumn() - 1]
  {
    hide Remainder, DivisorAfter, Layout.NumDataCodewords;
    BlockFits(l, data, b);
    assert AllStored(l, data)[b] == Stored(l, data, b);
  }

  /** Then comes the last byte of the long blocks. */
  lemma LongColumn(l: Layout, data: seq<Byte>, b: nat, at: nat)
    requires l.Valid() && |data| == l.NumDataCodewords() && l.numShortBlocks <= b < l.numBlocks
    requires at == l.PadColumn() * l.numBlocks + (b - l.numShortBlocks)
    ensures at < |Interleaved(l, data)| && FirstByte(l, b) + l.PadColumn() < |data|
    ensures Interleaved(l, data)[at] == data[FirstByte(l, b) + l.PadColumn()]
  {
    hide Remainder, DivisorAfter, Layout.NumDataCodewords, Columns, Layout.Offset, Layout.Start, FirstByte;
    FirstBytes(l, data, b);
    OffsetFormula(l, l.PadColumn());
    StoredAt(l, data, b, l.PadColumn());
    Deinterleave.ColumnsAt(l, AllStored(l, data), l.shortBlockLen + 1, b, l.PadColumn());
  }

  /** Then comes check byte i of every block in turn: the remainder of the block's own data. */
  lemma CheckColumns(l: Layout, data: seq<Byte>, b: nat, i: nat, at: nat)
    requires l.Valid() && |data| == l.NumDataCodewords() && b < l.numBlocks && i < l.blockEccLen
    requires at == (l.PadColumn() + 1 + i) * l.numBlocks - l.numShortBlocks + b
    ensures at < |Interleaved(l, data)| && FirstByte(l, b) <= FirstByte(l, b + 1) <= |data|
    ensures Interleaved(l, data)[at] ==
            Remainder(data[FirstByte(l, b)..FirstByte(l, b + 1)], Divisor(l.blockEccLen))[i]
  {
    hide Remainder, DivisorAfter, Layout.NumDataCodewords, Columns, Layout.Offset, Layout.Start, FirstByte;
    var column := l.PadColumn() + 1 + i;
    FirstBytes(l, data, b);
    OffsetFormula(l, column);
    StoredAt(l, data, b, column);
    Deinterleave.ColumnsAt(l, AllStored(l, data), l.shortBlockLen + 1, b, column);
  }

  // ---- Segments (section 7.4) ------------------------------------------------------------------------

  /** Bit i of a field is the bit of its value with weight 2^(len - 1 - i). */
  lemma {:induction false} FieldBit(val: nat, len: nat, i: nat)
    requires i < len
    ensures Exp2(len - 1 - i) > 0 && Field(val, len)[i] == (val / Exp2(len - 1 - i) % 2 == 1)
    decreases len
  {
    Exp2Positive(len - 1 - i);
    if i < len - 1 {
      FieldBit(val / 2, len - 1, i);
      var e := Exp2(len - 2 - i);
      assert Exp2(len - 1 - i) == 2 * e;
      DivideTwice(val, e);
    }
  }

  lemma {:induction false} Exp2Positive(n: nat)
    ensures Exp2(n) > 0
  {
    if n > 0 {
      Exp2Positive(n - 1);
    }
  }

  lemma DivideTwice(v: nat, e: nat)
    requires e > 0
    ensures v / 2 / e == v / (2 * e)
  {
    var q, r := v / (2 * e), v % (2 * e);
    assert v == 2 * e * q + r;
    assert v / 2 == e * q + r / 2;
    assert (v / 2) / e == q by {
      assert v / 2 == q * e + r / 2 && r / 2 < e;
      Quotient(v / 2, q, e, r / 2);
    }
  }

  lemma Quotient(x: nat, q: nat, e: nat, r: nat)
    requires x == q * e + r && r < e
    ensures x / e == q
  {
    var p := x / e;
    assert x == p * e + x % e;
    ProductGrows(p + 1, q, e);
    ProductGrows(q + 1, p, e);
    assert (p + 1) * e == p * e + e && (q + 1) * e == q * e + e;
  }

  lemma ProductGrows(x: nat, y: nat, t: nat)
    ensures x <= y ==> x * t <= y * t
  {
    if x <= y {
      assert (y - x) * t >= 0;
      assert (y - x) * t == y * t - x * t;
    }
  }

  /** The widths of mode indicators and character counts, table 3 of the standard. */
  lemma CountWidths(ver: nat)
    requires 1 <= ver <= 40
    ensures ModeBits(NUMERIC) == 1 && ModeBits(ALPHANUMERIC) == 2 && ModeBits(BYTE) == 4
    ensures ver <= 9 ==>
              CharCountBits(NUMERIC, ver) == 10 && CharCountBits(ALPHANUMERIC, ver) == 9 &&
              CharCountBits(BYTE, ver) == 8
    ensures 10 <= ver <= 26 ==>
              CharCountBits(NUMERIC, ver) == 12 && CharCountBits(ALPHANUMERIC, ver) == 11 &&
              CharCountBits(BYTE, ver) == 16
    ensures 27 <= ver ==>
              CharCountBits(NUMERIC, ver) == 14 && CharCountBits(ALPHANUMERIC, ver) == 13 &&
              CharCountBits(BYTE, ver) == 16
  {
  }

  lemma NumericFirst(s: string)
    requires IsNumeric(s) && |s| >= 3
    ensures IsNumeric(s[..3]) && IsNumeric(s[3..])
    ensures NumericBits(s) == Field(Decimal(s[..3]), 10) + NumericBits(s[3..])
  {
    hide Field, Decimal;
  }

  lemma NumericShort(s: string)
    requires |s| < 3
    ensures |NumericBits(s)| == if |s| == 0 then 0 else if |s| == 1 then 4 else 7
  {
  }

  /** Three digits at a time in ten bits, as a number; the rest in four or seven. */
  lemma {:induction false} NumericGroups(s: string, g: nat)
    requires IsNumeric(s)
    ensures |NumericBits(s)| == |s| / 3 * 10 + (if |s| % 3 == 0 then 0 else if |s| % 3 == 1 then 4 else 7)
    ensures 3 * g + 3 <= |s| ==>
              10 * g + 10 <= |NumericBits(s)| &&
              Value(NumericBits(s)[10 * g..10 * g + 10]) == ThreeDigitValue(s[3 * g..3 * g + 3])
    decreases |s|
  {
    hide *;
    if |s| < 3 {
      NumericShort(s);
    } else {
      NumericFirst(s);
      NumericGroups(s[3..], if g > 0 then g - 1 else 0);
      if g == 0 {
        assert NumericBits(s)[0..10] == Field(Decimal(s[..3]), 10) && s[0..3] == s[..3];
        ThreeDigits(s[..3]);
      } else if 3 * g + 3 <= |s| {
        assert NumericBits(s)[10 * g..10 * g + 10] == NumericBits(s[3..])[10 * (g - 1)..10 * (g - 1) + 10];
        assert s[3..][3 * (g - 1)..3 * (g - 1) + 3] == s[3 * g..3 * g + 3];
      }
    }
  }

  /** The number three digits write. */
  function ThreeDigitValue(s: string): nat
    requires |s| == 3
  {
    DigitValue(s[0]) * 100 + DigitValue(s[1]) * 10 + DigitValue(s[2])
  }

  lemma ThreeDigits(s: string)
    requires IsNumeric(s) && |s| == 3
    ensures Value(Field(Decimal(s), 10)) == ThreeDigitValue(s)
  {
    hide Field, Value, Exp2, DigitValue;
    Widths();
    DecimalBounds(s);
    FieldValue(Decimal(s), 10);
    assert s[..2][..1] == s[..1] && s[..1][..0] == [];
    assert Decimal(s[..1]) == DigitValue(s[0]);
    assert Decimal(s[..2]) == Decimal(s[..1]) * 10 + DigitValue(s[1]);
  }

  lemma AlphanumericFirst(s: string)
    requires IsAlphanumeric(s) && |s| >= 2
    ensures CharIndex(s[0]) < 45 && CharIndex(s[1]) < 45 && IsAlphanumeric(s[2..])
    ensures AlphanumericBits(s) == Field(CharIndex(s[0]) * 45 + CharIndex(s[1]), 11) + AlphanumericBits(s[2..])
  {
    hide Field, CharIndex;
  }

  lemma AlphanumericShort(s: string)
    requires |s| < 2
    ensures |AlphanumericBits(s)| == if |s| == 0 then 0 else 6
  {
  }

  /** Two characters at a time in eleven bits, as places of the character set; the last one in six. */
  lemma {:induction false} AlphanumericGroups(s: string, g: nat)
    requires IsAlphanumeric(s)
    ensures |AlphanumericBits(s)| == |s| / 2 * 11 + (if |s| % 2 == 0 then 0 else 6)
    ensures 2 * g + 2 <= |s| ==>
              11 * g + 11 <= |AlphanumericBits(s)| &&
              Value(AlphanumericBits(s)[11 * g..11 * g + 11]) == CharIndex(s[2 * g]) * 45 + CharIndex(s[2 * g + 1])
    decreases |s|
  {
    hide *;
    if |s| < 2 {
      AlphanumericShort(s);
    } else {
      AlphanumericFirst(s);
      AlphanumericGroups(s[2..], if g > 0 then g - 1 else 0);
      var v := CharIndex(s[0]) * 45 + CharIndex(s[1]);
      if g == 0 {
        assert AlphanumericBits(s)[0..11] == Field(v, 11);
        Widths();
        FieldValue(v, 11);
      } else if 2 * g + 2 <= |s| {
        assert AlphanumericBits(s)[11 * g..11 * g + 11] ==
               AlphanumericBits(s[2..])[11 * (g - 1)..11 * (g - 1) + 11];
      }
    }
  }

  // ---- Padding (section 7.4.10) ----------------------------------------------------------------------

  lemma {:induction false} PadByteAt(n: nat, j: nat)
    requires j < n
    ensures Encoder.PadBytes(n)[8 * j..8 * j + 8] ==
            if j % 2 == 0 then [true, true, true, false, true, true, false, false]
            else [false, false, false, true, false, false, false, true]
    decreases n
  {
    if j < n - 1 {
      PadByteAt(n - 1, j);
      assert Encoder.PadBytes(n)[8 * j..8 * j + 8] == Encoder.PadBytes(n - 1)[8 * j..8 * j + 8];
    }
  }

  lemma {:induction false} ZerosJoin(a: nat, b: nat)
    ensures GaloisField.Zeros(a) + GaloisField.Zeros(b) == GaloisField.Zeros(a + b)
    decreases b
  {
    if b > 0 {
      ZerosJoin(a, b - 1);
    }
  }

  lemma NextBoundary(length: nat)
    ensures length + 4 + (8 - (length + 4) % 8) % 8 == (length + 11) / 8 * 8
  {
  }

  /** Four zeros and more up to the next codeword, then pad bytes; zeros alone if there is no room for four. */
  lemma PaddingIs(length: nat, n: nat)
    requires length <= 8 * n
    ensures length + 4 <= 8 * n ==>
              (length + 11) / 8 <= n &&
              Encoder.Padding(length, 8 * n) ==
              GaloisField.Zeros((length + 11) / 8 * 8 - length) + Encoder.PadBytes(n - (length + 11) / 8)
    ensures length + 4 > 8 * n ==> Encoder.Padding(length, 8 * n) == GaloisField.Zeros(8 * n - length)
  {
    hide Encoder.PadBytes, GaloisField.Zeros;
    NextBoundary(length);
    if length + 4 <= 8 * n {
      ZerosJoin(4, (8 - (length + 4) % 8) % 8);
    } else {
      ZerosJoin(8 * n - length, 0);
      NoPadBytes();
    }
  }

  lemma NoPadBytes()
    ensures Encoder.PadBytes(0) == []
  {
  }

  // ---- Masks (section 7.8.2) -------------------------------------------------------------------------

  /** A checkerboard, and stripes of rows. */
  lemma MasksByTwo(x: nat, y: nat)
    ensures Masking.Inverts(0, 0, 0) && Masking.Inverts(0, x + 1, y) != Masking.Inverts(0, x, y)
    ensures Masking.Inverts(0, x, y + 1) != Masking.Inverts(0, x, y)
    ensures Masking.Inverts(1, 0, 0) && Masking.Inverts(1, x + 1, y) == Masking.Inverts(1, x, y)
    ensures Masking.Inverts(1, x, y + 1) != Masking.Inverts(1, x, y)
  {
  }

  /** Every third column, and every third diagonal. */
  lemma MasksByThree(x: nat, y: nat)
    ensures Masking.Inverts(2, 0, 0) && !Masking.Inverts(2, 1, 0) && !Masking.Inverts(2, 2, 0)
    ensures Masking.Inverts(2, x + 3, y) == Masking.Inverts(2, x, y) == Masking.Inverts(2, x, y + 1)
    ensures Masking.Inverts(3, x, 0) == Masking.Inverts(2, x, 0)
    ensures Masking.Inverts(3, x, y + 1) == Masking.Inverts(3, x + 1, y)
  {
  }

  /** A checkerboard of fields three modules wide and two high. */
  lemma MaskOfFields(x: nat, y: nat)
    ensures x < 3 && y < 2 ==> Masking.Inverts(4, x, y)
    ensures Masking.Inverts(4, x + 3, y) != Masking.Inverts(4, x, y)
    ensures Masking.Inverts(4, x, y + 2) != Masking.Inverts(4, x, y)
  {
    assert (x + 3) / 3 == x / 3 + 1 && (y + 2) / 2 == y / 2 + 1;
  }

  lemma Distributes(m: nat, a: nat, r: nat, y: nat)
    ensures (m * a + r) * y == m * (a * y) + r * y
  {
  }

  lemma ProductBy3(x: nat, y: nat)
    ensures x * y % 3 == 0 <==> x % 3 == 0 || y % 3 == 0
    ensures x * y % 3 == 1 <==> x % 3 == y % 3 && x % 3 != 0
  {
    Distributes(3, x / 3, x % 3, y);
    assert x == 3 * (x / 3) + x % 3;
    ThreeTimes(x / 3 * y, x % 3, y, x % 3 * y);
  }

  lemma ThreeTimes(p: nat, r: nat, y: nat, ry: nat)
    requires r < 3 && ry == if r == 0 then 0 else if r == 1 then y else y + y
    ensures (3 * p + ry) % 3 == 0 <==> r == 0 || y % 3 == 0
    ensures (3 * p + ry) % 3 == 1 <==> r == y % 3 && r != 0
  {
  }

  lemma ProductBy2(x: nat, y: nat)
    ensures x * y % 2 == 1 <==> x % 2 == 1 && y % 2 == 1
  {
    Distributes(2, x / 2, x % 2, y);
    assert x == 2 * (x / 2) + x % 2;
    TwoTimesMore(x / 2 * y, x % 2, y, x % 2 * y);
  }

  lemma TwoTimesMore(p: nat, r: nat, y: nat, ry: nat)
    requires r < 2 && ry == if r == 0 then 0 else y
    ensures (2 * p + ry) % 2 == 1 <==> r == 1 && y % 2 == 1
  {
  }

  /** The masks over products, by the remainders of column and row. */
  lemma ProductMasks(x: nat, y: nat)
    ensures Masking.Inverts(5, x, y) <==> (x % 2 == 0 || y % 2 == 0) && (x % 3 == 0 || y % 3 == 0)
    ensures Masking.Inverts(6, x, y) <==> ((x % 2 == 1 && y % 2 == 1) <==> (x % 3 == y % 3 && x % 3 != 0))
    ensures Masking.Inverts(7, x, y) <==> (x % 2 != y % 2 <==> (x % 3 == y % 3 && x % 3 != 0))
  {
    hide Masking.Inverts;
    ProductBy2(x, y);
    ProductBy3(x, y);
    MasksOf(x, y, x * y);
  }

  /** What the masks come to for a product p. */
  lemma MasksOf(x: nat, y: nat, p: nat)
    requires p == x * y
    ensures Masking.Inverts(5, x, y) <==> p % 2 == 0 && p % 3 == 0
    ensures Masking.Inverts(6, x, y) <==> (p % 2 == 1 <==> p % 3 == 1)
    ensures Masking.Inverts(7, x, y) <==> (x % 2 != y % 2 <==> p % 3 == 1)
  {
    hide Masking.Inverts;
    MaskSums(x, y);
    ParitySum(p % 2, p % 3);
    ParitySum((x + y) % 2, p % 3);
    SumParity(x, y);
  }

  lemma SumParity(x: nat, y: nat)
    ensures (x + y) % 2 == 1 <==> x % 2 != y % 2
  {
  }

  lemma MaskSums(x: nat, y: nat)
    ensures Masking.Inverts(5, x, y) == (x * y % 2 + x * y % 3 == 0)
    ensures Masking.Inverts(6, x, y) == ((x * y % 2 + x * y % 3) % 2 == 0)
    ensures Masking.Inverts(7, x, y) == (((x + y) % 2 + x * y % 3) % 2 == 0)
  {
  }

  lemma ParitySum(a: nat, b: nat)
    requires a < 2 && b < 3
    ensures (a + b) % 2 == 0 <==> (a == 1 <==> b == 1)
  {
  }

  // ---- Format words (annex C) ---------------------------------------------------------------------------

  /** One shift of the remainder register, bit by bit: the generator is 10100110111 in binary. */
  lemma FormatStep(d: seq<bool>, n: nat)
    requires |d| == 5
    ensures var r, s := Masking.FormatRemainder(d, n), Masking.FormatRemainder(d, n + 1);
            && s[0] == r[1] && s[1] == (r[2] != r[0]) && s[2] == r[3] && s[3] == r[4] && s[4] == (r[5] != r[0])
            && s[5] == (r[6] != r[0]) && s[6] == r[7] && s[7] == (r[8] != r[0]) && s[8] == (r[9] != r[0])
            && s[9] == r[0]
  {
    var r := Masking.FormatRemainder(d, n);
    assert Masking.FormatRemainder(d, n + 1) ==
           if r[0] then Masking.XorBits(r[1..] + [false], Masking.FORMAT_GENERATOR) else r[1..] + [false];
  }

  lemma FormatStart(d: seq<bool>)
    requires |d| == 5
    ensures var r := Masking.FormatRemainder(d, 5);
            && r[0] == d[0] && r[1] == d[1] && r[2] == d[2] && r[3] == d[3] && r[4] == d[4]
            && !r[5] && !r[6] && !r[7] && !r[8] && !r[9]
  {
    assert Masking.FormatRemainder(d, 0) == [false, false, false, false, false] + d;
    hide Masking.FormatRemainder;
    FormatStep(d, 0);
    FormatStep(d, 1);
    FormatStep(d, 2);
    FormatStep(d, 3);
    FormatStep(d, 4);
  }

  predicate Sum3(a: bool, b: bool, c: bool) {
    (a != b) != c
  }

  /** The ten check bits as sums of data bits. */
  lemma FormatChecks(d: seq<bool>)
    requires |d| == 5
    ensures var r := Masking.FormatRemainder(d, 10);
            && r[0] == Sum3(d[0], d[1], d[3]) && r[1] == Sum3(d[1], d[2], d[4]) && r[2] == Sum3(d[0], d[1], d[2])
            && r[3] == Sum3(d[1], d[2], d[3]) && r[4] == Sum3(d[2], d[3], d[4]) && r[5] == Sum3(d[0], d[1], d[4])
            && r[6] == Sum3(d[0], d[2], d[3]) && r[7] == Sum3(d[1], d[3], d[4])
            && r[8] == Sum3(Sum3(d[0], d[1], d[2]), d[3], d[4]) && r[9] == Sum3(d[0], d[2], d[4])
  {
    hide Masking.FormatRemainder;
    FormatStart(d);
    FormatStep(d, 5);
    FormatStep(d, 6);
    FormatStep(d, 7);
    FormatStep(d, 8);
    FormatStep(d, 9);
  }

  /** The two bits of a level, and the three of a mask. */
  predicate IsFormatData(ecl: Masking.Ecc, mask: nat, d: seq<bool>) {
    && |d| == 5 && d[0] == (ecl.QUARTILE? || ecl.HIGH?) && d[1] == (ecl.LOW? || ecl.QUARTILE?)
    && d[2] == (mask >= 4) && d[3] == (mask % 4 >= 2) && d[4] == (mask % 2 == 1)
  }

  /** The format word of every level and mask, with 101010000010010 added. */
  lemma FormatWordIs(ecl: Masking.Ecc, mask: nat, d: seq<bool>)
    requires mask < 8 && |d| == 5 && IsFormatData(ecl, mask, d)
    ensures var w := Masking.FormatWord(ecl, mask);
            && w[0] == !d[0] && w[1] == d[1] && w[2] == !d[2] && w[3] == d[3] && w[4] == !d[4]
            && w[5] == Sum3(d[0], d[1], d[3]) && w[6] == Sum3(d[1], d[2], d[4]) && w[7] == Sum3(d[0], d[1], d[2])
            && w[8] == Sum3(d[1], d[2], d[3]) && w[9] == Sum3(d[2], d[3], d[4]) && w[10] != Sum3(d[0], d[1], d[4])
            && w[11] == Sum3(d[0], d[2], d[3]) && w[12] == Sum3(d[1], d[3], d[4])
            && w[13] != Sum3(Sum3(d[0], d[1], d[2]), d[3], d[4]) && w[14] == Sum3(d[0], d[2], d[4])
  {
    hide IsFormatData, Masking.EccBits, Masking.MaskBits, Masking.FormatRemainder, Masking.XorBits, Sum3;
    FormatData(ecl, mask, d);
    MaskedBits(d, Masking.FormatRemainder(d, 10));
    FormatChecks(d);
  }

  /** Bit i of the word, counted from the lowest, stands beside the finder pattern and along the other two. */
  lemma FormatPlaces(g: Grid, word: seq<bool>, i: nat)
    requires IsSquare(g, |g|) && |g| >= 21 && |word| == 15 && i < 15
    ensures var first := if i < 6 then Cell(8, i) else if i < 8 then Cell(8, i + 1)
                         else if i == 8 then Cell(7, 8) else Cell(14 - i, 8);
            At(Masking.FormatDrawn(g, word), first) == word[14 - i]
    ensures var second := if i < 8 then Cell(|g| - 1 - i, 8) else Cell(8, |g| - 15 + i);
            At(Masking.FormatDrawn(g, word), second) == word[14 - i]
    ensures At(Masking.FormatDrawn(g, word), Cell(8, |g| - 8))
  {
    hide Masking.WithFormat;
    Masking.FormatModuleAt(g, word, Masking.FORMAT_MODULES, i);
    Masking.FormatModuleAt(g, word, Masking.FORMAT_MODULES, 15 + i);
    Masking.FormatModuleAt(g, word, Masking.FORMAT_MODULES, 30);
  }

  lemma FormatData(ecl: Masking.Ecc, mask: nat, d: seq<bool>)
    requires mask < 8 && IsFormatData(ecl, mask, d)
    ensures Masking.EccBits(ecl) + Masking.MaskBits(mask) == d
  {
  }

  lemma MaskedBits(d: seq<bool>, r: seq<bool>)
    requires |d| == 5 && |r| == 10
    ensures var w := Masking.XorBits(d + r, Masking.FORMAT_MASK);
            && w[0] != d[0] && w[1] == d[1] && w[2] != d[2] && w[3] == d[3] && w[4] != d[4]
            && w[5] == r[0] && w[6] == r[1] && w[7] == r[2] && w[8] == r[3] && w[9] == r[4]
            && w[10] != r[5] && w[11] == r[6] && w[12] == r[7] && w[13] != r[8] && w[14] == r[9]
  {
  }

  // ---- Finder-like patterns (section 7.8.3) -----------------------------------------------------------

  /** Runs in the ratio 1:1:3:1:1 count once for each side with four times as much white, the other having as much. */
  lemma PatternsAre(h: Penalty.History)
    ensures Penalty.CountPatterns(h) > 0 <==>
            exists n: nat :: n > 0 && h[1..6] == [n, n, 3 * n, n, n] &&
              ((h[0] >= 4 * n && h[6] >= n) || (h[6] >= 4 * n && h[0] >= n))
    ensures Penalty.CountPatterns(h) == 2 <==>
            exists n: nat :: n > 0 && h[1..6] == [n, n, 3 * n, n, n] && h[0] >= 4 * n && h[6] >= 4 * n
    ensures Penalty.CountPatterns(h) <= 2
  {
    var m := h[1..6];
    assert m[0] == h[1] && m[1] == h[2] && m[2] == h[3] && m[3] == h[4] && m[4] == h[5];
    var n := h[1];
    if Penalty.CountPatterns(h) > 0 {
      assert m == [n, n, 3 * n, n, n];
    }
  }

  // ---- Counting modules ---------------------------------------------------------------------------------

  /** The cells of n rows of the given width that are picked. */
  ghost function Picked(pick: (int, int) -> bool, width: nat, n: nat): set<Cell> {
    set x, y | 0 <= x < width && 0 <= y < n && pick(x, y) :: Cell(x, y)
  }

  ghost function PickedInRow(pick: (int, int) -> bool, y: nat, k: nat): set<Cell> {
    set x | 0 <= x < k && pick(x, y) :: Cell(x, y)
  }

  lemma RowGrows(pick: (int, int) -> bool, y: nat, k: nat)
    ensures |PickedInRow(pick, y, k + 1)| == |PickedInRow(pick, y, k)| + if pick(k, y) then 1 else 0
  {
    var before := PickedInRow(pick, y, k);
    assert Cell(k, y) !in before;
    assert PickedInRow(pick, y, k + 1) == before + if pick(k, y) then {Cell(k, y)} else {};
  }

  lemma RowsGrow(pick: (int, int) -> bool, width: nat, n: nat)
    ensures |Picked(pick, width, n + 1)| == |Picked(pick, width, n)| + |PickedInRow(pick, n, width)|
  {
    var before, row := Picked(pick, width, n), PickedInRow(pick, n, width);
    assert before !! row;
    assert Picked(pick, width, n + 1) == before + row;
  }

  /** A black module. */
  ghost function IsBlack(g: Grid): (int, int) -> bool {
    (x, y) => 0 <= y < |g| && 0 <= x < |g[y]| && g[y][x]
  }

  /** Four modules of one colour, the given one in the upper left. */
  ghost function IsUniform(g: Grid): (int, int) -> bool {
    (x, y) => 0 <= x && 0 <= y && y + 1 < |g| && x + 1 < |g[y]| && x + 1 < |g[y + 1]| &&
              g[y][x] == g[y][x + 1] && g[y][x] == g[y + 1][x] && g[y][x] == g[y + 1][x + 1]
  }

  lemma {:induction false} BlackRowIs(g: Grid, y: nat, k: nat)
    requires y < |g| && k <= |g[y]|
    ensures Penalty.BlackInRow(g[y][..k]) == |PickedInRow(IsBlack(g), y, k)|
    decreases k
  {
    hide PickedInRow;
    if k == 0 {
      NoneInRow(IsBlack(g), y);
    } else {
      BlackRowIs(g, y, k - 1);
      RowGrows(IsBlack(g), y, k - 1);
      assert g[y][..k][..k - 1] == g[y][..k - 1];
    }
  }

  lemma NoneInRow(pick: (int, int) -> bool, y: nat)
    ensures PickedInRow(pick, y, 0) == {}
  {
  }

  lemma NonePicked(pick: (int, int) -> bool, width: nat)
    ensures Picked(pick, width, 0) == {}
  {
  }

  lemma {:induction false} BlackIs(g: Grid, n: nat)
    requires IsSquare(g, |g|) && n <= |g|
    ensures Penalty.Black(g[..n]) == |Picked(IsBlack(g), |g|, n)|
    decreases n
  {
    hide Picked, Penalty.BlackInRow;
    if n == 0 {
      NonePicked(IsBlack(g), |g|);
    } else {
      BlackIs(g, n - 1);
      RowsGrow(IsBlack(g), |g|, n - 1);
      BlackRowIs(g, n - 1, |g|);
      assert g[..n][..n - 1] == g[..n - 1] && g[n - 1][..|g|] == g[n - 1];
    }
  }

  lemma {:induction false} UniformRowIs(g: Grid, y: nat, k: nat)
    requires IsSquare(g, |g|) && y + 1 < |g| && k < |g|
    ensures Penalty.BlocksInRow(g, y, k) == |PickedInRow(IsUniform(g), y, k)|
    decreases k
  {
    hide PickedInRow;
    if k == 0 {
      NoneInRow(IsUniform(g), y);
    } else {
      UniformRowIs(g, y, k - 1);
      RowGrows(IsUniform(g), y, k - 1);
    }
  }

  lemma {:induction false} UniformIs(g: Grid, n: nat)
    requires IsSquare(g, |g|) && n < |g|
    ensures Penalty.Blocks(g, n) == |Picked(IsUniform(g), |g| - 1, n)|
    decreases n
  {
    hide Picked, Penalty.BlocksInRow;
    if n == 0 {
      NonePicked(IsUniform(g), |g| - 1);
    } else {
      UniformIs(g, n - 1);
      RowsGrow(IsUniform(g), |g| - 1, n - 1);
      UniformRowIs(g, n - 1, |g| - 1);
    }
  }

  /** The scored counts are those of the black modules and of the fields of four modules of one colour. */
  lemma CountsAre(g: Grid)
    requires IsSquare(g, |g|) && |g| > 0
    ensures Penalty.Black(g) == |Picked(IsBlack(g), |g|, |g|)|
    ensures Penalty.Blocks(g, |g| - 1) == |Picked(IsUniform(g), |g| - 1, |g| - 1)|
  {
    hide Picked, Penalty.Black, Penalty.Blocks;
    BlackIs(g, |g|);
    UniformIs(g, |g| - 1);
    assert g[..|g|] == g;
  }

  function Repeated(b: bool, n: nat): seq<bool> {
    seq(n, _ => b)
  }

  /** Runs written out, white first and then in turn. */
  function Expanded(runs: seq<nat>): seq<bool> {
    if runs == [] then []
    else Expanded(runs[..|runs| - 1]) + Repeated(|runs| % 2 == 0, runs[|runs| - 1])
  }

  lemma {:induction false} ExpandedLast(runs: seq<nat>, n: nat)
    ensures Expanded(runs + [n]) == Expanded(runs) + Repeated(|runs| % 2 == 1, n)
  {
    hide Repeated;
    assert |runs + [n]| % 2 == 0 <==> |runs| % 2 == 1;
    assert (runs + [n])[..|runs|] == runs;
  }

  /** The runs of a line are the line. */
  lemma {:induction false} RunsAre(line: seq<bool>)
    ensures var r := Penalty.RunsOf(line); Expanded(r.finished + [r.current]) == line
    decreases |line|
  {
    hide Expanded, Repeated;
    var r := Penalty.RunsOf(line);
    ExpandedLast(r.finished, r.current);
    if line == [] {
      NothingExpanded();
    } else {
      var n := |line| - 1;
      RunsAre(line[..n]);
      var before := Penalty.RunsOf(line[..n]);
      ExpandedLast(before.finished, before.current);
      RepeatedMore(Expanded(before.finished), before.color, before.current);
      RepeatedMore(line[..n], line[n], 0);
      assert line == line[..n] + [line[n]];
    }
  }

  lemma RepeatedMore(a: seq<bool>, b: bool, n: nat)
    ensures a + Repeated(b, n + 1) == a + Repeated(b, n) + [b]
    ensures a + Repeated(b, 0) == a
  {
  }

  lemma NothingExpanded()
    ensures Expanded([]) == [] && Repeated(false, 0) == []
  {
  }

  /** A line scores its runs of five or more, two less than their length, and forty for each finder-like pattern. */
  lemma LineScoreIs(line: seq<bool>)
    requires line != []
    ensures var r := Penalty.RunsOf(line);
            Penalty.LinePenalty(line) == LongRuns(r.finished + [r.current])
              + 40 * Penalty.FinderPatterns(Penalty.BorderedRuns(line))
  {
    hide Penalty.LinePenalty, Penalty.FinderPatterns, Penalty.BorderedRuns, Penalty.RunsOf;
    var r := Penalty.RunsOf(line);
    Penalty.LinePenaltyMeaning(line);
    LongRunsAre(r.finished);
    assert (r.finished + [r.current])[..|r.finished|] == r.finished;
  }

  function LongRuns(runs: seq<nat>): nat {
    if runs == [] then 0
    else LongRuns(runs[..|runs| - 1]) + if runs[|runs| - 1] >= 5 then 3 + (runs[|runs| - 1] - 5) else 0
  }

  lemma {:induction false} LongRunsAre(runs: seq<nat>)
    ensures LongRuns(runs) == Penalty.RunScores(runs)
  {
    if runs != [] {
      LongRunsAre(runs[..|runs| - 1]);
    }
  }

  /** The score: all rows and columns, three for each field of four alike, ten for each step off balance. */
  lemma ScoreIs(g: Grid)
    requires IsSquare(g, |g|) && |g| > 0
    ensures Penalty.Score(g) ==
            Penalty.RowPenalties(g, |g|) + Penalty.ColumnPenalties(g, |g|)
            + 3 * |Picked(IsUniform(g), |g| - 1, |g| - 1)|
            + 10 * Penalty.Imbalance(|Picked(IsBlack(g), |g|, |g|)|, |g| * |g|)
  {
    hide Picked, Penalty.Black, Penalty.Blocks, Penalty.RowPenalties, Penalty.ColumnPenalties, Penalty.Imbalance;
    CountsAre(g);
  }
}
