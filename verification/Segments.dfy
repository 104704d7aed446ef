/**
 Segments and their bits: the numeric, alphanumeric and byte encoders and the bit buffer they
 append to.
 */
module Segments {
  import opened GaloisField
  import opened FieldOrder

  // ---- Bit fields --------------------------------------------------------------------------

  /** val >> i. */
  function Shr(val: nat, i: nat): nat {
    if i == 0 then val else Shr(val, i - 1) / 2
  }

  /** The low len bits of val, most significant first. */
  function Field(val: nat, len: nat): (bits: seq<bool>)
    ensures |bits| == len
  {
    if len == 0 then [] else Field(val / 2, len - 1) + [val % 2 == 1]
  }

  lemma {:induction false} FieldValue(val: nat, len: nat)
    requires val < Exp2(len)
    ensures Value(Field(val, len)) == val
  {
    if len > 0 {
      FieldValue(val / 2, len - 1);
      var f := Field(val, len);
      assert f[..len - 1] == Field(val / 2, len - 1);
    }
  }

  /** A value fits a field exactly when the code's shift test lets it through. */
  lemma {:induction false} ShrTest(val: nat, len: nat)
    ensures Shr(val, len) == 0 <==> val < Exp2(len)
  {
    if len > 0 {
      ShrHalf(val, len - 1);
      ShrTest(val / 2, len - 1);
    }
  }

  lemma {:induction false} ShrHalf(val: nat, i: nat)
    ensures Shr(val, i + 1) == Shr(val / 2, i)
  {
    if i > 0 {
      ShrHalf(val, i - 1);
    }
  }

  datatype Append = Appended | RangeError

  /** BitBuffer. */
  class BitBuffer {
    var bits: seq<bool>

    constructor ()
      ensures bits == []
    {
      bits := [];
    }

    /** appendBits. */
    method AppendBits(val: nat, len: int) returns (r: Append)
      modifies this
      ensures r == if 0 <= len <= 31 && val < Exp2(len) then Appended else RangeError
      ensures bits == if r.Appended? then old(bits) + Field(val, len) else old(bits)
    {
      if len < 0 || len > 31 {
        return RangeError;
      }
      ShrTest(val, len);
      if Shr(val, len) != 0 {
        return RangeError;
      }
      var i := len;
      while i > 0
        invariant 0 <= i <= len
        invariant bits == old(bits) + Field(Shr(val, i), len - i)
      {
        i := i - 1;
        bits := bits + [Shr(val, i) % 2 == 1];
      }
      r := Appended;
    }

    /** A call of appendBits whose range check is known to pass. */
    method Push(val: nat, len: nat)
      requires len <= 31 && val < Exp2(len)
      modifies this
      ensures bits == old(bits) + Field(val, len)
    {
      var status := AppendBits(val, len);
      assert status.Appended?;
    }
  }

  lemma {:induction false} FieldOfValue(bits: seq<bool>)
    ensures Field(Value(bits), |bits|) == bits
  {
    if bits != [] {
      FieldOfValue(bits[..|bits| - 1]);
    }
  }

  // ---- Segments -------------------------------------------------------------------------------

  datatype Mode = NUMERIC | ALPHANUMERIC | BYTE | KANJI | ECI

  function ModeBits(mode: Mode): nat {
    match mode case NUMERIC => 1 case ALPHANUMERIC => 2 case BYTE => 4 case KANJI => 8 case ECI => 7
  }

  /** numCharCountBits: three widths, for versions 1-9, 10-26 and 27-40. */
  function CharCountBits(mode: Mode, ver: nat): nat {
    var range := (ver + 7) / 17;
    match mode
    case NUMERIC => if range == 0 then 10 else if range == 1 then 12 else 14
    case ALPHANUMERIC => if range == 0 then 9 else if range == 1 then 11 else 13
    case BYTE => if range == 0 then 8 else 16
    case KANJI => if range == 0 then 8 else if range == 1 then 10 else 12
    case ECI => 0
  }

  datatype Segment = Segment(mode: Mode, numChars: nat, data: seq<bool>)

  datatype Made = Made(segment: Segment) | DomainError

  // ---- Numeric mode ------------------------------------------------------------------------------

  predicate IsDigit(c: char) {
    '0' <= c <= '9'
  }

  predicate IsNumeric(s: string) {
    forall i :: 0 <= i < |s| ==> IsDigit(s[i])
  }

  function DigitValue(c: char): (v: nat)
    ensures v < 10
  {
    if IsDigit(c) then (c - '0') as nat else 0
  }

  function Decimal(s: string): nat {
    if s == [] then 0 else Decimal(s[..|s| - 1]) * 10 + DigitValue(s[|s| - 1])
  }

  /** Groups of three digits in ten bits; two left over take seven, one takes four. */
  function NumericBits(s: string): seq<bool> {
    if |s| >= 3 then Field(Decimal(s[..3]), 10) + NumericBits(s[3..])
    else if s == [] then []
    else Field(Decimal(s), |s| * 3 + 1)
  }

  lemma {:induction false} NumericAppend(a: string, b: string, groups: nat)
    requires |a| == 3 * groups
    ensures NumericBits(a + b) == NumericBits(a) + NumericBits(b)
  {
    if a == [] {
      assert a + b == b;
    } else {
      assert (a + b)[..3] == a[..3] && (a + b)[3..] == a[3..] + b;
      NumericAppend(a[3..], b, groups - 1);
    }
  }

  lemma {:induction false} DecimalBounds(s: string)
    requires |s| <= 3
    ensures |s| == 1 ==> Decimal(s) < 10
    ensures |s| == 2 ==> Decimal(s) < 100
    ensures |s| == 3 ==> Decimal(s) < 1000
  {
    if |s| >= 1 {
      assert s[..1][..0] == [];
      assert Decimal(s[..1]) < 10;
    }
    if |s| >= 2 {
      assert s[..2][..1] == s[..1];
      assert Decimal(s[..2]) < 100;
    }
    if |s| == 3 {
      assert s[..3] == s;
    }
    assert |s| == 2 ==> s[..2] == s;
    assert |s| == 1 ==> s[..1] == s;
  }

  lemma Widths()
    ensures Exp2(4) == 16 && Exp2(6) == 64 && Exp2(7) == 128 && Exp2(8) == 256 && Exp2(10) == 1024 && Exp2(11) == 2048
  {
  }

  /** makeNumeric. */
  method MakeNumeric(digits: string) returns (r: Made)
    ensures r == if IsNumeric(digits) then Made(Segment(NUMERIC, |digits|, NumericBits(digits))) else DomainError
  {
    var bb := new BitBuffer();
    var accumData: nat, accumCount: nat := 0, 0;
    ghost var k, groups := 0, 0;
    Widths();
    EmptyNumeric();
    hide NumericBits, Field, Exp2, Decimal;
    for i := 0 to |digits|
      invariant k == 3 * groups && 0 <= k && k + accumCount == i && accumCount < 3
      invariant forall j :: 0 <= j < i ==> IsDigit(digits[j])
      invariant bb.bits == NumericBits(digits[..k])
      invariant accumData == Decimal(digits[k..i])
    {
      var c := digits[i];
      if c < '0' || c > '9' {
        return DomainError;
      }
      DecimalNext(digits, k, i);
      accumData := accumData * 10 + (c - '0') as nat;
      accumCount := accumCount + 1;
      if accumCount == 3 {
        PushGroup(bb, digits, groups, accumData);
        k, groups := i + 1, groups + 1;
        accumData := 0;
        accumCount := 0;
      }
    }
    if accumCount > 0 {
      assert digits[k..|digits|] == digits[k..];
      PushRest(bb, digits, groups, accumData, accumCount);
    } else {
      assert digits[..k] == digits;
    }
    r := Made(Segment(NUMERIC, |digits|, bb.bits));
  }

  /** A full group of three digits, in ten bits. */
  method PushGroup(bb: BitBuffer, digits: string, ghost groups: nat, data: nat)
    requires 3 * groups + 3 <= |digits| && data == Decimal(digits[3 * groups..3 * groups + 3])
    requires bb.bits == NumericBits(digits[..3 * groups])
    modifies bb
    ensures bb.bits == NumericBits(digits[..3 * groups + 3])
  {
    hide NumericBits, Field, Decimal, Exp2;
    Widths();
    DecimalBounds(digits[3 * groups..3 * groups + 3]);
    bb.Push(data, 10);
    AppendGroup(digits, groups);
  }

  /** One or two digits that are left, in four or seven bits. */
  method PushRest(bb: BitBuffer, digits: string, ghost groups: nat, data: nat, count: nat)
    requires 0 < count < 3 && 3 * groups + count == |digits| && data == Decimal(digits[3 * groups..])
    requires bb.bits == NumericBits(digits[..3 * groups])
    modifies bb
    ensures bb.bits == NumericBits(digits)
  {
    hide NumericBits, Field, Decimal, Exp2;
    Widths();
    DecimalBounds(digits[3 * groups..]);
    bb.Push(data, count * 3 + 1);
    AppendRest(digits, groups);
  }

  lemma EmptyNumeric()
    ensures NumericBits([]) == [] && Decimal([]) == 0
  {
  }

  lemma {:induction false} DecimalNext(digits: string, k: nat, i: nat)
    requires k <= i < |digits| && IsDigit(digits[i])
    ensures Decimal(digits[k..i + 1]) == Decimal(digits[k..i]) * 10 + (digits[i] - '0') as nat
  {
    assert digits[k..i + 1][..i - k] == digits[k..i];
  }

  lemma {:induction false} AppendRest(digits: string, groups: nat)
    requires 3 * groups < |digits| < 3 * groups + 3
    ensures var k := 3 * groups;
            NumericBits(digits) == NumericBits(digits[..k]) + Field(Decimal(digits[k..]), (|digits| - k) * 3 + 1)
  {
    var k := 3 * groups;
    var last := digits[k..];
    assert digits[..k] + last == digits;
    assert NumericBits(last) == Field(Decimal(last), |last| * 3 + 1);
    hide NumericBits, Field, Decimal;
    NumericAppend(digits[..k], last, groups);
  }

  lemma {:induction false} AppendGroup(digits: string, groups: nat)
    requires 3 * groups + 3 <= |digits|
    ensures var k := 3 * groups;
            NumericBits(digits[..k + 3]) == NumericBits(digits[..k]) + Field(Decimal(digits[k..k + 3]), 10)
  {
    var k := 3 * groups;
    var g := digits[k..k + 3];
    assert digits[..k + 3] == digits[..k] + g;
    NumericAppend(digits[..k], g, groups);
    assert g[..3] == g && g[3..] == [];
    assert NumericBits(g) == Field(Decimal(g), 10) + [];
  }

  /** n decimal digits of v. */
  function DigitsOf(v: nat, n: nat): (s: string)
    ensures |s| == n
  {
    if n == 0 then [] else DigitsOf(v / 10, n - 1) + ['0' + (v % 10) as char]
  }

  lemma {:induction false} DigitsOfDecimal(s: string)
    requires IsNumeric(s)
    ensures DigitsOf(Decimal(s), |s|) == s
  {
    if s != [] {
      DigitsOfDecimal(s[..|s| - 1]);
    }
  }

  // ---- Alphanumeric mode ------------------------------------------------------------------------------

  const ALPHANUMERIC_CHARSET := "0123456789ABCDEFGHIJKLMNOPQRSTUVWXYZ $%*+-./:"

  /** Position of the first c at or after i, or the length if there is none (strchr). */
  function Find(s: string, c: char, i: nat): (k: nat)
    requires i <= |s|
    ensures i <= k <= |s|
    ensures k < |s| ==> s[k] == c
    decreases |s| - i
  {
    if i == |s| || s[i] == c then i else Find(s, c, i + 1)
  }

  function CharIndex(c: char): (k: nat)
    ensures k <= 45
  {
    Find(ALPHANUMERIC_CHARSET, c, 0)
  }

  lemma CharAtIndex(c: char)
    requires CharIndex(c) < 45
    ensures ALPHANUMERIC_CHARSET[CharIndex(c)] == c
  {
  }

  predicate IsAlphanumeric(s: string) {
    forall i :: 0 <= i < |s| ==> CharIndex(s[i]) < 45
  }

  /** Pairs of characters in eleven bits; one left over takes six. */
  function AlphanumericBits(s: string): seq<bool> {
    if |s| >= 2 then Field(CharIndex(s[0]) * 45 + CharIndex(s[1]), 11) + AlphanumericBits(s[2..])
    else if s == [] then []
    else Field(CharIndex(s[0]), 6)
  }

  lemma {:induction false} AlphanumericAppend(a: string, b: string, pairs: nat)
    requires |a| == 2 * pairs
    ensures AlphanumericBits(a + b) == AlphanumericBits(a) + AlphanumericBits(b)
  {
    hide CharIndex, Field;
    if pairs == 0 {
      assert a + b == b;
    } else {
      assert (a + b)[2..] == a[2..] + b;
      AlphanumericAppend(a[2..], b, pairs - 1);
    }
  }

  lemma {:induction false} AppendPair(text: string, pairs: nat)
    requires 2 * pairs + 2 <= |text|
    ensures var k := 2 * pairs;
            AlphanumericBits(text[..k + 2]) ==
            AlphanumericBits(text[..k]) + Field(CharIndex(text[k]) * 45 + CharIndex(text[k + 1]), 11)
  {
    hide CharIndex, Field;
    var k := 2 * pairs;
    var g := text[k..k + 2];
    assert text[..k + 2] == text[..k] + g;
    assert g[2..] == [];
    assert AlphanumericBits(g) == Field(CharIndex(text[k]) * 45 + CharIndex(text[k + 1]), 11) + [];
    hide AlphanumericBits;
    AlphanumericAppend(text[..k], g, pairs);
  }

  lemma {:induction false} AppendSingle(text: string, pairs: nat)
    requires 2 * pairs + 1 == |text|
    ensures AlphanumericBits(text) == AlphanumericBits(text[..2 * pairs]) + Field(CharIndex(text[2 * pairs]), 6)
  {
    hide CharIndex, Field;
    var k := 2 * pairs;
    assert text[..k] + text[k..] == text;
    assert AlphanumericBits(text[k..]) == Field(CharIndex(text[k]), 6);
    hide AlphanumericBits;
    AlphanumericAppend(text[..k], text[k..], pairs);
  }

  /** makeAlphanumeric. */
  method MakeAlphanumeric(text: string) returns (r: Made)
    ensures r ==
            if IsAlphanumeric(text) then Made(Segment(ALPHANUMERIC, |text|, AlphanumericBits(text))) else DomainError
  {
    var bb := new BitBuffer();
    var accumData: nat, accumCount: nat := 0, 0;
    ghost var pairs := 0;
    Widths();
    EmptyAlphanumeric();
    hide *;
    for i := 0 to |text|
      invariant i == 2 * pairs + accumCount && accumCount < 2
      invariant IsAlphanumeric(text[..i])
      invariant bb.bits == AlphanumericBits(text[..2 * pairs])
      invariant accumData == if accumCount == 0 then 0 else CharIndex(text[2 * pairs])
    {
      AlphanumericNext(text, i);
      var temp := CharIndex(text[i]);
      if temp == 45 {
        return DomainError;
      }
      accumData := accumData * 45 + temp;
      accumCount := accumCount + 1;
      if accumCount == 2 {
        FlushPair(bb, accumData, text, pairs);
        pairs := pairs + 1;
        accumData := 0;
        accumCount := 0;
      }
    }
    assert text[..|text|] == text;
    if accumCount > 0 {
      AlphanumericNext(text, 2 * pairs);
      bb.Push(accumData, 6);
      AppendSingle(text, pairs);
    }
    r := Made(Segment(ALPHANUMERIC, |text|, bb.bits));
  }

  /** The append that closes a pair of characters. */
  method FlushPair(bb: BitBuffer, accumData: nat, ghost text: string, ghost pairs: nat)
    requires 2 * pairs + 2 <= |text| && IsAlphanumeric(text[..2 * pairs + 2])
    requires accumData == CharIndex(text[2 * pairs]) * 45 + CharIndex(text[2 * pairs + 1])
    requires bb.bits == AlphanumericBits(text[..2 * pairs])
    modifies bb
    ensures bb.bits == AlphanumericBits(text[..2 * pairs + 2])
  {
    hide AlphanumericBits, CharIndex;
    Widths();
    assert text[..2 * pairs + 2][2 * pairs] == text[2 * pairs];
    assert text[..2 * pairs + 2][2 * pairs + 1] == text[2 * pairs + 1];
    bb.Push(accumData, 11);
    AppendPair(text, pairs);
  }

  lemma EmptyAlphanumeric()
    ensures IsAlphanumeric([]) && AlphanumericBits([]) == []
  {
  }

  lemma AlphanumericNext(text: string, i: nat)
    requires i < |text|
    ensures IsAlphanumeric(text[..i + 1]) <==> IsAlphanumeric(text[..i]) && CharIndex(text[i]) < 45
    ensures IsAlphanumeric(text) ==> CharIndex(text[i]) < 45
  {
    hide CharIndex;
    assert forall j :: 0 <= j < i ==> text[..i][j] == text[..i + 1][j];
  }

  // ---- Byte mode ----------------------------------------------------------------------------------------

  function BytesBits(data: seq<Byte>): (bits: seq<bool>)
    ensures |bits| == 8 * |data|
  {
    if data == [] then [] else data[0] + BytesBits(data[1..])
  }

  lemma {:induction false} BytesAppend(data: seq<Byte>, b: Byte)
    ensures BytesBits(data + [b]) == BytesBits(data) + b
  {
    if data == [] {
      assert ([] + [b])[1..] == [];
    } else {
      assert (data + [b])[1..] == data[1..] + [b];
      BytesAppend(data[1..], b);
    }
  }

  /** makeBytes; vectors longer than INT_MAX are refused. */
  method MakeBytes(data: seq<Byte>) returns (r: Made)
    ensures r == if |data| <= 0x7FFF_FFFF then Made(Segment(BYTE, |data|, BytesBits(data))) else DomainError
  {
    if |data| > 0x7FFF_FFFF {
      return DomainError;
    }
    var bb := new BitBuffer();
    Widths();
    for i := 0 to |data|
      invariant bb.bits == BytesBits(data[..i])
    {
      hide BytesBits;
      ValueBound(data[i]);
      FieldOfValue(data[i]);
      bb.Push(Value(data[i]), 8);
      BytesAppend(data[..i], data[i]);
      assert data[..i + 1] == data[..i] + [data[i]];
    }
    assert data[..|data|] == data;
    r := Made(Segment(BYTE, |data|, bb.bits));
  }
}
