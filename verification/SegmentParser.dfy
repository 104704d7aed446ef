/**
 A reader for the segment bit format, and the proof that it recovers what the segment
 makers wrote.
 */
module SegmentParser {
  import opened GaloisField
  import opened FieldOrder
  import opened Segments

  /** What a caller hands to makeNumeric, makeAlphanumeric or makeBytes. */
  datatype Content = Digits(text: string) | Text(text: string) | Bytes(bytes: seq<Byte>)

  predicate Encodable(c: Content) {
    match c
    case Digits(s) => IsNumeric(s)
    case Text(s) => IsAlphanumeric(s)
    case Bytes(b) => |b| <= 0x7FFF_FFFF
  }

  /** The segment the matching maker returns. */
  function Encoded(c: Content): Segment {
    match c
    case Digits(s) => Segment(NUMERIC, |s|, NumericBits(s))
    case Text(s) => Segment(ALPHANUMERIC, |s|, AlphanumericBits(s))
    case Bytes(b) => Segment(BYTE, |b|, BytesBits(b))
  }

  datatype Parsed<T> = Read(value: T, rest: seq<bool>) | Malformed

  // ---- Characters -----------------------------------------------------------------------------

  /** A field of len bits and what follows it. */
  function ReadField(bits: seq<bool>, len: nat): Parsed<nat> {
    if |bits| < len then Malformed else Read(Value(bits[..len]), bits[len..])
  }

  lemma ReadFieldBack(val: nat, len: nat, rest: seq<bool>)
    requires val < Exp2(len)
    ensures ReadField(Field(val, len) + rest, len) == Read(val, rest)
  {
    var bits := Field(val, len) + rest;
    assert bits[..len] == Field(val, len) && bits[len..] == rest;
    FieldValue(val, len);
  }

  function ReadNumeric(bits: seq<bool>, count: nat): Parsed<string>
    decreases count
  {
    if count == 0 then Read([], bits)
    else
      var n := if count >= 3 then 3 else count;
      match ReadField(bits, n * 3 + 1)
      case Malformed => Malformed
      case Read(v, rest) =>
        match ReadNumeric(rest, count - n)
        case Malformed => Malformed
        case Read(s, rest') => Read(DigitsOf(v, n) + s, rest')
  }

  lemma {:induction false} NumericHead(s: string, n: nat)
    requires s != [] && n == if |s| >= 3 then 3 else |s|
    ensures NumericBits(s) == Field(Decimal(s[..n]), n * 3 + 1) + NumericBits(s[n..])
  {
    if |s| < 3 {
      assert s[..n] == s && s[n..] == [];
      assert NumericBits(s) == Field(Decimal(s), n * 3 + 1) + [];
    }
  }

  lemma {:induction false} ReadNumericBack(s: string, rest: seq<bool>)
    requires IsNumeric(s)
    ensures ReadNumeric(NumericBits(s) + rest, |s|) == Read(s, rest)
  {
    hide NumericBits, Field, Decimal, DigitsOf, ReadField, Exp2;
    if s == [] {
      EmptyNumeric();
      assert NumericBits(s) + rest == rest;
    } else {
      var n := if |s| >= 3 then 3 else |s|;
      var head, tail := s[..n], s[n..];
      var bits := Field(Decimal(head), n * 3 + 1);
      NumericHead(s, n);
      assert NumericBits(s) + rest == bits + (NumericBits(tail) + rest);
      DecimalBounds(head);
      Widths();
      ReadFieldBack(Decimal(head), n * 3 + 1, NumericBits(tail) + rest);
      DigitsOfDecimal(head);
      ReadNumericBack(tail, rest);
      assert head + tail == s;
    }
  }

  function ReadAlphanumeric(bits: seq<bool>, count: nat): Parsed<string>
    decreases count
  {
    if count == 0 then Read([], bits)
    else if count == 1 then
      match ReadField(bits, 6)
      case Malformed => Malformed
      case Read(v, rest) => if v < 45 then Read([ALPHANUMERIC_CHARSET[v]], rest) else Malformed
    else
      match ReadField(bits, 11)
      case Malformed => Malformed
      case Read(v, rest) =>
        if v >= 2025 then Malformed
        else
          match ReadAlphanumeric(rest, count - 2)
          case Malformed => Malformed
          case Read(s, rest') => Read([ALPHANUMERIC_CHARSET[v / 45], ALPHANUMERIC_CHARSET[v % 45]] + s, rest')
  }

  lemma {:induction false} ReadAlphanumericBack(s: string, rest: seq<bool>)
    requires IsAlphanumeric(s)
    ensures ReadAlphanumeric(AlphanumericBits(s) + rest, |s|) == Read(s, rest)
  {
    hide CharIndex, Field, Exp2;
    Widths();
    if s == [] {
      assert AlphanumericBits(s) + rest == rest;
    } else if |s| == 1 {
      CharAtIndex(s[0]);
      ReadFieldBack(CharIndex(s[0]), 6, rest);
      assert [ALPHANUMERIC_CHARSET[CharIndex(s[0])]] == s;
    } else {
      var a, b := CharIndex(s[0]), CharIndex(s[1]);
      CharAtIndex(s[0]);
      CharAtIndex(s[1]);
      var v := a * 45 + b;
      assert v / 45 == a && v % 45 == b;
      assert AlphanumericBits(s) + rest == Field(v, 11) + (AlphanumericBits(s[2..]) + rest);
      ReadFieldBack(v, 11, AlphanumericBits(s[2..]) + rest);
      ReadAlphanumericBack(s[2..], rest);
      assert [s[0], s[1]] + s[2..] == s;
    }
  }

  function ReadBytes(bits: seq<bool>, count: nat): Parsed<seq<Byte>>
    decreases count
  {
    if count == 0 then Read([], bits)
    else if |bits| < 8 then Malformed
    else
      var b: Byte := bits[..8];
      match ReadBytes(bits[8..], count - 1)
      case Malformed => Malformed
      case Read(s, rest) => Read([b] + s, rest)
  }

  lemma {:induction false} ReadBytesBack(data: seq<Byte>, rest: seq<bool>)
    ensures ReadBytes(BytesBits(data) + rest, |data|) == Read(data, rest)
  {
    if data == [] {
      assert BytesBits(data) + rest == rest;
    } else {
      var bits := BytesBits(data) + rest;
      assert bits[..8] == data[0] && bits[8..] == BytesBits(data[1..]) + rest;
      ReadBytesBack(data[1..], rest);
      assert [data[0]] + data[1..] == data;
    }
  }

  // ---- Whole segments ------------------------------------------------------------------------------

  /** A segment as encodeSegments appends it: mode, character count, data. */
  function SegmentBits(seg: Segment, ver: nat): seq<bool> {
    Field(ModeBits(seg.mode), 4) + Field(seg.numChars, CharCountBits(seg.mode, ver)) + seg.data
  }

  function AllBits(segs: seq<Segment>, ver: nat): seq<bool> {
    if segs == [] then [] else AllBits(segs[..|segs| - 1], ver) + SegmentBits(segs[|segs| - 1], ver)
  }

  function ReadContent(modeBits: nat, bits: seq<bool>, ver: nat): Parsed<Content> {
    if modeBits == 1 then
      match ReadField(bits, CharCountBits(NUMERIC, ver))
      case Malformed => Malformed
      case Read(n, rest) => match ReadNumeric(rest, n) case Malformed => Malformed case Read(s, r) => Read(Digits(s), r)
    else if modeBits == 2 then
      match ReadField(bits, CharCountBits(ALPHANUMERIC, ver))
      case Malformed => Malformed
      case Read(n, rest) =>
        match ReadAlphanumeric(rest, n) case Malformed => Malformed case Read(s, r) => Read(Text(s), r)
    else if modeBits == 4 then
      match ReadField(bits, CharCountBits(BYTE, ver))
      case Malformed => Malformed
      case Read(n, rest) => match ReadBytes(rest, n) case Malformed => Malformed case Read(s, r) => Read(Bytes(s), r)
    else Malformed
  }

  /** Reads segments until a terminator or until fewer than four bits remain. */
  function ReadStream(bits: seq<bool>, ver: nat): Parsed<seq<Content>>
    decreases |bits|
  {
    if |bits| < 4 || Value(bits[..4]) == 0 then Read([], bits)
    else
      match ReadContent(Value(bits[..4]), bits[4..], ver)
      case Malformed => Malformed
      case Read(c, rest) =>
        if |rest| >= |bits| then Malformed
        else
          match ReadStream(rest, ver)
          case Malformed => Malformed
          case Read(cs, rest') => Read([c] + cs, rest')
  }

  /** The character count fits its field. */
  predicate CountFits(seg: Segment, ver: nat) {
    seg.numChars < Exp2(CharCountBits(seg.mode, ver))
  }

  lemma ReadContentBack(c: Content, ver: nat, rest: seq<bool>)
    requires Encodable(c) && CountFits(Encoded(c), ver)
    ensures var seg := Encoded(c);
            var count := Field(seg.numChars, CharCountBits(seg.mode, ver));
            ReadContent(ModeBits(seg.mode), count + (seg.data + rest), ver) == Read(c, rest)
  {
    hide CharCountBits, Field, ReadField, ReadNumeric, ReadAlphanumeric, ReadBytes, NumericBits,
         AlphanumericBits, BytesBits;
    var seg := Encoded(c);
    ReadFieldBack(seg.numChars, CharCountBits(seg.mode, ver), seg.data + rest);
    match c
    case Digits(s) => ReadNumericBack(s, rest);
    case Text(s) => ReadAlphanumericBack(s, rest);
    case Bytes(b) => ReadBytesBack(b, rest);
  }

  function EncodedAll(cs: seq<Content>): (segs: seq<Segment>)
    ensures |segs| == |cs|
  {
    seq(|cs|, i requires 0 <= i < |cs| => Encoded(cs[i]))
  }

  ghost predicate Readable(cs: seq<Content>, ver: nat) {
    forall i :: 0 <= i < |cs| ==> Encodable(cs[i]) && CountFits(Encoded(cs[i]), ver)
  }

  /** What follows the segments: a terminator, or too few bits for another mode. */
  predicate EndsStream(tail: seq<bool>) {
    |tail| < 4 || Value(tail[..4]) == 0
  }

  lemma SegmentFirst(c: Content, ver: nat, rest: seq<bool>)
    requires Encodable(c) && CountFits(Encoded(c), ver)
    ensures var bits := SegmentBits(Encoded(c), ver) + rest;
            && |bits| > |rest| && |bits| >= 4 && Value(bits[..4]) == ModeBits(Encoded(c).mode) != 0
            && ReadContent(Value(bits[..4]), bits[4..], ver) == Read(c, rest)
  {
    hide CharCountBits, Field, ReadContent, Encoded, Value;
    var seg := Encoded(c);
    var bits := SegmentBits(seg, ver) + rest;
    var body := Field(seg.numChars, CharCountBits(seg.mode, ver)) + (seg.data + rest);
    assert bits == Field(ModeBits(seg.mode), 4) + body;
    assert bits[..4] == Field(ModeBits(seg.mode), 4) && bits[4..] == body;
    Widths();
    FieldValue(ModeBits(seg.mode), 4);
    ReadContentBack(c, ver, rest);
  }

  lemma {:induction false} AllBitsFirst(segs: seq<Segment>, ver: nat)
    requires segs != []
    ensures AllBits(segs, ver) == SegmentBits(segs[0], ver) + AllBits(segs[1..], ver)
  {
    hide SegmentBits;
    var n := |segs| - 1;
    if n > 0 {
      AllBitsFirst(segs[..n], ver);
      assert segs[..n][1..] == segs[1..][..n - 1];
    } else {
      assert segs[..0] == [] && segs[1..] == [];
    }
  }

  /** The stream of any list of segments reads back to the contents they were made from. */
  lemma {:induction false} StreamReadBack(cs: seq<Content>, ver: nat, tail: seq<bool>)
    requires Readable(cs, ver) && EndsStream(tail)
    ensures ReadStream(AllBits(EncodedAll(cs), ver) + tail, ver) == Read(cs, tail)
  {
    hide SegmentBits, ReadContent, CountFits, Encodable, Encoded, AllBits, Value;
    if cs == [] {
      assert AllBits([], ver) == [] by { EmptyBits(ver); }
      assert AllBits(EncodedAll(cs), ver) + tail == tail;
    } else {
      var segs := EncodedAll(cs);
      AllBitsFirst(segs, ver);
      assert segs[1..] == EncodedAll(cs[1..]);
      var rest := AllBits(segs[1..], ver) + tail;
      var bits := AllBits(segs, ver) + tail;
      assert bits == SegmentBits(segs[0], ver) + rest;
      SegmentFirst(cs[0], ver, rest);
      StreamReadBack(cs[1..], ver, tail);
      assert [cs[0]] + cs[1..] == cs;
    }
  }

  lemma EmptyBits(ver: nat)
    ensures AllBits([], ver) == []
  {
  }
}
