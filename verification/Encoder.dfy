/**
 encodeSegments up to the data codewords: choice of version and level, concatenation,
 terminator, padding and packing.
 */
module Encoder {
  import opened GaloisField
  import opened FieldOrder
  import opened Segments
  import opened SegmentParser
  import opened Masking
  import opened Tables
  import Symbol

  const INT_MAX := 0x7FFF_FFFF

  // ---- getTotalBits ------------------------------------------------------------------------------

  function AddTotal(total: int, seg: Segment, ver: nat): int {
    var ccbits := CharCountBits(seg.mode, ver);
    if total == -1 || !CountFits(seg, ver) then -1
    else if 4 + ccbits > INT_MAX - total then -1
    else if |seg.data| > INT_MAX - (total + 4 + ccbits) then -1
    else total + 4 + ccbits + |seg.data|
  }

  function TotalBits(segs: seq<Segment>, ver: nat): int {
    if segs == [] then 0 else AddTotal(TotalBits(segs[..|segs| - 1], ver), segs[|segs| - 1], ver)
  }

  method GetTotalBits(segs: seq<Segment>, ver: nat) returns (result: int)
    ensures result == TotalBits(segs, ver)
  {
    result := 0;
    for i := 0 to |segs|
      invariant result == TotalBits(segs[..i], ver) && 0 <= result
    {
      assert segs[..i + 1][..i] == segs[..i];
      ghost var before := result;
      var seg := segs[i];
      hide CharCountBits, Exp2;
      var ccbits := CharCountBits(seg.mode, ver);
      if !CountFits(seg, ver) || 4 + ccbits > INT_MAX - result || |seg.data| > INT_MAX - (result + 4 + ccbits) {
        TotalStuck(segs, ver, i + 1);
        return -1;
      }
      result := result + 4 + ccbits + |seg.data|;
    }
    assert segs[..|segs|] == segs;
  }

  lemma {:induction false} TotalStuck(segs: seq<Segment>, ver: nat, n: nat)
    requires n <= |segs| && TotalBits(segs[..n], ver) == -1
    ensures TotalBits(segs, ver) == -1
  {
    hide CharCountBits, Exp2;
    if n == |segs| {
      assert segs[..n] == segs;
    } else {
      var init := segs[..|segs| - 1];
      assert init[..n] == segs[..n];
      TotalStuck(init, ver, n);
    }
  }

  /** The total is the stream length, or -1 exactly when a count overflows its field or the
      length overflows an int. */
  lemma {:induction false} TotalIsLength(segs: seq<Segment>, ver: nat)
    ensures TotalBits(segs, ver) ==
              if (forall i :: 0 <= i < |segs| ==> CountFits(segs[i], ver)) && |AllBits(segs, ver)| <= INT_MAX
              then |AllBits(segs, ver)| else -1
  {
    if segs != [] {
      var n := |segs| - 1;
      TotalIsLength(segs[..n], ver);
      hide CharCountBits, Exp2, CountFits;
      assert |SegmentBits(segs[n], ver)| == 4 + CharCountBits(segs[n].mode, ver) + |segs[n].data|;
      assert forall i :: 0 <= i < n ==> segs[..n][i] == segs[i];
      if forall i :: 0 <= i < n ==> CountFits(segs[..n][i], ver) {
        assert forall i :: 0 <= i < n ==> CountFits(segs[i], ver);
      }
    }
  }

  // ---- Version and level ----------------------------------------------------------------------------

  predicate Fits(segs: seq<Segment>, ver: nat, ecl: Ecc) {
    TotalBits(segs, ver) != -1 && TotalBits(segs, ver) <= NumDataCodewords(ver, ecl) * 8
  }

  function Rank(ecl: Ecc): nat {
    match ecl case LOW => 0 case MEDIUM => 1 case QUARTILE => 2 case HIGH => 3
  }

  /** The level boosting settles on. */
  ghost predicate IsBoosted(segs: seq<Segment>, ver: nat, ecl: Ecc, boost: bool, chosen: Ecc) {
    && Fits(segs, ver, chosen)
    && Rank(chosen) >= Rank(ecl)
    && (!boost ==> chosen == ecl)
    && (boost ==> forall e: Ecc :: Rank(e) > Rank(chosen) ==> !Fits(segs, ver, e))
  }

  method BoostLevel(segs: seq<Segment>, ver: nat, ecl: Ecc, boost: bool, used: int) returns (chosen: Ecc)
    requires used == TotalBits(segs, ver) && Fits(segs, ver, ecl)
    ensures IsBoosted(segs, ver, ecl, boost, chosen)
  {
    chosen := ecl;
    if boost && used <= NumDataCodewords(ver, MEDIUM) * 8 {
      chosen := MEDIUM;
    }
    if boost && used <= NumDataCodewords(ver, QUARTILE) * 8 {
      chosen := QUARTILE;
    }
    if boost && used <= NumDataCodewords(ver, HIGH) * 8 {
      chosen := HIGH;
    }
  }

  // ---- Padding ------------------------------------------------------------------------------------------

  const PAD_EC: Byte := [true, true, true, false, true, true, false, false]
  const PAD_11: Byte := [false, false, false, true, false, false, false, true]

  function PadBytes(n: nat): (bits: seq<bool>)
    ensures |bits| == 8 * n
  {
    if n == 0 then [] else PadBytes(n - 1) + (if n % 2 == 1 then PAD_EC else PAD_11)
  }

  function Min(a: int, b: int): int {
    if a < b then a else b
  }

  /** Terminator, zeros up to a byte boundary, then alternating pad bytes. */
  function Padding(length: nat, capacity: nat): (p: seq<bool>)
    requires length <= capacity && capacity % 8 == 0
    ensures |p| == capacity - length
  {
    var t := Min(4, capacity - length);
    var z := (8 - (length + t) % 8) % 8;
    Zeros(t) + Zeros(z) + PadBytes((capacity - length - t - z) / 8)
  }

  /** What fills n codewords after the given bits. */
  function PaddingOf(bits: seq<bool>, n: nat): seq<bool>
    requires |bits| <= 8 * n
  {
    Padding(|bits|, 8 * n)
  }

  lemma PaddingEndsStream(length: nat, capacity: nat)
    requires length <= capacity && capacity % 8 == 0
    ensures EndsStream(Padding(length, capacity))
  {
    var p := Padding(length, capacity);
    if capacity - length >= 4 {
      assert p[..4] == Zeros(4);
      ZerosValue(4);
    }
  }

  lemma {:induction false} ZerosValue(n: nat)
    ensures Value(Zeros(n)) == 0
  {
    if n > 0 {
      assert Zeros(n)[..n - 1] == Zeros(n - 1);
      ZerosValue(n - 1);
    }
  }

  lemma {:induction false} ZeroField(n: nat)
    ensures Field(0, n) == Zeros(n)
  {
    if n > 0 {
      ZeroField(n - 1);
    }
  }

  lemma {:induction false} ExpPositive(n: nat)
    ensures Exp2(n) > 0
  {
    if n > 0 {
      ExpPositive(n - 1);
    }
  }

  /** The terminator and padding appends of encodeSegments. */
  method AppendPadding(bb: BitBuffer, capacity: nat)
    requires |bb.bits| <= capacity && capacity % 8 == 0
    modifies bb
    ensures bb.bits == old(bb.bits) + Padding(|old(bb.bits)|, capacity)
  {
    hide Padding, Zeros, PadBytes;
    ghost var length := |bb.bits|;
    var t := Min(4, capacity - |bb.bits|);
    AppendZeros(bb, t);
    var z := (8 - |bb.bits| % 8) % 8;
    PaddingParts(length, capacity, t, z);
    AppendZeros(bb, z);
    AppendPadBytes(bb, capacity);
  }

  lemma PaddingParts(length: nat, capacity: nat, t: nat, z: nat)
    requires length <= capacity && capacity % 8 == 0
    requires t == Min(4, capacity - length) && z == (8 - (length + t) % 8) % 8
    ensures (length + t + z) % 8 == 0 && length + t + z <= capacity && z < 8 && t <= 4
    ensures Padding(length, capacity) == Zeros(t) + Zeros(z) + PadBytes((capacity - (length + t + z)) / 8)
  {
    hide Zeros, PadBytes;
    RoundUp(length + t, z);
    MultipleAbove(length + t, z, capacity);
  }

  lemma RoundUp(n: nat, z: nat)
    requires z == (8 - n % 8) % 8
    ensures z < 8 && (n + z) % 8 == 0
  {
  }

  lemma MultipleAbove(n: nat, z: nat, capacity: nat)
    requires n <= capacity && capacity % 8 == 0 && z < 8 && (n + z) % 8 == 0
    ensures n + z <= capacity
  {
    var a, b := (n + z) / 8, capacity / 8;
    assert n + z == 8 * a && capacity == 8 * b;
  }

  method AppendPadBytes(bb: BitBuffer, capacity: nat)
    requires |bb.bits| <= capacity && capacity % 8 == 0 && |bb.bits| % 8 == 0
    modifies bb
    ensures bb.bits == old(bb.bits) + PadBytes((capacity - |old(bb.bits)|) / 8)
  {
    ghost var n := 0;
    var padByte := PAD_EC;
    while |bb.bits| < capacity
      invariant |bb.bits| <= capacity && |bb.bits| == |old(bb.bits)| + 8 * n
      invariant padByte == if n % 2 == 0 then PAD_EC else PAD_11
      invariant bb.bits == old(bb.bits) + PadBytes(n)
      decreases capacity - |bb.bits|
    {
      AppendByte(bb, padByte);
      padByte := if padByte == PAD_EC then PAD_11 else PAD_EC;
      n := n + 1;
    }
  }

  method AppendZeros(bb: BitBuffer, n: nat)
    requires n <= 31
    modifies bb
    ensures bb.bits == old(bb.bits) + Zeros(n)
  {
    ExpPositive(n);
    ZeroField(n);
    bb.Push(0, n);
  }

  method AppendByte(bb: BitBuffer, b: Byte)
    modifies bb
    ensures bb.bits == old(bb.bits) + b
  {
    Widths();
    ValueBound(b);
    FieldOfValue(b);
    bb.Push(Value(b), 8);
  }

  // ---- Packing --------------------------------------------------------------------------------------------

  /** Packs bits into bytes in big endian. */
  method Pack(bits: seq<bool>) returns (codewords: seq<Byte>)
    requires |bits| % 8 == 0
    ensures |codewords| == |bits| / 8 && Symbol.CodewordBits(codewords) == bits
  {
    codewords := seq(|bits| / 8, _ => ZERO);
    for i := 0 to |bits|
      invariant |codewords| == |bits| / 8
      invariant forall k :: 0 <= k < i ==> codewords[k / 8][k % 8] == bits[k]
      invariant forall k :: i <= k < |bits| ==> !codewords[k / 8][k % 8]
    {
      var b: Byte := codewords[i / 8];
      codewords := codewords[i / 8 := b[i % 8 := b[i % 8] || bits[i]]];
    }
  }

  // ---- encodeSegments ---------------------------------------------------------------------------------------

  datatype Outcome = Encoded(version: nat, ecl: Ecc, codewords: seq<Byte>) | DataTooLong | InvalidValue

  method FindVersion(segs: seq<Segment>, ecl: Ecc, minVersion: nat, maxVersion: nat)
      returns (found: bool, version: nat, used: int)
    requires minVersion <= maxVersion
    ensures found ==> minVersion <= version <= maxVersion
    ensures found ==> Fits(segs, version, ecl) && used == TotalBits(segs, version)
    ensures found ==> forall v :: minVersion <= v < version ==> !Fits(segs, v, ecl)
    ensures !found ==> forall v :: minVersion <= v <= maxVersion ==> !Fits(segs, v, ecl)
  {
    hide NumDataCodewords, TotalBits;
    version := minVersion;
    while true
      invariant minVersion <= version <= maxVersion
      invariant forall v :: minVersion <= v < version ==> !Fits(segs, v, ecl)
      decreases maxVersion - version
    {
      var capacity := NumDataCodewords(version, ecl) * 8;
      used := GetTotalBits(segs, version);
      if used != -1 && used <= capacity {
        return true, version, used;
      }
      if version >= maxVersion {
        return false, version, used;
      }
      version := version + 1;
    }
  }

  method AppendSegment(bb: BitBuffer, seg: Segment, ver: nat)
    requires CountFits(seg, ver)
    modifies bb
    ensures bb.bits == old(bb.bits) + SegmentBits(seg, ver)
  {
    Widths();
    hide Field, Exp2;
    bb.Push(ModeBits(seg.mode), 4);
    bb.Push(seg.numChars, CharCountBits(seg.mode, ver));
    bb.bits := bb.bits + seg.data;
  }

  /** The concatenation loop; every append passes its range check. */
  method Concatenate(segs: seq<Segment>, ver: nat) returns (bb: BitBuffer)
    requires TotalBits(segs, ver) != -1
    ensures fresh(bb) && bb.bits == AllBits(segs, ver) && |bb.bits| == TotalBits(segs, ver)
  {
    TotalIsLength(segs, ver);
    EmptyBits(ver);
    hide SegmentBits, TotalBits, CountFits;
    bb := new BitBuffer();
    for i := 0 to |segs|
      invariant bb.bits == AllBits(segs[..i], ver)
    {
      assert segs[..i + 1][..i] == segs[..i];
      AppendSegment(bb, segs[i], ver);
    }
    assert segs[..|segs|] == segs;
  }

  /** encodeSegments, without the drawing of the symbol. */
  method EncodeSegments(segs: seq<Segment>, ecl: Ecc, minVersion: int, maxVersion: int, mask: int, boost: bool)
      returns (r: Outcome)
    ensures r.InvalidValue? <==> !(1 <= minVersion <= maxVersion <= 40) || mask < -1 || mask > 7
    ensures r.DataTooLong? ==> forall v :: minVersion <= v <= maxVersion ==> !Fits(segs, v, ecl)
    ensures r.Encoded? ==> minVersion <= r.version <= maxVersion && Fits(segs, r.version, ecl)
    ensures r.Encoded? ==> forall v :: minVersion <= v < r.version ==> !Fits(segs, v, ecl)
    ensures r.Encoded? ==> IsBoosted(segs, r.version, ecl, boost, r.ecl)
    ensures r.Encoded? ==> |r.codewords| == NumDataCodewords(r.version, r.ecl)
    ensures r.Encoded? ==>
              var bits := AllBits(segs, r.version);
              && |bits| <= 8 * |r.codewords|
              && Symbol.CodewordBits(r.codewords) == bits + PaddingOf(bits, |r.codewords|)
  {
    if !(MIN_VERSION <= minVersion && minVersion <= maxVersion && maxVersion <= MAX_VERSION) || mask < -1 || mask > 7 {
      return InvalidValue;
    }
    hide *;
    var found, version, used := FindVersion(segs, ecl, minVersion, maxVersion);
    if !found {
      return DataTooLong;
    }
    var chosen := BoostLevel(segs, version, ecl, boost, used);
    BoostedFits(segs, version, ecl, boost, chosen);
    var codewords := Fill(segs, version, chosen);
    r := Encoded(version, chosen, codewords);
  }

  lemma BoostedFits(segs: seq<Segment>, ver: nat, ecl: Ecc, boost: bool, chosen: Ecc)
    requires IsBoosted(segs, ver, ecl, boost, chosen)
    ensures Fits(segs, ver, chosen)
  {
    hide Fits;
  }

  /** The segments of a version that holds them, padded to its capacity and packed into bytes. */
  method Fill(segs: seq<Segment>, ver: nat, ecl: Ecc) returns (codewords: seq<Byte>)
    requires Fits(segs, ver, ecl)
    ensures |codewords| == NumDataCodewords(ver, ecl)
    ensures |AllBits(segs, ver)| <= 8 * |codewords|
    ensures Symbol.CodewordBits(codewords) == AllBits(segs, ver) + PaddingOf(AllBits(segs, ver), |codewords|)
  {
    hide NumDataCodewords, TotalBits, Padding, AllBits, Symbol.CodewordBits;
    var bb := Concatenate(segs, ver);
    var capacity := NumDataCodewords(ver, ecl) * 8;
    AppendPadding(bb, capacity);
    codewords := Pack(bb.bits);
  }

  /** Whatever encodeSegments returns for made segments parses back to their contents. */
  lemma EncodedReadBack(cs: seq<Content>, ver: nat, codewords: seq<Byte>)
    requires forall i :: 0 <= i < |cs| ==> Encodable(cs[i])
    requires TotalBits(EncodedAll(cs), ver) != -1
    requires |AllBits(EncodedAll(cs), ver)| <= 8 * |codewords|
    requires Symbol.CodewordBits(codewords) ==
               AllBits(EncodedAll(cs), ver) + PaddingOf(AllBits(EncodedAll(cs), ver), |codewords|)
    ensures ReadStream(Symbol.CodewordBits(codewords), ver) ==
              Read(cs, PaddingOf(AllBits(EncodedAll(cs), ver), |codewords|))
  {
    hide AllBits, TotalBits, Padding, ReadStream, CountFits, Encodable;
    var segs := EncodedAll(cs);
    TotalIsLength(segs, ver);
    forall i | 0 <= i < |cs| ensures CountFits(SegmentParser.Encoded(cs[i]), ver) {
      assert CountFits(segs[i], ver);
    }
    PaddingEndsStream(|AllBits(segs, ver)|, 8 * |codewords|);
    StreamReadBack(cs, ver, PaddingOf(AllBits(segs, ver), |codewords|));
  }
}
