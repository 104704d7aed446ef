/**
 The whole encoder, and a reader that undoes it: from a finished symbol to the contents the
 segments were made from.
 */
module Pipeline {
  import opened GaloisField
  import opened Zigzag
  import opened Masking
  import opened Interleave
  import opened Deinterleave
  import opened Tables
  import opened SegmentParser
  import opened Symbol
  import Encoder
  import Segments

  /** The grid before masking, with all codewords drawn. */
  function Plain(base: Grid, isFunction: Grid, ecl: Ecc, ver: nat, data: seq<Byte>): (d: Drawing)
    requires IsSquare(base, |base|) && IsSquare(isFunction, |base|) && ValidSize(|base|)
    requires 1 <= ver <= 40 && |data| == NumDataCodewords(ver, ecl)
    ensures |d.grid| == |base| && IsSquare(d.grid, |base|)
  {
    ScanInGrid(|base|);
    Draw(base, isFunction, Scan(|base|), CodewordBits(Interleaved(LayoutOf(ecl, ver), data)))
  }

  /** The body of the QrCode constructor once the function patterns are drawn. */
  method Build(q: QrCode, ver: nat, data: seq<Byte>, msk: int) returns (status: Status)
    requires q.Valid() && FormatIsFunction(q.isFunction) && 1 <= ver <= 40 && -1 <= msk <= 7
    requires |data| == NumDataCodewords(ver, q.errorCorrectionLevel)
    modifies q
    ensures q.Valid() && q.isFunction == old(q.isFunction)
    ensures status.Done? ==>
              var plain := Plain(old(q.modules), q.isFunction, q.errorCorrectionLevel, ver, data);
              && plain.used == 8 * (RawDataModules(ver) / 8)
              && 0 <= q.mask <= 7 && (msk >= 0 ==> q.mask == msk)
              && (msk == -1 ==> IsBest(plain.grid, q.isFunction, q.errorCorrectionLevel, q.mask, 8))
              && q.modules == Candidate(plain.grid, q.isFunction, q.errorCorrectionLevel, q.mask)
    ensures !status.Done? ==>
              var plain := Plain(old(q.modules), q.isFunction, q.errorCorrectionLevel, ver, data);
              plain.used < 8 * (RawDataModules(ver) / 8)
  {
    hide RawDataModules, NumDataCodewords, Draw, Scan, Interleaved, Candidate, IsBest, CodewordBits, FormatIsFunction;
    var l := LayoutOf(q.errorCorrectionLevel, ver);
    var all := AddEccAndInterleave(l, data);
    status := q.DrawCodewords(all.codewords, RawDataModules(ver));
    if status != Done {
      return;
    }
    status := q.Finish(msk);
  }

  // ---- The reader -----------------------------------------------------------------------------------

  /** The fifteen format bits of the first copy, highest first. */
  function FormatRead(grid: Grid): (w: seq<bool>)
    requires IsSquare(grid, |grid|) && |grid| >= 21
    ensures |w| == 15
  {
    seq(15, i requires 0 <= i < 15 => FormatCellsDistinct(|grid|, 14 - i, 14 - i); At(grid, FormatCell(|grid|, 14 - i)))
  }

  function BytesFrom(bits: seq<bool>): (data: seq<Byte>)
    requires |bits| % 8 == 0
    ensures |data| == |bits| / 8
  {
    seq(|bits| / 8, i requires 0 <= i < |bits| / 8 => ByteFrom(bits, i))
  }

  function ByteFrom(bits: seq<bool>, i: nat): Byte
    requires 8 * i + 8 <= |bits|
  {
    bits[8 * i..8 * i + 8]
  }

  /** Unmask, then collect the free modules in scan order. */
  function BitsRead(grid: Grid, isFunction: Grid, mask: nat): seq<bool>
    requires IsSquare(grid, |grid|) && IsSquare(isFunction, |grid|) && ValidSize(|grid|)
  {
    ScanInGrid(|grid|);
    ModulesAt(Masked(grid, isFunction, mask), Free(isFunction, Scan(|grid|)))
  }

  /** De-interleave the codewords and parse their data. */
  function DecodeStream(l: Layout, bits: seq<bool>, ver: nat): Parsed<seq<Content>>
    requires l.Valid() && |bits| == 8 * l.RawCodewords()
  {
    hide Layout.RawCodewords, ReadStream, ReadAllData, CodewordBits;
    LayoutTotals(l);
    ReadStream(CodewordBits(ReadAllData(l, BytesFrom(bits), l.numBlocks)), ver)
  }

  /** Reads a symbol of known version whose level and mask come from its format bits. */
  function Decode(grid: Grid, isFunction: Grid, ver: nat, ecl: Ecc, mask: nat): Parsed<seq<Content>>
    requires IsSquare(grid, |grid|) && IsSquare(isFunction, |grid|) && ValidSize(|grid|) && 1 <= ver <= 40
  {
    hide RawDataModules, Layout.RawCodewords;
    var l := LayoutOf(ecl, ver);
    var n := 8 * l.RawCodewords();
    var bits := BitsRead(grid, isFunction, mask);
    if |bits| < n then Malformed else DecodeStream(l, bits[..n], ver)
  }

  // ---- Round trip ---------------------------------------------------------------------------------------

  lemma BytesFromBits(data: seq<Byte>)
    ensures BytesFrom(CodewordBits(data)) == data
  {
    var bits := CodewordBits(data);
    forall i | 0 <= i < |data| ensures ByteFrom(bits, i) == data[i] {
      forall j | 0 <= j < 8 ensures ByteFrom(bits, i)[j] == data[i][j] {
        assert (8 * i + j) / 8 == i && (8 * i + j) % 8 == j;
      }
    }
  }

  /** The format modules name this level and mask. */
  ghost predicate FormatSays(grid: Grid, ecl: Ecc, mask: nat)
    requires IsSquare(grid, |grid|) && |grid| >= 21
  {
    mask < 8 && FormatRead(grid)[..5] == FormatWord(ecl, mask)[..5]
  }

  lemma OwnFormat(g: Grid, isFunction: Grid, ecl: Ecc, mask: nat)
    requires IsSquare(g, |g|) && IsSquare(isFunction, |g|) && |g| >= 21 && mask < 8
    ensures FormatSays(Candidate(g, isFunction, ecl, mask), ecl, mask)
  {
    hide FormatWord, Masked, WithFormat, FormatCell;
    var w, r := FormatWord(ecl, mask), FormatRead(Candidate(g, isFunction, ecl, mask));
    forall i | 0 <= i < 5 ensures w[..5][i] == r[..5][i] {
      FormatModuleAt(Masked(g, isFunction, mask), w, FORMAT_MODULES, 14 - i);
    }
    assert r[..5] == w[..5];
  }

  /** The symbol's own format bits give away the level and mask that were used. */
  lemma FormatBitsIdentify(g: Grid, isFunction: Grid, ecl: Ecc, mask: nat, ecl': Ecc, mask': nat)
    requires IsSquare(g, |g|) && IsSquare(isFunction, |g|) && |g| >= 21 && mask < 8 && mask' < 8
    requires FormatRead(Candidate(g, isFunction, ecl, mask))[..5] == FormatWord(ecl', mask')[..5]
    ensures ecl' == ecl && mask' == mask
  {
    hide FormatWord, Candidate, FormatRead;
    OwnFormat(g, isFunction, ecl, mask);
    FormatReadBack(ecl, mask, ecl', mask');
  }

  /** Unmasking the finished symbol exposes the drawn codeword bits. */
  lemma DrawnBitsReadBack(base: Grid, isFunction: Grid, ecl: Ecc, ver: nat, data: seq<Byte>, mask: nat)
    requires HasRoom(base, isFunction, ecl, ver, data)
    ensures var bits := BitsRead(Finished(base, isFunction, ecl, ver, data, mask), isFunction, mask);
            var stream := CodewordBits(Interleaved(LayoutOf(ecl, ver), data));
            |stream| == 8 * (RawDataModules(ver) / 8) <= |bits| && bits[..|stream|] == stream
  {
    hide RawDataModules, NumDataCodewords, Interleaved, FormatWord, WithFormat, Inverts;
    var l, size := LayoutOf(ecl, ver), |base|;
    LayoutTotals(l);
    var stream := CodewordBits(Interleaved(l, data));
    ScanInGrid(size);
    var cells := Scan(size);
    var d, free := Draw(base, isFunction, cells, stream), Free(isFunction, cells);
    DataReadBack(l, data);
    assert |stream| == 8 * (RawDataModules(ver) / 8);
    hide Draw, Scan;
    DrawReadBack(base, isFunction, stream);
    var word := FormatWord(ecl, mask);
    MaskFormatCommute(Masked(d.grid, isFunction, mask), isFunction, mask, word);
    MaskInvolution(d.grid, isFunction, mask);
    hide Free;
    var open := FormatDrawn(d.grid, word);
    forall k | 0 <= k < |stream| ensures At(open, free[k]) == stream[k] {
      assert ModulesAt(d.grid, free)[..|stream|][k] == At(d.grid, free[k]);
      assert free[k] in free;
      FormatFrame(d.grid, word, FORMAT_MODULES, free[k]);
    }
    assert ModulesAt(open, free)[..|stream|] == stream;
  }

  /** The codewords are those encodeSegments makes of the contents' segments. */
  ghost predicate AreCodewordsOf(cs: seq<Content>, ver: nat, data: seq<Byte>) {
    && (forall i :: 0 <= i < |cs| ==> Encodable(cs[i]))
    && Encoder.TotalBits(EncodedAll(cs), ver) != -1
    && var bits := AllBits(EncodedAll(cs), ver);
    && |bits| <= 8 * |data|
    && CodewordBits(data) == bits + Encoder.PaddingOf(bits, |data|)
  }

  /** The function patterns leave room for every codeword. */
  ghost predicate HasRoom(base: Grid, isFunction: Grid, ecl: Ecc, ver: nat, data: seq<Byte>) {
    && IsSquare(base, |base|) && |isFunction| == |base| && ValidSize(|base|) && FormatIsFunction(isFunction)
    && 1 <= ver <= 40 && |data| == NumDataCodewords(ver, ecl)
    && Plain(base, isFunction, ecl, ver, data).used == 8 * (RawDataModules(ver) / 8)
  }

  /** The finished symbol, as Build leaves it. */
  ghost function Finished(base: Grid, isFunction: Grid, ecl: Ecc, ver: nat, data: seq<Byte>, mask: nat): (g: Grid)
    requires HasRoom(base, isFunction, ecl, ver, data)
    ensures |g| == |base| && IsSquare(g, |base|)
  {
    Candidate(Plain(base, isFunction, ecl, ver, data).grid, isFunction, ecl, mask)
  }

  /** End to end: for every list of made segments that fits, every mask and every function grid
      with room, the finished symbol decodes to the contents of the segments, using only the
      level and mask recorded in its own format bits. */
  lemma SymbolReadBack(cs: seq<Content>, ver: nat, ecl: Ecc, data: seq<Byte>, base: Grid, isFunction: Grid,
                       mask: nat, ecl': Ecc, mask': nat)
    requires AreCodewordsOf(cs, ver, data) && HasRoom(base, isFunction, ecl, ver, data) && mask < 8
    requires FormatSays(Finished(base, isFunction, ecl, ver, data, mask), ecl', mask')
    ensures var decoded := Decode(Finished(base, isFunction, ecl, ver, data, mask), isFunction, ver, ecl', mask');
            decoded.Read? && decoded.value == cs
  {
    hide RawDataModules, NumDataCodewords, Interleaved, CodewordBits, ReadAllData, BitsRead, Candidate, AllBits, Plain,
         Encoder.Padding, Encoder.TotalBits, ReadStream, FormatRead, FormatWord, Draw, Encodable, EncodedAll, BytesFrom,
         Layout.RawCodewords;
    var plain := Plain(base, isFunction, ecl, ver, data).grid;
    FormatBitsIdentify(plain, isFunction, ecl, mask, ecl', mask');
    DrawnBitsReadBack(base, isFunction, ecl, ver, data, mask);
    var l := LayoutOf(ecl, ver);
    BytesFromBits(Interleaved(l, data));
    DataReadBack(l, data);
    Encoder.EncodedReadBack(cs, ver, data);
  }

  // ---- From segments to modules and back ----------------------------------------------------------------

  /** What drawFunctionPatterns leaves: the modules it draws, and which modules are its own. */
  datatype Patterns = Patterns(modules: Grid, isFunction: Grid)

  ghost predicate PatternsOk(p: Patterns, ver: nat) {
    && |p.modules| == 4 * ver + 17 && IsSquare(p.modules, |p.modules|)
    && IsSquare(p.isFunction, |p.modules|) && FormatIsFunction(p.isFunction)
  }

  /** The symbol names one level and mask, and decodes with them to the contents. */
  ghost predicate DecodesTo(grid: Grid, isFunction: Grid, ver: nat, cs: seq<Content>)
    requires IsSquare(grid, |grid|) && IsSquare(isFunction, |grid|) && ValidSize(|grid|) && |grid| >= 21
    requires 1 <= ver <= 40
  {
    && (exists ecl, mask :: FormatSays(grid, ecl, mask))
    && forall ecl, mask :: FormatSays(grid, ecl, mask) ==>
         var d := Decode(grid, isFunction, ver, ecl, mask); d.Read? && d.value == cs
  }

  lemma FinishedDecodes(cs: seq<Content>, ver: nat, ecl: Ecc, data: seq<Byte>, p: Patterns, mask: nat)
    requires AreCodewordsOf(cs, ver, data) && PatternsOk(p, ver) && mask < 8
    requires HasRoom(p.modules, p.isFunction, ecl, ver, data)
    ensures DecodesTo(Finished(p.modules, p.isFunction, ecl, ver, data, mask), p.isFunction, ver, cs)
  {
    hide RawDataModules, NumDataCodewords, AreCodewordsOf, Plain, Decode, Candidate, FormatSays, FormatIsFunction;
    var g := Finished(p.modules, p.isFunction, ecl, ver, data, mask);
    OwnFormat(Plain(p.modules, p.isFunction, ecl, ver, data).grid, p.isFunction, ecl, mask);
    assert FormatSays(g, ecl, mask);
    forall ecl', mask' | FormatSays(g, ecl', mask')
      ensures var d := Decode(g, p.isFunction, ver, ecl', mask'); d.Read? && d.value == cs
    {
      SymbolReadBack(cs, ver, ecl, data, p.modules, p.isFunction, mask, ecl', mask');
    }
  }

  lemma FittingIsEncoded(cs: seq<Content>, ver: nat, ecl: Ecc, data: seq<Byte>)
    requires (forall i :: 0 <= i < |cs| ==> Encodable(cs[i])) && Encoder.Fits(EncodedAll(cs), ver, ecl)
    requires var bits := AllBits(EncodedAll(cs), ver);
             |bits| <= 8 * |data| && CodewordBits(data) == bits + Encoder.PaddingOf(bits, |data|)
    ensures AreCodewordsOf(cs, ver, data)
  {
    hide Encodable, EncodedAll, AllBits, CodewordBits, Encoder.Padding, Encoder.TotalBits;
  }

  /**
   encodeSegments with the drawing of the symbol, for given function patterns: the smallest version
   that fits, and modules that decode to the contents the segments were made of.
   */
  method EncodeSymbol(segs: seq<Segments.Segment>, ghost cs: seq<Content>, ecl: Ecc, minVersion: int,
                      maxVersion: int, mask: int, boost: bool, patterns: nat -> Patterns)
      returns (r: Encoder.Outcome, status: Status, q: QrCode?)
    requires segs == EncodedAll(cs) && forall i :: 0 <= i < |cs| ==> Encodable(cs[i])
    requires forall v :: 1 <= v <= 40 ==> PatternsOk(patterns(v), v)
    ensures r.InvalidValue? <==> !(1 <= minVersion <= maxVersion <= 40) || mask < -1 || mask > 7
    ensures r.DataTooLong? ==> forall v :: minVersion <= v <= maxVersion ==> !Encoder.Fits(segs, v, ecl)
    ensures r.Encoded? ==>
              && minVersion <= r.version <= maxVersion && Encoder.Fits(segs, r.version, ecl)
              && (forall v :: minVersion <= v < r.version ==> !Encoder.Fits(segs, v, ecl))
              && q != null && fresh(q) && q.Valid() && q.errorCorrectionLevel == r.ecl
              && q.size == 4 * r.version + 17 && q.isFunction == patterns(r.version).isFunction
              && (status.Done? <==> HasRoom(patterns(r.version).modules, q.isFunction, r.ecl, r.version, r.codewords))
              && (status.Done? ==> DecodesTo(q.modules, q.isFunction, r.version, cs))
  {
    hide RawDataModules, NumDataCodewords, Plain, AllBits, EncodedAll, Encodable, FormatIsFunction, CodewordBits,
         Encoder.Fits, Encoder.IsBoosted, Encoder.Padding, DecodesTo, AreCodewordsOf;
    status, q := Status.InvalidArgument, null;
    r := Encoder.EncodeSegments(segs, ecl, minVersion, maxVersion, mask, boost);
    if r.Encoded? {
      var p := patterns(r.version);
      q := new QrCode(4 * r.version + 17, r.ecl);
      q.modules, q.isFunction := p.modules, p.isFunction;
      status := Build(q, r.version, r.codewords, mask);
      if status.Done? {
        FittingIsEncoded(cs, r.version, ecl, r.codewords);
        FinishedDecodes(cs, r.version, r.ecl, r.codewords, p, q.mask);
      }
    }
  }
}
