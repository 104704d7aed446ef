/**
 Block splitting and interleaving (addEccAndInterleave), for any number of blocks, any
 error-correction length and any raw codeword count rather than the forty versions one by one.
 */
module Interleave {
  import opened GaloisField
  import opened ReedSolomon

  /** The parameter numbers of addEccAndInterleave. */
  datatype Layout = Layout(numBlocks: nat, numShortBlocks: nat, shortBlockLen: nat, blockEccLen: nat) {

    ghost predicate Valid() {
      1 <= numShortBlocks <= numBlocks && 1 <= blockEccLen <= 255 && blockEccLen <= shortBlockLen
    }

    function RawCodewords(): nat
      requires numShortBlocks <= numBlocks
    {
      shortBlockLen * numBlocks + (numBlocks - numShortBlocks)
    }

    /** Data bytes of a short block; also the column holding a short block's pad slot. */
    function PadColumn(): nat
      requires Valid()
    {
      shortBlockLen - blockEccLen
    }

    function DataLen(block: nat): nat
      requires Valid()
    {
      PadColumn() + (if block < numShortBlocks then 0 else 1)
    }

    /** Offset in the data of a block's first byte. */
    function Start(block: nat): nat
      requires Valid()
    {
      if block == 0 then 0 else Start(block - 1) + DataLen(block - 1)
    }

    function NumDataCodewords(): int
      requires numShortBlocks <= numBlocks
    {
      RawCodewords() - blockEccLen * numBlocks
    }

    /** First block that contributes to a column: the pad slots of short blocks are skipped. */
    function FirstIn(column: nat): nat
      requires Valid()
    {
      if column == PadColumn() then numShortBlocks else 0
    }

    /** Bytes emitted before a column. */
    function Offset(column: nat): nat
      requires Valid()
    {
      if column == 0 then 0 else Offset(column - 1) + (numBlocks - FirstIn(column - 1))
    }
  }

  /** The derivation at the head of addEccAndInterleave. */
  function Derive(numBlocks: nat, blockEccLen: nat, rawCodewords: nat): (l: Layout)
    requires numBlocks >= 1
    ensures 1 <= l.numShortBlocks <= l.numBlocks == numBlocks && l.blockEccLen == blockEccLen
    ensures l.RawCodewords() == rawCodewords
  {
    Layout(numBlocks, numBlocks - rawCodewords % numBlocks, rawCodewords / numBlocks, blockEccLen)
  }

  // ---- Arithmetic of the layout ---------------------------------------------------------

  lemma {:induction false} StartFormula(l: Layout, block: nat)
    requires l.Valid()
    ensures l.Start(block) == block * l.PadColumn() + (if block < l.numShortBlocks then 0 else block - l.numShortBlocks)
  {
    if block > 0 {
      StartFormula(l, block - 1);
      assert block * l.PadColumn() == (block - 1) * l.PadColumn() + l.PadColumn();
    }
  }

  lemma {:induction false} OffsetFormula(l: Layout, column: nat)
    requires l.Valid()
    ensures l.Offset(column) == column * l.numBlocks - (if column <= l.PadColumn() then 0 else l.numShortBlocks)
  {
    if column > 0 {
      OffsetFormula(l, column - 1);
      assert column * l.numBlocks == (column - 1) * l.numBlocks + l.numBlocks;
    }
  }

  lemma Distribute(b: int, s: int, e: int)
    ensures b * (s - e) == s * b - e * b
    ensures (s + 1) * b == s * b + b
  {
  }

  /** The blocks use up exactly the data and the columns exactly the raw codewords. */
  lemma LayoutTotals(l: Layout)
    requires l.Valid()
    ensures l.Start(l.numBlocks) == l.NumDataCodewords()
    ensures l.Offset(l.shortBlockLen + 1) == l.RawCodewords()
  {
    hide Layout.Start, Layout.Offset;
    StartFormula(l, l.numBlocks);
    OffsetFormula(l, l.shortBlockLen + 1);
    Distribute(l.numBlocks, l.shortBlockLen, l.blockEccLen);
  }

  lemma {:induction false} StartMonotone(l: Layout, i: nat, j: nat)
    requires l.Valid() && i <= j
    ensures l.Start(i) <= l.Start(j)
  {
    if i < j {
      StartMonotone(l, i, j - 1);
    }
  }

  // ---- Specification ------------------------------------------------------------------------

  function DataBlock(l: Layout, data: seq<Byte>, block: nat): (d: seq<Byte>)
    requires l.Valid() && l.Start(block + 1) <= |data|
    ensures |d| == l.DataLen(block)
  {
    data[l.Start(block)..l.Start(block + 1)]
  }

  function EccBlock(l: Layout, data: seq<Byte>, block: nat): (d: seq<Byte>)
    requires l.Valid() && l.Start(block + 1) <= |data|
    ensures |d| == l.blockEccLen
  {
    Remainder(DataBlock(l, data, block), Divisor(l.blockEccLen))
  }

  /** A block as stored: short blocks carry a pad byte between data and error correction. */
  function Stored(l: Layout, data: seq<Byte>, block: nat): (d: seq<Byte>)
    requires l.Valid() && l.Start(block + 1) <= |data|
    ensures |d| == l.shortBlockLen + 1
  {
    DataBlock(l, data, block) + (if block < l.numShortBlocks then [ZERO] else []) + EccBlock(l, data, block)
  }

  ghost predicate Rectangular(l: Layout, blocks: seq<seq<Byte>>)
    requires l.Valid()
  {
    |blocks| == l.numBlocks && forall j :: 0 <= j < |blocks| ==> |blocks[j]| == l.shortBlockLen + 1
  }

  function Column(l: Layout, blocks: seq<seq<Byte>>, column: nat): (c: seq<Byte>)
    requires l.Valid() && Rectangular(l, blocks) && column <= l.shortBlockLen
    ensures |c| == l.numBlocks - l.FirstIn(column)
  {
    var from := l.FirstIn(column);
    seq(l.numBlocks - from, j requires 0 <= j < l.numBlocks - from => blocks[from + j][column])
  }

  function Columns(l: Layout, blocks: seq<seq<Byte>>, n: nat): (c: seq<Byte>)
    requires l.Valid() && Rectangular(l, blocks) && n <= l.shortBlockLen + 1
    ensures |c| == l.Offset(n)
  {
    if n == 0 then [] else Columns(l, blocks, n - 1) + Column(l, blocks, n - 1)
  }

  function AllStored(l: Layout, data: seq<Byte>): (blocks: seq<seq<Byte>>)
    requires l.Valid() && |data| == l.NumDataCodewords()
    ensures Rectangular(l, blocks)
  {
    seq(l.numBlocks, j requires 0 <= j < l.numBlocks => BlockFits(l, data, j); Stored(l, data, j))
  }

  lemma BlockFits(l: Layout, data: seq<Byte>, block: nat)
    requires l.Valid() && |data| == l.NumDataCodewords() && block < l.numBlocks
    ensures l.Start(block) <= l.Start(block + 1) <= |data|
  {
    hide Layout.NumDataCodewords;
    LayoutTotals(l);
    StartMonotone(l, block + 1, l.numBlocks);
  }

  function Interleaved(l: Layout, data: seq<Byte>): seq<Byte>
    requires l.Valid() && |data| == l.NumDataCodewords()
  {
    Columns(l, AllStored(l, data), l.shortBlockLen + 1)
  }

  // ---- The code -------------------------------------------------------------------------------

  datatype Outcome = Emitted(codewords: seq<Byte>) | InvalidArgument

  method MakeBlocks(l: Layout, data: seq<Byte>) returns (blocks: seq<seq<Byte>>)
    requires l.Valid() && |data| == l.NumDataCodewords()
    ensures blocks == AllStored(l, data)
  {
    hide Remainder, DivisorAfter, Layout.NumDataCodewords;
    var rsDiv := ComputeDivisor(l.blockEccLen);
    blocks := [];
    var k := 0;
    for i := 0 to l.numBlocks
      invariant k == l.Start(i)
      invariant |blocks| == i
      invariant forall j :: 0 <= j < i ==> blocks[j] == AllStored(l, data)[j]
    {
      BlockFits(l, data, i);
      var dat := data[k..k + l.shortBlockLen - l.blockEccLen + (if i < l.numShortBlocks then 0 else 1)];
      assert dat == DataBlock(l, data, i);
      k := k + |dat|;
      var ecc := ComputeRemainder(dat, rsDiv.value);
      if i < l.numShortBlocks {
        dat := dat + [ZERO];
      }
      dat := dat + ecc;
      assert dat == Stored(l, data, i);
      blocks := blocks + [dat];
    }
  }

  /** One pass of the inner emitting loop. */
  method AppendColumn(l: Layout, blocks: seq<seq<Byte>>, i: nat, before: seq<Byte>) returns (result: seq<Byte>)
    requires l.Valid() && Rectangular(l, blocks) && i <= l.shortBlockLen
    ensures result == before + Column(l, blocks, i)
  {
    result := before;
    for j := 0 to |blocks|
      invariant j <= l.FirstIn(i) ==> result == before
      invariant j > l.FirstIn(i) ==> result == before + Column(l, blocks, i)[..j - l.FirstIn(i)]
    {
      if i != l.shortBlockLen - l.blockEccLen || j >= l.numShortBlocks {
        assert blocks[j][i] == Column(l, blocks, i)[j - l.FirstIn(i)];
        result := result + [blocks[j][i]];
      }
    }
  }

  /** addEccAndInterleave; the closing length assertion never fires. */
  method AddEccAndInterleave(l: Layout, data: seq<Byte>) returns (r: Outcome)
    requires l.Valid()
    ensures |data| != l.NumDataCodewords() ==> r.InvalidArgument?
    ensures |data| == l.NumDataCodewords() ==>
              r == Emitted(Interleaved(l, data)) && |r.codewords| == l.RawCodewords()
  {
    if |data| != l.NumDataCodewords() {
      return InvalidArgument;
    }
    hide Layout.NumDataCodewords, Layout.RawCodewords, AllStored;
    LayoutTotals(l);
    var blocks := MakeBlocks(l, data);
    var result: seq<Byte> := [];
    for i := 0 to |blocks[0]|
      invariant result == Columns(l, blocks, i)
    {
      result := AppendColumn(l, blocks, i, result);
    }
    assert |result| == l.RawCodewords();
    r := Emitted(result);
  }
}
