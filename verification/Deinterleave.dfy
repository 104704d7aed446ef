/**
 The reader's side of interleaving: every data block and its error-correction bytes are
 recovered, and light damage to an interleaved stream always shows in some block.
 */
module Deinterleave {
  import opened GaloisField
  import opened ReedSolomon
  import opened CodeDistance
  import opened Interleave

  ghost predicate IsStream(l: Layout, w: seq<Byte>)
    requires l.Valid()
  {
    |w| == l.Offset(l.shortBlockLen + 1)
  }

  lemma {:induction false} OffsetMonotone(l: Layout, i: nat, j: nat)
    requires l.Valid() && i <= j
    ensures l.Offset(i) <= l.Offset(j)
  {
    if i < j {
      OffsetMonotone(l, i, j - 1);
    }
  }

  /** The byte of a block found in a column. */
  function ReadByte(l: Layout, w: seq<Byte>, block: nat, column: nat): Byte
    requires l.Valid() && IsStream(l, w)
    requires column <= l.shortBlockLen && l.FirstIn(column) <= block < l.numBlocks
  {
    OffsetMonotone(l, column + 1, l.shortBlockLen + 1);
    w[l.Offset(column) + block - l.FirstIn(column)]
  }

  function ReadData(l: Layout, w: seq<Byte>, block: nat): seq<Byte>
    requires l.Valid() && IsStream(l, w) && block < l.numBlocks
  {
    seq(l.DataLen(block), c requires 0 <= c < l.DataLen(block) => ReadByte(l, w, block, c))
  }

  function EccByte(l: Layout, w: seq<Byte>, block: nat, i: nat): Byte
    requires l.Valid() && IsStream(l, w) && block < l.numBlocks && i < l.blockEccLen
  {
    ReadByte(l, w, block, l.PadColumn() + 1 + i)
  }

  function ReadEcc(l: Layout, w: seq<Byte>, block: nat): seq<Byte>
    requires l.Valid() && IsStream(l, w) && block < l.numBlocks
  {
    seq(l.blockEccLen, c requires 0 <= c < l.blockEccLen => EccByte(l, w, block, c))
  }

  function ReadAllData(l: Layout, w: seq<Byte>, n: nat): seq<Byte>
    requires l.Valid() && IsStream(l, w) && n <= l.numBlocks
  {
    if n == 0 then [] else ReadAllData(l, w, n - 1) + ReadData(l, w, n - 1)
  }

  // ---- Round trip -----------------------------------------------------------------------

  lemma {:induction false} ColumnsAt(l: Layout, blocks: seq<seq<Byte>>, n: nat, block: nat, column: nat)
    requires l.Valid() && Rectangular(l, blocks) && column < n <= l.shortBlockLen + 1
    requires l.FirstIn(column) <= block < l.numBlocks
    ensures 0 <= l.Offset(column) + block - l.FirstIn(column) < l.Offset(n)
    ensures Columns(l, blocks, n)[l.Offset(column) + block - l.FirstIn(column)] == blocks[block][column]
  {
    if column < n - 1 {
      ColumnsAt(l, blocks, n - 1, block, column);
    }
  }

  /** Every block and its error-correction bytes are read back; pad bytes are never emitted. */
  lemma BlocksReadBack(l: Layout, data: seq<Byte>, block: nat)
    requires l.Valid() && |data| == l.NumDataCodewords() && block < l.numBlocks
    ensures IsStream(l, Interleaved(l, data))
    ensures l.Start(block + 1) <= |data|
    ensures ReadData(l, Interleaved(l, data), block) == DataBlock(l, data, block)
    ensures ReadEcc(l, Interleaved(l, data), block) == EccBlock(l, data, block)
  {
    hide Remainder, DivisorAfter, Layout.NumDataCodewords, Columns;
    var w, blocks, n := Interleaved(l, data), AllStored(l, data), l.shortBlockLen + 1;
    BlockFits(l, data, block);
    var d, e := DataBlock(l, data, block), EccBlock(l, data, block);
    var stored := Stored(l, data, block);
    assert blocks[block] == stored;
    forall c | 0 <= c < l.DataLen(block)
      ensures ReadByte(l, w, block, c) == d[c]
    {
      ColumnsAt(l, blocks, n, block, c);
    }
    forall c | 0 <= c < l.blockEccLen
      ensures EccByte(l, w, block, c) == e[c]
    {
      ColumnsAt(l, blocks, n, block, l.PadColumn() + 1 + c);
    }
  }

  lemma {:induction false} DataPrefixReadBack(l: Layout, data: seq<Byte>, n: nat)
    requires l.Valid() && |data| == l.NumDataCodewords() && n <= l.numBlocks
    ensures IsStream(l, Interleaved(l, data)) && l.Start(n) <= |data|
    ensures ReadAllData(l, Interleaved(l, data), n) == data[..l.Start(n)]
  {
    hide Layout.NumDataCodewords, Interleaved, DataBlock;
    if n == 0 {
      BlocksReadBack(l, data, 0);
    } else {
      DataPrefixReadBack(l, data, n - 1);
      BlocksReadBack(l, data, n - 1);
      JoinPrefix(l, data, n - 1);
    }
  }

  lemma JoinPrefix(l: Layout, data: seq<Byte>, block: nat)
    requires l.Valid() && l.Start(block + 1) <= |data|
    ensures data[..l.Start(block + 1)] == data[..l.Start(block)] + DataBlock(l, data, block)
  {
  }

  /** De-interleaving is a left inverse of interleaving. */
  lemma DataReadBack(l: Layout, data: seq<Byte>)
    requires l.Valid() && |data| == l.NumDataCodewords()
    ensures IsStream(l, Interleaved(l, data))
    ensures ReadAllData(l, Interleaved(l, data), l.numBlocks) == data
  {
    hide Layout.NumDataCodewords, Interleaved, ReadAllData, Layout.Start;
    LayoutTotals(l);
    DataPrefixReadBack(l, data, l.numBlocks);
    assert data[..|data|] == data;
  }

  // ---- Damage -----------------------------------------------------------------------------

  function BlockWord(l: Layout, w: seq<Byte>, block: nat): (r: seq<Byte>)
    requires l.Valid() && IsStream(l, w) && block < l.numBlocks
    ensures |r| == l.DataLen(block) + l.blockEccLen
  {
    ReadData(l, w, block) + ReadEcc(l, w, block)
  }

  /** Every stream position is some block's byte. */
  lemma {:induction false} Locate(l: Layout, n: nat, index: nat) returns (block: nat, column: nat)
    requires l.Valid() && n <= l.shortBlockLen + 1 && index < l.Offset(n)
    ensures column < n && l.FirstIn(column) <= block < l.numBlocks
    ensures index == l.Offset(column) + block - l.FirstIn(column)
  {
    if index < l.Offset(n - 1) {
      block, column := Locate(l, n - 1, index);
    } else {
      column := n - 1;
      block := index - l.Offset(column) + l.FirstIn(column);
    }
  }

  /** A stream is determined by its blocks. */
  lemma StreamDetermined(l: Layout, v: seq<Byte>, w: seq<Byte>)
    requires l.Valid() && IsStream(l, v) && IsStream(l, w)
    requires forall j :: 0 <= j < l.numBlocks ==> BlockWord(l, v, j) == BlockWord(l, w, j)
    ensures v == w
  {
    hide Layout.Offset;
    forall i | 0 <= i < |v| ensures v[i] == w[i] {
      var block, column := Locate(l, l.shortBlockLen + 1, i);
      var d := l.DataLen(block);
      var p, q := BlockWord(l, v, block), BlockWord(l, w, block);
      if column <= l.PadColumn() {
        assert p[column] == v[i] && q[column] == w[i];
      } else {
        var c := column - l.PadColumn() - 1;
        assert l.PadColumn() + 1 + c == column;
        assert ReadEcc(l, v, block)[c] == ReadByte(l, v, block, column);
        assert ReadEcc(l, w, block)[c] == ReadByte(l, w, block, column);
        assert p[d + c] == ReadEcc(l, v, block)[c] == v[i];
        assert q[d + c] == ReadEcc(l, w, block)[c] == w[i];
      }
    }
  }

  lemma EmittedBlockWord(l: Layout, data: seq<Byte>, block: nat)
    requires l.Valid() && |data| == l.NumDataCodewords() && block < l.numBlocks
    ensures IsStream(l, Interleaved(l, data)) && l.Start(block + 1) <= |data|
    ensures BlockWord(l, Interleaved(l, data), block) == Codeword(DataBlock(l, data, block), l.blockEccLen)
    ensures IsCodeword(BlockWord(l, Interleaved(l, data), block), l.blockEccLen)
  {
    hide Layout.NumDataCodewords, Interleaved, Remainder, DivisorAfter, Pow, Eval, ReadData, ReadEcc, DataBlock;
    BlocksReadBack(l, data, block);
    var d, e := DataBlock(l, data, block), l.blockEccLen;
    forall k | 0 <= k < e ensures Eval(Codeword(d, e), Pow(TWO, k)) == ZERO {
      CodewordVanishes(d, e, k);
    }
  }

  /** A received stream that differs from the emitted one, by at most blockEccLen bytes in
      each block, fails the root test in some block. */
  lemma DamageShows(l: Layout, data: seq<Byte>, w: seq<Byte>)
    requires l.Valid() && l.shortBlockLen < 255 && |data| == l.NumDataCodewords()
    requires IsStream(l, w) && IsStream(l, Interleaved(l, data)) && w != Interleaved(l, data)
    requires forall j :: 0 <= j < l.numBlocks ==>
               Distance(BlockWord(l, w, j), BlockWord(l, Interleaved(l, data), j)) <= l.blockEccLen
    ensures exists j :: 0 <= j < l.numBlocks && !IsCodeword(BlockWord(l, w, j), l.blockEccLen)
  {
    hide Layout.NumDataCodewords, Interleaved, BlockWord, Distance, IsCodeword, Layout.Offset;
    var v := Interleaved(l, data);
    if forall j :: 0 <= j < l.numBlocks ==> IsCodeword(BlockWord(l, w, j), l.blockEccLen) {
      forall j | 0 <= j < l.numBlocks ensures BlockWord(l, v, j) == BlockWord(l, w, j) {
        EmittedBlockWord(l, data, j);
        var p, q := BlockWord(l, w, j), BlockWord(l, v, j);
        if p != q {
          CodewordsFarApart(p, q, l.blockEccLen);
        }
      }
      StreamDetermined(l, v, w);
    }
  }

  /** A received stream that is within blockEccLen / 2 bytes of an emitted one in each block is so for one data only. */
  lemma DamageIsCorrectable(l: Layout, a: seq<Byte>, b: seq<Byte>, w: seq<Byte>)
    requires l.Valid() && l.shortBlockLen < 255 && |a| == |b| == l.NumDataCodewords() && IsStream(l, w)
    requires IsStream(l, Interleaved(l, a)) && IsStream(l, Interleaved(l, b))
    requires forall j :: 0 <= j < l.numBlocks ==>
               && Distance(BlockWord(l, Interleaved(l, a), j), BlockWord(l, w, j)) <= l.blockEccLen / 2
               && Distance(BlockWord(l, Interleaved(l, b), j), BlockWord(l, w, j)) <= l.blockEccLen / 2
    ensures a == b
  {
    hide Layout.NumDataCodewords, Interleaved, BlockWord, Distance, IsCodeword, Layout.Offset, ReadAllData;
    var u, v := Interleaved(l, a), Interleaved(l, b);
    forall j | 0 <= j < l.numBlocks ensures BlockWord(l, u, j) == BlockWord(l, v, j) {
      EmittedBlockWord(l, a, j);
      EmittedBlockWord(l, b, j);
      CorrectionIsUnique(BlockWord(l, u, j), BlockWord(l, v, j), BlockWord(l, w, j), l.blockEccLen);
    }
    StreamDetermined(l, u, v);
    DataReadBack(l, a);
    DataReadBack(l, b);
  }
}
