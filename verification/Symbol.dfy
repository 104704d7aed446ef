/**
 The QrCode object while it is being built: codewords are drawn into its grid along the
 zigzag, then a mask is chosen, applied and recorded in the format bits.
 */
module Symbol {
  import opened GaloisField
  import opened Zigzag
  import opened Masking
  import Penalty

  /** Bit i of a byte string, most significant bit of each byte first. */
  function CodewordBits(data: seq<Byte>): (bits: seq<bool>)
    ensures |bits| == 8 * |data|
  {
    seq(8 * |data|, i requires 0 <= i < 8 * |data| => data[i / 8][i % 8])
  }

  /** The grid drawn with one mask and that mask's format bits. */
  function Candidate(g: Grid, isFunction: Grid, ecl: Ecc, mask: nat): (r: Grid)
    requires IsSquare(g, |g|) && IsSquare(isFunction, |g|) && |g| >= 21
    ensures |r| == |g| && IsSquare(r, |g|)
  {
    FormatDrawn(Masked(g, isFunction, mask), FormatWord(ecl, mask))
  }

  /** The lowest mask of least penalty among the first n. */
  ghost predicate IsBest(g: Grid, isFunction: Grid, ecl: Ecc, mask: nat, n: nat)
    requires IsSquare(g, |g|) && IsSquare(isFunction, |g|) && |g| >= 21
  {
    && mask < n
    && (forall m :: 0 <= m < n ==>
          Penalty.Score(Candidate(g, isFunction, ecl, mask)) <= Penalty.Score(Candidate(g, isFunction, ecl, m)))
    && (forall m :: 0 <= m < mask ==>
          Penalty.Score(Candidate(g, isFunction, ecl, mask)) < Penalty.Score(Candidate(g, isFunction, ecl, m)))
  }

  /** A grid and bit counter as they stand after drawing along the given cells. */
  ghost predicate DrawnAlong(before: Grid, isFunction: Grid, cells: seq<Cell>, data: seq<Byte>, grid: Grid, used: nat) {
    && IsSquare(before, |before|) && IsSquare(isFunction, |before|) && CellsIn(cells, |before|) && |grid| == |before|
    && Drawing(grid, used) == Draw(before, isFunction, cells, CodewordBits(data))
  }

  datatype Status = Done | InvalidArgument | DomainError | AssertionError

  /** The first n format cells are marked, and no others but what was marked before. */
  ghost predicate Marked(before: Grid, now: Grid, n: nat) {
    && IsSquare(before, |before|) && IsSquare(now, |before|) && |before| >= 21 && n <= FORMAT_MODULES
    && (forall i :: 0 <= i < n ==> InGrid(FormatCell(|before|, i), |before|) && At(now, FormatCell(|before|, i)))
    && (forall c: Cell :: InGrid(c, |before|) && At(before, c) ==> At(now, c))
    && (forall c: Cell :: InGrid(c, |before|) && !IsFormatCell(|before|, c) ==> At(now, c) == At(before, c))
  }

  lemma MarkNext(before: Grid, now: Grid, n: nat)
    requires Marked(before, now, n) && n < FORMAT_MODULES && InGrid(FormatCell(|before|, n), |before|)
    ensures |now| == |before| && Marked(before, Set(now, FormatCell(|before|, n), true), n + 1)
  {
    hide FormatCell, Set;
    assert IsFormatCell(|before|, FormatCell(|before|, n));
  }

  lemma MarkedAll(before: Grid, now: Grid)
    requires Marked(before, now, FORMAT_MODULES)
    ensures FormatIsFunction(now)
    ensures forall c: Cell :: InGrid(c, |before|) && !IsFormatCell(|before|, c) ==> At(now, c) == At(before, c)
    ensures FormatIsFunction(before) ==> now == before
  {
    hide FormatCell;
    if FormatIsFunction(before) {
      SameModules(now, before);
    }
  }

  class QrCode {
    const size: nat
    const errorCorrectionLevel: Ecc
    var modules: Grid
    var isFunction: Grid
    var mask: int

    ghost predicate Valid()
      reads this
    {
      && ValidSize(size) && 21 <= size <= 177
      && IsSquare(modules, size) && IsSquare(isFunction, size)
    }

    /** A blank symbol. */
    constructor (size: nat, ecl: Ecc)
      requires ValidSize(size) && 21 <= size <= 177
      ensures Valid() && this.size == size && errorCorrectionLevel == ecl
      ensures forall c: Cell :: InGrid(c, size) ==> !At(modules, c) && !At(isFunction, c)
    {
      this.size := size;
      errorCorrectionLevel := ecl;
      var blank := seq(size, _ => seq(size, _ => false));
      modules := blank;
      isFunction := blank;
      mask := -1;
    }

    method SetFunctionModule(c: Cell, isBlack: bool)
      requires Valid() && InGrid(c, size)
      modifies this`modules, this`isFunction
      ensures Valid()
      ensures modules == Set(old(modules), c, isBlack)
      ensures isFunction == Set(old(isFunction), c, true)
    {
      modules := Set(modules, c, isBlack);
      isFunction := Set(isFunction, c, true);
    }

    /** drawFormatBits: writes the two copies and marks their modules as function modules. */
    method DrawFormatBits(msk: nat)
      requires Valid() && msk < 8
      modifies this`modules, this`isFunction
      ensures Valid() && FormatIsFunction(isFunction)
      ensures modules == FormatDrawn(old(modules), FormatWord(errorCorrectionLevel, msk))
      ensures forall c: Cell :: InGrid(c, size) && !IsFormatCell(size, c) ==>
                At(isFunction, c) == At(old(isFunction), c)
      ensures FormatIsFunction(old(isFunction)) ==> isFunction == old(isFunction)
    {
      var word := FormatWord(errorCorrectionLevel, msk);
      for k := 0 to FORMAT_MODULES
        invariant Valid()
        invariant modules == WithFormat(old(modules), word, k)
        invariant Marked(old(isFunction), isFunction, k)
      {
        hide FormatCell, FormatModule, FormatWord, Marked;
        FormatCellsDistinct(size, k, k);
        MarkNext(old(isFunction), isFunction, k);
        SetFunctionModule(FormatCell(size, k), FormatModule(word, k));
      }
      MarkedAll(old(isFunction), isFunction);
    }

    /** applyMask. */
    method ApplyMask(msk: int) returns (status: Status)
      requires Valid()
      modifies this`modules
      ensures Valid()
      ensures status == if 0 <= msk <= 7 then Done else DomainError
      ensures status.Done? ==> modules == Masked(old(modules), isFunction, msk)
      ensures !status.Done? ==> modules == old(modules)
    {
      if msk < 0 || msk > 7 {
        return DomainError;
      }
      hide Inverts;
      for y := 0 to size
        invariant Valid()
        invariant forall c: Cell :: InGrid(c, size) ==>
                    At(modules, c) ==
                    if c.y < y then MaskedModule(old(modules), isFunction, msk, c) else At(old(modules), c)
      {
        for x := 0 to size
          invariant Valid()
          invariant forall c: Cell :: InGrid(c, size) ==>
                      At(modules, c) ==
                      if c.y < y || (c.y == y && c.x < x) then MaskedModule(old(modules), isFunction, msk, c)
                                        else At(old(modules), c)
        {
          var c := Cell(x, y);
          var invert := Inverts(msk, x, y);
          modules := Set(modules, c, At(modules, c) != (invert && !At(isFunction, c)));
        }
      }
      SameModules(modules, Masked(old(modules), isFunction, msk));
      status := Done;
    }

    /** drawCodewords. */
    method DrawCodewords(data: seq<Byte>, rawModules: nat) returns (status: Status)
      requires Valid()
      modifies this`modules
      ensures Valid() && CellsIn(Scan(size), size)
      ensures |data| != rawModules / 8 ==> status == InvalidArgument && modules == old(modules)
      ensures |data| == rawModules / 8 ==>
                var d := Draw(old(modules), isFunction, Scan(size), CodewordBits(data));
                modules == d.grid && status == if d.used == 8 * |data| then Done else AssertionError
    {
      ScanInGrid(size);
      if |data| != rawModules / 8 {
        return InvalidArgument;
      }
      assert DrawnAlong(modules, isFunction, [], data, modules, 0);
      var i := DrawPairs(data);
      status := if i == 8 * |data| then Done else AssertionError;
    }

    /** The column-pair loop of drawCodewords. */
    method DrawPairs(data: seq<Byte>) returns (i: nat)
      requires Valid() && DrawnAlong(modules, isFunction, [], data, modules, 0)
      modifies this`modules
      ensures Valid() && DrawnAlong(old(modules), isFunction, Scan(size), data, modules, i)
    {
      hide DrawnAlong, PairCells;
      i := 0;
      var right := size - 1;
      ghost var p := 0;
      while right >= 1
        invariant Valid()
        invariant 0 <= p <= NumPairs(size)
        invariant right == if size - 1 - 2 * p >= 6 then size - 1 - 2 * p else size - 2 - 2 * p
        invariant DrawnAlong(old(modules), isFunction, ScanTo(size, p), data, modules, i)
        decreases right
      {
        if right == 6 {
          right := 5;
        }
        i := DrawPair(data, right, p, i, old(modules));
        right := right - 2;
        p := p + 1;
      }
    }

    /** The row loop of drawCodewords, for one column pair. */
    method DrawPair(data: seq<Byte>, right: nat, ghost p: nat, start: nat, ghost before: Grid) returns (i: nat)
      requires Valid() && p < NumPairs(size) && right == RightColumn(size, p)
      requires DrawnAlong(before, isFunction, ScanTo(size, p), data, modules, start)
      modifies this`modules
      ensures Valid() && DrawnAlong(before, isFunction, ScanTo(size, p + 1), data, modules, i)
    {
      hide DrawnAlong, PairCells, ScanTo;
      i := start;
      ghost var done := ScanTo(size, p);
      PairStart(size, p);
      assert done + PairCells(size, p, 0) == done;
      for vert := 0 to size
        invariant Valid()
        invariant DrawnAlong(before, isFunction, done + PairCells(size, p, vert), data, modules, i)
      {
        ghost var visited := done + PairCells(size, p, vert);
        var upward := (right + 1) / 2 % 2 == 0;
        var y := if upward then size - 1 - vert else vert;
        i := DrawModule(data, Cell(right, y), i, before, visited);
        i := DrawModule(data, Cell(right - 1, y), i, before, visited + [Cell(right, y)]);
        PairStep(size, p, vert);
        assert visited + [Cell(right, y)] + [Cell(right - 1, y)] == done + PairCells(size, p, vert + 1);
      }
      PairDone(size, p);
    }

    /** The innermost step of drawCodewords. */
    method DrawModule(data: seq<Byte>, c: Cell, used: nat, ghost before: Grid, ghost visited: seq<Cell>)
        returns (i: nat)
      requires Valid() && InGrid(c, size)
      requires DrawnAlong(before, isFunction, visited, data, modules, used)
      modifies this`modules
      ensures Valid() && DrawnAlong(before, isFunction, visited + [c], data, modules, i)
    {
      i := used;
      assert (visited + [c])[..|visited|] == visited;
      if !At(isFunction, c) && i < |data| * 8 {
        modules := Set(modules, c, data[i / 8][i % 8]);
        i := i + 1;
      }
    }

    /** The masking tail of the constructor: with -1 the best mask is chosen, ties going to the
        lowest; either way the grid ends as the base grid under that mask with its format bits. */
    method Finish(msk: int) returns (status: Status)
      requires Valid() && FormatIsFunction(isFunction) && -1 <= msk <= 7
      modifies this
      ensures Valid() && status == Done && 0 <= mask <= 7 && isFunction == old(isFunction)
      ensures msk >= 0 ==> mask == msk
      ensures msk == -1 ==> IsBest(old(modules), isFunction, errorCorrectionLevel, mask, 8)
      ensures modules == Candidate(old(modules), isFunction, errorCorrectionLevel, mask)
    {
      hide FormatDrawn, Masked, FormatWord, Penalty.Score, IsFormatCell, IsBest;
      var chosen := msk;
      ghost var base := modules;
      if msk == -1 {
        chosen := ChooseMask();
        base := FormatDrawn(old(modules), FormatWord(errorCorrectionLevel, 7));
      }
      if chosen < 0 || chosen > 7 {
        return AssertionError;
      }
      mask := chosen;
      status := ApplyMask(chosen);
      DrawFormatBits(chosen);
      if msk == -1 {
        ghost var w, w7 := FormatWord(errorCorrectionLevel, chosen), FormatWord(errorCorrectionLevel, 7);
        MaskFormatCommute(old(modules), isFunction, chosen, w7);
        FormatOverwrites(Masked(old(modules), isFunction, chosen), w7, w);
      }
    }

    /** The mask loop of the constructor; it leaves the base grid with the last format bits. */
    method ChooseMask() returns (msk: int)
      requires Valid() && FormatIsFunction(isFunction)
      modifies this`modules, this`isFunction
      ensures Valid() && isFunction == old(isFunction)
      ensures modules == FormatDrawn(old(modules), FormatWord(errorCorrectionLevel, 7))
      ensures 0 <= msk < 8 && IsBest(old(modules), isFunction, errorCorrectionLevel, msk, 8)
    {
      hide FormatDrawn, Masked, FormatWord, Penalty.Score, IsFormatCell;
      var minPenalty := 0x7FFF_FFFF_FFFF_FFFF;
      msk := -1;
      for i := 0 to 8
        invariant Valid() && isFunction == old(isFunction)
        invariant modules ==
                    if i == 0 then old(modules) else FormatDrawn(old(modules), FormatWord(errorCorrectionLevel, i - 1))
        invariant i == 0 ==> msk == -1 && minPenalty == 0x7FFF_FFFF_FFFF_FFFF
        invariant i > 0 ==> 0 <= msk < i && IsBest(old(modules), isFunction, errorCorrectionLevel, msk, i)
        invariant i > 0 ==> minPenalty == Penalty.Score(Candidate(old(modules), isFunction, errorCorrectionLevel, msk))
      {
        var penalty := TryMask(i, old(modules), if i == 0 then old(modules) else modules);
        Penalty.ScoreBounded(Candidate(old(modules), isFunction, errorCorrectionLevel, i));
        if penalty < minPenalty {
          msk := i;
          minPenalty := penalty;
        }
      }
    }

    /** One round of the mask loop: apply, draw the format bits, score, undo. */
    method TryMask(i: nat, ghost base: Grid, ghost entry: Grid) returns (penalty: int)
      requires Valid() && FormatIsFunction(isFunction) && i < 8 && IsSquare(base, size) && entry == modules
      requires modules == base || exists w :: |w| == 15 && modules == FormatDrawn(base, w)
      modifies this`modules, this`isFunction
      ensures Valid() && isFunction == old(isFunction)
      ensures modules == FormatDrawn(base, FormatWord(errorCorrectionLevel, i))
      ensures penalty == Penalty.Score(Candidate(base, isFunction, errorCorrectionLevel, i))
    {
      hide FormatDrawn, Masked, FormatWord, Penalty.Score, IsFormatCell;
      var status := ApplyMask(i);
      DrawFormatBits(i);
      ghost var w := FormatWord(errorCorrectionLevel, i);
      if entry != base {
        ghost var w' :| |w'| == 15 && entry == FormatDrawn(base, w');
        MaskFormatCommute(base, isFunction, i, w');
        FormatOverwrites(Masked(base, isFunction, i), w', w);
      }
      assert modules == Candidate(base, isFunction, errorCorrectionLevel, i);
      penalty := Penalty.GetPenaltyScore(modules);
      status := ApplyMask(i);
      MaskFormatCommute(Masked(base, isFunction, i), isFunction, i, w);
      MaskInvolution(base, isFunction, i);
    }
  }
}
