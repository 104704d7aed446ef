/**
 The zigzag placement scan of drawCodewords: which modules it visits, in which order, and
 what drawing along it does to a grid.
 */
module Zigzag {

  datatype Cell = Cell(x: nat, y: nat)

  /** modules[y][x], as the source stores it. */
  type Grid = seq<seq<bool>>

  predicate IsSquare(g: Grid, size: nat) {
    |g| == size && forall y :: 0 <= y < size ==> |g[y]| == size
  }

  predicate InGrid(c: Cell, size: nat) {
    c.x < size && c.y < size
  }

  function At(g: Grid, c: Cell): bool
    requires IsSquare(g, |g|) && InGrid(c, |g|)
  {
    g[c.y][c.x]
  }

  function Set(g: Grid, c: Cell, b: bool): (r: Grid)
    requires IsSquare(g, |g|) && InGrid(c, |g|)
    ensures |r| == |g| && IsSquare(r, |r|) && At(r, c) == b
    ensures forall d: Cell :: InGrid(d, |g|) && d != c ==> At(r, d) == At(g, d)
  {
    g[c.y := g[c.y][c.x := b]]
  }

  // ---- The scan ------------------------------------------------------------------------

  /** Right column of the p-th column pair; the pairs skip the timing column 6. */
  function RightColumn(size: nat, p: nat): int {
    if size - 1 - 2 * p > 6 then size - 1 - 2 * p else size - 2 - 2 * p
  }

  predicate Upward(right: nat) {
    (right + 1) / 2 % 2 == 0
  }

  predicate ValidSize(size: nat) {
    size % 2 == 1 && size >= 7
  }

  function NumPairs(size: nat): nat {
    size / 2
  }

  function CellAt(size: nat, p: nat, vert: nat, j: nat): Cell
    requires ValidSize(size) && p < NumPairs(size) && vert < size && j < 2
  {
    var right := RightColumn(size, p);
    Cell(right - j, if Upward(right) then size - 1 - vert else vert)
  }

  function RowCells(size: nat, p: nat, vert: nat): (cells: seq<Cell>)
    requires ValidSize(size) && p < NumPairs(size) && vert < size
    ensures |cells| == 2
  {
    [CellAt(size, p, vert, 0), CellAt(size, p, vert, 1)]
  }

  /** The cells of one column pair above a row counter. */
  function PairCells(size: nat, p: nat, rows: nat): seq<Cell>
    requires ValidSize(size) && p < NumPairs(size) && rows <= size
  {
    if rows == 0 then [] else PairCells(size, p, rows - 1) + RowCells(size, p, rows - 1)
  }

  lemma PairStart(size: nat, p: nat)
    requires ValidSize(size) && p < NumPairs(size)
    ensures PairCells(size, p, 0) == []
  {
  }

  lemma PairStep(size: nat, p: nat, row: nat)
    requires ValidSize(size) && p < NumPairs(size) && row < size
    ensures PairCells(size, p, row + 1) == PairCells(size, p, row) + RowCells(size, p, row)
  {
  }

  lemma PairDone(size: nat, p: nat)
    requires ValidSize(size) && p < NumPairs(size)
    ensures ScanTo(size, p + 1) == ScanTo(size, p) + PairCells(size, p, size)
  {
    hide PairCells;
  }

  function ScanTo(size: nat, pairs: nat): seq<Cell>
    requires ValidSize(size) && pairs <= NumPairs(size)
  {
    if pairs == 0 then [] else ScanTo(size, pairs - 1) + PairCells(size, pairs - 1, size)
  }

  function Scan(size: nat): seq<Cell>
    requires ValidSize(size)
  {
    ScanTo(size, NumPairs(size))
  }

  // ---- Each module outside column 6 once, none inside it -----------------------------------

  /** The pair and half-column a module belongs to. */
  function PairOf(size: nat, c: Cell): (r: (int, int))
  {
    if c.x > 6 then ((size - 1 - c.x) / 2, (size - 1 - c.x) % 2) else ((size - 2 - c.x) / 2, (size - 2 - c.x) % 2)
  }

  lemma CellAtInverse(size: nat, p: nat, vert: nat, j: nat)
    requires ValidSize(size) && p < NumPairs(size) && vert < size && j < 2
    ensures var c := CellAt(size, p, vert, j);
            InGrid(c, size) && c.x != 6 && PairOf(size, c) == (p, j) &&
            vert == if Upward(RightColumn(size, p)) then size - 1 - c.y else c.y
  {
  }

  lemma PairOfInverse(size: nat, c: Cell)
    requires ValidSize(size) && InGrid(c, size) && c.x != 6
    ensures var (p, j) := PairOf(size, c);
            0 <= p < NumPairs(size) && 0 <= j < 2 &&
            var vert := if Upward(RightColumn(size, p)) then size - 1 - c.y else c.y;
            c == CellAt(size, p, vert, j)
  {
  }

  /** A column pair's cells: those of its pair whose row counter has been reached. */
  lemma {:induction false} PairCellsMembers(size: nat, p: nat, rows: nat, c: Cell)
    requires ValidSize(size) && p < NumPairs(size) && rows <= size
    ensures c in PairCells(size, p, rows) <==>
              InGrid(c, size) && c.x != 6 && PairOf(size, c).0 == p &&
              (if Upward(RightColumn(size, p)) then size - 1 - c.y else c.y) < rows
  {
    if rows > 0 {
      PairCellsMembers(size, p, rows - 1, c);
      CellAtInverse(size, p, rows - 1, 0);
      CellAtInverse(size, p, rows - 1, 1);
      hide Upward;
      if InGrid(c, size) && c.x != 6 && PairOf(size, c).0 == p &&
         (if Upward(RightColumn(size, p)) then size - 1 - c.y else c.y) == rows - 1
      {
        PairOfInverse(size, c);
        assert c == CellAt(size, p, rows - 1, PairOf(size, c).1);
      }
    }
  }

  lemma {:induction false} ScanToMembers(size: nat, pairs: nat, c: Cell)
    requires ValidSize(size) && pairs <= NumPairs(size)
    ensures c in ScanTo(size, pairs) <==> InGrid(c, size) && c.x != 6 && PairOf(size, c).0 < pairs
  {
    if pairs > 0 {
      ScanToMembers(size, pairs - 1, c);
      PairCellsMembers(size, pairs - 1, size, c);
    }
    if InGrid(c, size) && c.x != 6 {
      PairOfInverse(size, c);
    }
  }

  /** The scan reaches exactly the modules outside column 6. */
  lemma ScanMembers(size: nat, c: Cell)
    requires ValidSize(size)
    ensures c in Scan(size) <==> InGrid(c, size) && c.x != 6
  {
    ScanToMembers(size, NumPairs(size), c);
    if InGrid(c, size) && c.x != 6 {
      PairOfInverse(size, c);
    }
  }

  ghost predicate NoDuplicates(cells: seq<Cell>) {
    forall i, j :: 0 <= i < j < |cells| ==> cells[i] != cells[j]
  }

  lemma AppendNoDuplicates(a: seq<Cell>, b: seq<Cell>)
    requires NoDuplicates(a) && NoDuplicates(b)
    requires forall c :: c in b ==> c !in a
    ensures NoDuplicates(a + b)
  {
    forall i, j | 0 <= i < j < |a + b| ensures (a + b)[i] != (a + b)[j] {
      if i < |a| <= j {
        assert b[j - |a|] in b;
      }
    }
  }

  lemma {:induction false} PairCellsNoDuplicates(size: nat, p: nat, rows: nat)
    requires ValidSize(size) && p < NumPairs(size) && rows <= size
    ensures NoDuplicates(PairCells(size, p, rows))
  {
    if rows > 0 {
      PairCellsNoDuplicates(size, p, rows - 1);
      var row := RowCells(size, p, rows - 1);
      CellAtInverse(size, p, rows - 1, 0);
      CellAtInverse(size, p, rows - 1, 1);
      PairCellsMembers(size, p, rows - 1, row[0]);
      PairCellsMembers(size, p, rows - 1, row[1]);
      AppendNoDuplicates(PairCells(size, p, rows - 1), row);
    }
  }

  lemma PairIsNew(size: nat, p: nat, c: Cell)
    requires ValidSize(size) && p < NumPairs(size) && c in PairCells(size, p, size)
    ensures c !in ScanTo(size, p)
  {
    hide PairCells, ScanTo, PairOf, Upward, RightColumn;
    PairCellsMembers(size, p, size, c);
    ScanToMembers(size, p, c);
  }

  lemma {:induction false} ScanToNoDuplicates(size: nat, pairs: nat)
    requires ValidSize(size) && pairs <= NumPairs(size)
    ensures NoDuplicates(ScanTo(size, pairs))
  {
    if pairs > 0 {
      var before, pair := ScanTo(size, pairs - 1), PairCells(size, pairs - 1, size);
      assert ScanTo(size, pairs) == before + pair;
      hide *;
      ScanToNoDuplicates(size, pairs - 1);
      PairCellsNoDuplicates(size, pairs - 1, size);
      forall c | c in pair ensures c !in before {
        PairIsNew(size, pairs - 1, c);
      }
      AppendNoDuplicates(before, pair);
    }
  }

  /** The scan visits no module twice. */
  lemma ScanNoDuplicates(size: nat)
    requires ValidSize(size)
    ensures NoDuplicates(Scan(size))
  {
    ScanToNoDuplicates(size, NumPairs(size));
  }

  // ---- The order of the scan ----------------------------------------------------------------

  /** In symbol sizes every other pair goes upward, from the first on. */
  lemma UpwardAlternates(size: nat, p: nat)
    requires ValidSize(size) && size % 4 == 1 && p < NumPairs(size)
    ensures RightColumn(size, p) >= 1 && (Upward(RightColumn(size, p)) <==> p % 2 == 0)
  {
    var k := size / 4;
    assert size == 4 * k + 1;
    assert (RightColumn(size, p) + 1) / 2 == 2 * k - p;
  }

  lemma {:induction false} PairCellAt(size: nat, p: nat, rows: nat, r: nat, j: nat)
    requires ValidSize(size) && p < NumPairs(size) && r < rows <= size && j < 2
    ensures |PairCells(size, p, rows)| == 2 * rows && PairCells(size, p, rows)[2 * r + j] == CellAt(size, p, r, j)
    decreases rows
  {
    hide CellAt;
    if r < rows - 1 {
      PairCellAt(size, p, rows - 1, r, j);
    } else if rows > 1 {
      PairCellAt(size, p, rows - 1, 0, 0);
    }
  }

  /** The place in the scan of row counter r and half j of pair p. */
  function Place(size: nat, p: nat, r: nat, j: nat): nat {
    2 * size * p + 2 * r + j
  }

  lemma Places(size: nat, p: nat, r: nat)
    ensures Place(size, 0, 0, 0) == 0 && Place(size, p, r, 1) == Place(size, p, r, 0) + 1
    ensures Place(size, p, r + 1, 0) == Place(size, p, r, 1) + 1
    ensures size > 0 ==> Place(size, p + 1, 0, 0) == Place(size, p, size - 1, 1) + 1
  {
    assert 2 * size * (p + 1) == 2 * size * p + 2 * size;
  }

  lemma {:induction false} ScanToAt(size: nat, pairs: nat, p: nat, r: nat, j: nat)
    requires ValidSize(size) && p < pairs <= NumPairs(size) && r < size && j < 2
    ensures |ScanTo(size, pairs)| == 2 * size * pairs && Place(size, p, r, j) < |ScanTo(size, pairs)|
    ensures ScanTo(size, pairs)[Place(size, p, r, j)] == CellAt(size, p, r, j)
    decreases pairs
  {
    hide CellAt, PairCells;
    PairCellAt(size, pairs - 1, size, r, j);
    assert 2 * size * pairs == 2 * size * (pairs - 1) + 2 * size;
    if p < pairs - 1 {
      ScanToAt(size, pairs - 1, p, r, j);
    } else if pairs > 1 {
      ScanToAt(size, pairs - 1, 0, r, j);
    }
  }

  /**
   Where each place of the scan is.  Pairs of columns go from right to left past column 6, right
   column first; the first pair goes from the bottom up, the next from the top down, and so on.
   */
  lemma ScanAt(size: nat, p: nat, r: nat, j: nat)
    requires ValidSize(size) && size % 4 == 1 && p < size / 2 && r < size && j < 2
    ensures Place(size, p, r, j) < |Scan(size)|
    ensures var c := Scan(size)[Place(size, p, r, j)];
            && c.x == (if size - 1 - 2 * p > 6 then size - 1 - 2 * p else size - 2 - 2 * p) - j
            && c.y == if p % 2 == 0 then size - 1 - r else r
  {
    hide ScanTo, Upward, Place;
    ScanToAt(size, NumPairs(size), p, r, j);
    UpwardAlternates(size, p);
  }

  /** Every module outside column 6 once makes this many. */
  lemma ScanLength(size: nat)
    requires ValidSize(size)
    ensures |Scan(size)| == 2 * size * (size / 2)
  {
    hide ScanTo;
    ScanToAt(size, NumPairs(size), 0, 0, 0);
  }

  /**
   It begins in the bottom right corner.  Each right module is followed by its left neighbour, that
   one by the right module one row on, and the last of a pair by the next pair in the same row.
   */
  lemma ScanSteps(size: nat, p: nat, r: nat)
    requires ValidSize(size) && size % 4 == 1 && p < size / 2 && r < size
    ensures Place(size, p, r, 0) + 1 < |Scan(size)| && Scan(size)[0] == Cell(size - 1, size - 1)
    ensures var at := Place(size, p, r, 0);
            var c, d := Scan(size)[at], Scan(size)[at + 1];
            && d.x + 1 == c.x && d.y == c.y
            && (r + 1 < size ==>
                  at + 2 < |Scan(size)| && Scan(size)[at + 2].x == c.x &&
                  Scan(size)[at + 2].y == if p % 2 == 0 then c.y - 1 else c.y + 1)
            && (r + 1 == size && p + 1 < size / 2 ==>
                  at + 2 < |Scan(size)| && Scan(size)[at + 2].y == c.y &&
                  Scan(size)[at + 2].x == if d.x == 7 then 5 else d.x - 1)
  {
    hide Scan, Place, NumPairs;
    Places(size, p, r);
    ScanAt(size, 0, 0, 0);
    ScanAt(size, p, r, 0);
    ScanAt(size, p, r, 1);
    if r + 1 < size {
      ScanAt(size, p, r + 1, 0);
    } else if p + 1 < size / 2 {
      ScanAt(size, p + 1, 0, 0);
    }
  }

  // ---- Drawing along a scan -----------------------------------------------------------------

  predicate CellsIn(cells: seq<Cell>, size: nat) {
    forall i :: 0 <= i < |cells| ==> InGrid(cells[i], size)
  }

  /** A grid after drawing and the number of bits used up. */
  datatype Drawing = Drawing(grid: Grid, used: nat)

  /** The modules of a scan that are free to carry data, in scan order. */
  function Free(isFunction: Grid, cells: seq<Cell>): (r: seq<Cell>)
    requires IsSquare(isFunction, |isFunction|) && CellsIn(cells, |isFunction|)
    ensures |r| <= |cells| && CellsIn(r, |isFunction|)
    ensures forall c :: c in r <==> c in cells && !At(isFunction, c)
  {
    if cells == [] then []
    else
      var c := cells[|cells| - 1];
      Free(isFunction, cells[..|cells| - 1]) + (if At(isFunction, c) then [] else [c])
  }

  /** One cell of the scan: a free one takes the next bit, if there is one. */
  function DrawOne(d: Drawing, isFunction: Grid, c: Cell, bits: seq<bool>): (r: Drawing)
    requires IsSquare(d.grid, |d.grid|) && IsSquare(isFunction, |d.grid|) && InGrid(c, |d.grid|)
    ensures |r.grid| == |d.grid| && IsSquare(r.grid, |r.grid|)
    ensures r.used == d.used + if !At(isFunction, c) && d.used < |bits| then 1 else 0
    ensures !At(isFunction, c) && d.used < |bits| ==> At(r.grid, c) == bits[d.used]
    ensures At(isFunction, c) || d.used >= |bits| ==> r == d
    ensures forall e: Cell :: InGrid(e, |d.grid|) && e != c ==> At(r.grid, e) == At(d.grid, e)
  {
    if !At(isFunction, c) && d.used < |bits| then Drawing(Set(d.grid, c, bits[d.used]), d.used + 1) else d
  }

  function Draw(g: Grid, isFunction: Grid, cells: seq<Cell>, bits: seq<bool>): (d: Drawing)
    requires IsSquare(g, |g|) && IsSquare(isFunction, |g|) && CellsIn(cells, |g|)
    ensures |d.grid| == |g| && IsSquare(d.grid, |g|)
    ensures d.used == (if |Free(isFunction, cells)| < |bits| then |Free(isFunction, cells)| else |bits|)
  {
    if cells == [] then Drawing(g, 0)
    else
      DrawOne(Draw(g, isFunction, cells[..|cells| - 1], bits), isFunction, cells[|cells| - 1], bits)
  }

  function ModulesAt(g: Grid, cells: seq<Cell>): seq<bool>
    requires IsSquare(g, |g|) && CellsIn(cells, |g|)
  {
    seq(|cells|, i requires 0 <= i < |cells| => At(g, cells[i]))
  }

  lemma {:induction false} FreeNoDuplicates(isFunction: Grid, cells: seq<Cell>)
    requires IsSquare(isFunction, |isFunction|) && CellsIn(cells, |isFunction|) && NoDuplicates(cells)
    ensures NoDuplicates(Free(isFunction, cells))
  {
    if cells != [] {
      var n := |cells| - 1;
      FreeNoDuplicates(isFunction, cells[..n]);
      assert cells[n] !in cells[..n];
    }
  }

  /** Modules outside the free modules reached are left alone. */
  lemma {:induction false} DrawFrame(g: Grid, isFunction: Grid, cells: seq<Cell>, bits: seq<bool>, c: Cell)
    requires IsSquare(g, |g|) && IsSquare(isFunction, |g|) && CellsIn(cells, |g|) && InGrid(c, |g|)
    requires forall k :: 0 <= k < |Free(isFunction, cells)| && k < |bits| ==> Free(isFunction, cells)[k] != c
    ensures At(Draw(g, isFunction, cells, bits).grid, c) == At(g, c)
  {
    if cells != [] {
      var n := |cells| - 1;
      var free, all := Free(isFunction, cells[..n]), Free(isFunction, cells);
      assert forall k :: 0 <= k < |free| ==> all[k] == free[k];
      DrawFrame(g, isFunction, cells[..n], bits, c);
      if !At(isFunction, cells[n]) && |free| < |bits| {
        assert all[|free|] == cells[n];
      }
    }
  }

  lemma DrawLast(g: Grid, isFunction: Grid, cells: seq<Cell>, bits: seq<bool>)
    requires IsSquare(g, |g|) && IsSquare(isFunction, |g|) && CellsIn(cells, |g|) && cells != []
    ensures var before := Draw(g, isFunction, cells[..|cells| - 1], bits);
            Draw(g, isFunction, cells, bits) == DrawOne(before, isFunction, cells[|cells| - 1], bits)
  {
    hide DrawOne, Free;
  }

  lemma FreeLast(isFunction: Grid, cells: seq<Cell>)
    requires IsSquare(isFunction, |isFunction|) && CellsIn(cells, |isFunction|) && cells != []
    ensures var c := cells[|cells| - 1];
            Free(isFunction, cells) == Free(isFunction, cells[..|cells| - 1]) + (if At(isFunction, c) then [] else [c])
  {
  }

  lemma FrontDistinct(cells: seq<Cell>)
    requires NoDuplicates(cells) && cells != []
    ensures NoDuplicates(cells[..|cells| - 1]) && cells[|cells| - 1] !in cells[..|cells| - 1]
  {
  }

  /** The k-th free module of a duplicate-free scan carries the k-th bit. */
  lemma {:induction false} DrawValue(g: Grid, isFunction: Grid, cells: seq<Cell>, bits: seq<bool>, k: nat)
    requires IsSquare(g, |g|) && IsSquare(isFunction, |g|) && CellsIn(cells, |g|) && NoDuplicates(cells)
    requires k < |Free(isFunction, cells)| && k < |bits|
    ensures At(Draw(g, isFunction, cells, bits).grid, Free(isFunction, cells)[k]) == bits[k]
  {
    hide DrawOne, Draw, Free, NoDuplicates;
    var n := |cells| - 1;
    DrawLast(g, isFunction, cells, bits);
    FreeLast(isFunction, cells);
    FrontDistinct(cells);
    var free := Free(isFunction, cells[..n]);
    if k < |free| {
      assert free[k] in cells[..n];
      DrawValue(g, isFunction, cells[..n], bits, k);
    }
  }

  /** If there is room, the free modules in scan order read back the bits drawn, and function
      modules and left-over free modules are untouched. */
  lemma DrawReadBack(g: Grid, isFunction: Grid, bits: seq<bool>)
    requires IsSquare(g, |g|) && IsSquare(isFunction, |g|) && ValidSize(|g|)
    requires CellsIn(Scan(|g|), |g|) && |bits| <= |Free(isFunction, Scan(|g|))|
    ensures var d, free := Draw(g, isFunction, Scan(|g|), bits), Free(isFunction, Scan(|g|));
            && d.used == |bits|
            && ModulesAt(d.grid, free)[..|bits|] == bits
            && (forall c: Cell :: InGrid(c, |g|) && At(isFunction, c) ==> At(d.grid, c) == At(g, c))
            && (forall k :: |bits| <= k < |free| ==> At(d.grid, free[k]) == At(g, free[k]))
  {
    var size := |g|;
    var d, free := Draw(g, isFunction, Scan(size), bits), Free(isFunction, Scan(size));
    ScanNoDuplicates(size);
    FreeNoDuplicates(isFunction, Scan(size));
    hide Draw, Free, Scan;
    forall k | 0 <= k < |bits| ensures At(d.grid, free[k]) == bits[k] {
      DrawValue(g, isFunction, Scan(size), bits, k);
    }
    forall c: Cell | InGrid(c, size) && At(isFunction, c) ensures At(d.grid, c) == At(g, c) {
      assert c !in free;
      DrawFrame(g, isFunction, Scan(size), bits, c);
    }
    forall k | |bits| <= k < |free| ensures At(d.grid, free[k]) == At(g, free[k]) {
      DrawFrame(g, isFunction, Scan(size), bits, free[k]);
    }
  }

  lemma ScanInGrid(size: nat)
    requires ValidSize(size)
    ensures CellsIn(Scan(size), size)
  {
    forall i | 0 <= i < |Scan(size)| ensures InGrid(Scan(size)[i], size) {
      ScanMembers(size, Scan(size)[i]);
    }
  }
}
