/**
 Masks and format bits as operations on grids, and how the two interact.
 */
module Masking {
  import opened Zigzag

  // ---- Masks --------------------------------------------------------------------------------

  /** Whether a mask inverts the module at (x, y). */
  predicate Inverts(mask: nat, x: nat, y: nat) {
    match mask
    case 0 => (x + y) % 2 == 0
    case 1 => y % 2 == 0
    case 2 => x % 3 == 0
    case 3 => (x + y) % 3 == 0
    case 4 => (x / 3 + y / 2) % 2 == 0
    case 5 => x * y % 2 + x * y % 3 == 0
    case 6 => (x * y % 2 + x * y % 3) % 2 == 0
    case _ => ((x + y) % 2 + x * y % 3) % 2 == 0
  }

  function MaskedModule(g: Grid, isFunction: Grid, mask: nat, c: Cell): bool
    requires IsSquare(g, |g|) && IsSquare(isFunction, |g|) && InGrid(c, |g|)
  {
    At(g, c) != (Inverts(mask, c.x, c.y) && !At(isFunction, c))
  }

  function MaskedRow(g: Grid, isFunction: Grid, mask: nat, y: nat): (r: seq<bool>)
    requires IsSquare(g, |g|) && IsSquare(isFunction, |g|) && y < |g|
    ensures |r| == |g|
  {
    seq(|g|, x requires 0 <= x < |g| => MaskedModule(g, isFunction, mask, Cell(x, y)))
  }

  function Masked(g: Grid, isFunction: Grid, mask: nat): (r: Grid)
    requires IsSquare(g, |g|) && IsSquare(isFunction, |g|)
    ensures |r| == |g| && IsSquare(r, |g|)
    ensures forall c: Cell :: InGrid(c, |g|) ==> At(r, c) == MaskedModule(g, isFunction, mask, c)
  {
    seq(|g|, y requires 0 <= y < |g| => MaskedRow(g, isFunction, mask, y))
  }

  lemma SameModules(a: Grid, b: Grid)
    requires IsSquare(a, |a|) && IsSquare(b, |a|)
    requires forall c: Cell :: InGrid(c, |a|) ==> At(a, c) == At(b, c)
    ensures a == b
  {
    forall y | 0 <= y < |a| ensures a[y] == b[y] {
      forall x | 0 <= x < |a| ensures a[y][x] == b[y][x] {
        assert At(a, Cell(x, y)) == At(b, Cell(x, y));
      }
    }
  }

  /** Applying a mask twice undoes it. */
  lemma MaskInvolution(g: Grid, isFunction: Grid, mask: nat)
    requires IsSquare(g, |g|) && IsSquare(isFunction, |g|)
    ensures Masked(Masked(g, isFunction, mask), isFunction, mask) == g
  {
    hide Inverts;
    SameModules(Masked(Masked(g, isFunction, mask), isFunction, mask), g);
  }

  // ---- Format bits -----------------------------------------------------------------------------

  datatype Ecc = LOW | MEDIUM | QUARTILE | HIGH

  function EccBits(ecl: Ecc): seq<bool> {
    match ecl
    case LOW => [false, true]
    case MEDIUM => [false, false]
    case QUARTILE => [true, true]
    case HIGH => [true, false]
  }

  function MaskBits(mask: nat): seq<bool> {
    [mask / 4 % 2 == 1, mask / 2 % 2 == 1, mask % 2 == 1]
  }

  function XorBits(a: seq<bool>, b: seq<bool>): (r: seq<bool>)
    requires |a| == |b|
    ensures |r| == |a| && forall i :: 0 <= i < |a| ==> r[i] == (a[i] != b[i])
  {
    seq(|a|, i requires 0 <= i < |a| => a[i] != b[i])
  }

  /** 0x537 below its top bit, in ten bits. */
  const FORMAT_GENERATOR := [false, true, false, false, true, true, false, true, true, true]

  /** 0x5412 in fifteen bits. */
  const FORMAT_MASK :=
    [true, false, true, false, true, false, false, false, false, false, true, false, false, true, false]

  /** The remainder register after n shifts; the subtraction always clears the bit shifted out. */
  function FormatRemainder(data: seq<bool>, n: nat): (r: seq<bool>)
    requires |data| == 5
    ensures |r| == 10
  {
    if n == 0 then [false, false, false, false, false] + data
    else
      var r := FormatRemainder(data, n - 1);
      var shifted := r[1..] + [false];
      if r[0] then XorBits(shifted, FORMAT_GENERATOR) else shifted
  }

  /** The fifteen format bits, highest first. */
  function FormatWord(ecl: Ecc, mask: nat): (w: seq<bool>)
    ensures |w| == 15
  {
    var data := EccBits(ecl) + MaskBits(mask);
    XorBits(data + FormatRemainder(data, 10), FORMAT_MASK)
  }

  /** The level and mask can be read back from the five highest format bits. */
  lemma FormatReadBack(ecl: Ecc, mask: nat, ecl': Ecc, mask': nat)
    requires mask < 8 && mask' < 8
    requires FormatWord(ecl, mask)[..5] == FormatWord(ecl', mask')[..5]
    ensures ecl == ecl' && mask == mask'
  {
    hide FormatRemainder;
    var d, d' := EccBits(ecl) + MaskBits(mask), EccBits(ecl') + MaskBits(mask');
    var w, w' := FormatWord(ecl, mask), FormatWord(ecl', mask');
    forall i | 0 <= i < 5 ensures d[i] == d'[i] {
      assert w[..5][i] == w'[..5][i];
      assert w[i] == (d[i] != FORMAT_MASK[i]) && w'[i] == (d'[i] != FORMAT_MASK[i]);
    }
    assert d[0] == EccBits(ecl)[0] && d[1] == EccBits(ecl)[1];
    assert d[2] == MaskBits(mask)[0] && d[3] == MaskBits(mask)[1] && d[4] == MaskBits(mask)[2];
  }

  // ---- Where format bits go -----------------------------------------------------------------------

  const FORMAT_MODULES := 31

  /** The k-th module drawFormatBits writes: both copies, then the module that is always black. */
  function FormatCell(size: nat, k: nat): Cell
    requires size >= 21 && k < FORMAT_MODULES
  {
    if k < 6 then Cell(8, k)
    else if k < 8 then Cell(8, k + 1)
    else if k == 8 then Cell(7, 8)
    else if k < 15 then Cell(14 - k, 8)
    else if k < 23 then Cell(size - 1 - (k - 15), 8)
    else if k < 30 then Cell(8, size - 7 + (k - 23))
    else Cell(8, size - 8)
  }

  /** The colour of that module. */
  function FormatModule(word: seq<bool>, k: nat): bool
    requires |word| == 15 && k < FORMAT_MODULES
  {
    if k < 15 then word[14 - k] else if k < 30 then word[14 - (k - 15)] else true
  }

  lemma FormatCellsDistinct(size: nat, i: nat, j: nat)
    requires size >= 21 && i < FORMAT_MODULES && j < FORMAT_MODULES
    ensures FormatCell(size, i) == FormatCell(size, j) ==> i == j
    ensures InGrid(FormatCell(size, i), size)
  {
  }

  /** The grid after the first n writes of drawFormatBits. */
  function WithFormat(g: Grid, word: seq<bool>, n: nat): (r: Grid)
    requires IsSquare(g, |g|) && |g| >= 21 && |word| == 15 && n <= FORMAT_MODULES
    ensures |r| == |g| && IsSquare(r, |g|)
  {
    if n == 0 then g
    else
      FormatCellsDistinct(|g|, n - 1, n - 1);
      Set(WithFormat(g, word, n - 1), FormatCell(|g|, n - 1), FormatModule(word, n - 1))
  }

  function FormatDrawn(g: Grid, word: seq<bool>): (r: Grid)
    requires IsSquare(g, |g|) && |g| >= 21 && |word| == 15
    ensures |r| == |g| && IsSquare(r, |g|)
  {
    WithFormat(g, word, FORMAT_MODULES)
  }

  /** Each format module carries its bit ... */
  lemma {:induction false} FormatModuleAt(g: Grid, word: seq<bool>, n: nat, k: nat)
    requires IsSquare(g, |g|) && |g| >= 21 && |word| == 15 && k < n <= FORMAT_MODULES
    ensures InGrid(FormatCell(|g|, k), |g|)
    ensures At(WithFormat(g, word, n), FormatCell(|g|, k)) == FormatModule(word, k)
  {
    hide FormatCell, FormatModule;
    FormatCellsDistinct(|g|, k, n - 1);
    FormatCellsDistinct(|g|, n - 1, k);
    if k < n - 1 {
      FormatModuleAt(g, word, n - 1, k);
    }
  }

  ghost predicate IsFormatCell(size: nat, c: Cell)
    requires size >= 21
  {
    exists k :: 0 <= k < FORMAT_MODULES && c == FormatCell(size, k)
  }

  /** ... and every other module is left alone. */
  lemma {:induction false} FormatFrame(g: Grid, word: seq<bool>, n: nat, c: Cell)
    requires IsSquare(g, |g|) && |g| >= 21 && |word| == 15 && n <= FORMAT_MODULES
    requires InGrid(c, |g|) && !IsFormatCell(|g|, c)
    ensures At(WithFormat(g, word, n), c) == At(g, c)
  {
    hide FormatCell, FormatModule;
    if n > 0 {
      FormatCellsDistinct(|g|, n - 1, n - 1);
      FormatFrame(g, word, n - 1, c);
    }
  }

  // ---- Masks and format bits together -----------------------------------------------------------------

  /** Format modules are function modules, which masks leave alone. */
  ghost predicate FormatIsFunction(isFunction: Grid) {
    && IsSquare(isFunction, |isFunction|) && |isFunction| >= 21
    && forall c: Cell :: InGrid(c, |isFunction|) && IsFormatCell(|isFunction|, c) ==> At(isFunction, c)
  }

  /** Later format bits overwrite earlier ones. */
  lemma FormatOverwrites(g: Grid, word: seq<bool>, word': seq<bool>)
    requires IsSquare(g, |g|) && |g| >= 21 && |word| == 15 && |word'| == 15
    ensures FormatDrawn(FormatDrawn(g, word), word') == FormatDrawn(g, word')
  {
    var a := FormatDrawn(FormatDrawn(g, word), word');
    var b := FormatDrawn(g, word');
    forall c: Cell | InGrid(c, |g|) ensures At(a, c) == At(b, c) {
      hide WithFormat, FormatCell, FormatModule;
      if IsFormatCell(|g|, c) {
        var k :| 0 <= k < FORMAT_MODULES && c == FormatCell(|g|, k);
        FormatModuleAt(FormatDrawn(g, word), word', FORMAT_MODULES, k);
        FormatModuleAt(g, word', FORMAT_MODULES, k);
      } else {
        FormatFrame(FormatDrawn(g, word), word', FORMAT_MODULES, c);
        FormatFrame(g, word, FORMAT_MODULES, c);
        FormatFrame(g, word', FORMAT_MODULES, c);
      }
    }
    SameModules(a, b);
  }

  /** Masking and drawing format bits commute. */
  lemma MaskFormatCommute(g: Grid, isFunction: Grid, mask: nat, word: seq<bool>)
    requires IsSquare(g, |g|) && |isFunction| == |g| && FormatIsFunction(isFunction) && |word| == 15
    ensures Masked(FormatDrawn(g, word), isFunction, mask) == FormatDrawn(Masked(g, isFunction, mask), word)
  {
    var a := Masked(FormatDrawn(g, word), isFunction, mask);
    var b := FormatDrawn(Masked(g, isFunction, mask), word);
    forall c: Cell | InGrid(c, |g|) ensures At(a, c) == At(b, c) {
      hide WithFormat, FormatCell, FormatModule, Inverts;
      if IsFormatCell(|g|, c) {
        var k :| 0 <= k < FORMAT_MODULES && c == FormatCell(|g|, k);
        FormatModuleAt(g, word, FORMAT_MODULES, k);
        FormatModuleAt(Masked(g, isFunction, mask), word, FORMAT_MODULES, k);
      } else {
        FormatFrame(g, word, FORMAT_MODULES, c);
        FormatFrame(Masked(g, isFunction, mask), word, FORMAT_MODULES, c);
      }
    }
    SameModules(a, b);
  }
}
