/**
 The penalty score that getPenaltyScore gives a grid, and what each part of it counts.
 */
module Penalty {
  import opened Zigzag

  const PENALTY_N1 := 3
  const PENALTY_N2 := 3
  const PENALTY_N3 := 40
  const PENALTY_N4 := 10

  // ---- One line of modules, as the code scans it ------------------------------------------

  /** The last seven run lengths, newest first. */
  type History = h: seq<nat> | |h| == 7 witness [0, 0, 0, 0, 0, 0, 0]

  function AddHistory(size: nat, run: nat, h: History): History {
    [if h[0] == 0 then run + size else run] + h[..6]
  }

  predicate Core(h: History) {
    var n := h[1];
    n > 0 && h[2] == n && h[3] == n * 3 && h[4] == n && h[5] == n
  }

  function CountPatterns(h: History): nat {
    var n := h[1];
    (if Core(h) && h[0] >= n * 4 && h[6] >= n then 1 else 0) +
    (if Core(h) && h[6] >= n * 4 && h[0] >= n then 1 else 0)
  }

  /** The loop variables of a line scan. */
  datatype Scanner = Scanner(color: bool, run: nat, history: History, score: nat)

  const START := Scanner(false, 0, [0, 0, 0, 0, 0, 0, 0], 0)

  function Step(size: nat, s: Scanner, module_: bool): Scanner {
    if module_ == s.color then
      var run := s.run + 1;
      s.(run := run, score := s.score + (if run == 5 then PENALTY_N1 else if run > 5 then 1 else 0))
    else
      var h := AddHistory(size, s.run, s.history);
      Scanner(module_, 1, h, s.score + (if !s.color then CountPatterns(h) * PENALTY_N3 else 0))
  }

  function ScanLine(line: seq<bool>): Scanner {
    ScanPrefix(|line|, line)
  }

  function ScanPrefix(size: nat, line: seq<bool>): Scanner {
    if line == [] then START else Step(size, ScanPrefix(size, line[..|line| - 1]), line[|line| - 1])
  }

  /** The history when the line has ended and a white border has been added to its last run. */
  function FinalHistory(size: nat, s: Scanner): History {
    var h := if s.color then AddHistory(size, s.run, s.history) else s.history;
    AddHistory(size, (if s.color then 0 else s.run) + size, h)
  }

  /** finderPenaltyTerminateAndCount. */
  function TerminateAndCount(size: nat, s: Scanner): nat {
    CountPatterns(FinalHistory(size, s))
  }

  function LinePenalty(line: seq<bool>): nat {
    var s := ScanLine(line);
    s.score + TerminateAndCount(|line|, s) * PENALTY_N3
  }

  // ---- What a line's penalty means ---------------------------------------------------------

  /** Finished runs of a prefix, alternating from white, and the run in progress. */
  datatype Runs = Runs(finished: seq<nat>, color: bool, current: nat)

  function RunsOf(line: seq<bool>): (r: Runs)
    ensures r.color <==> |r.finished| % 2 == 1
    ensures forall i :: 0 < i < |r.finished| ==> r.finished[i] > 0
    ensures r.finished != [] ==> r.current > 0
    ensures r.current <= |line|
  {
    if line == [] then Runs([], false, 0)
    else
      var r := RunsOf(line[..|line| - 1]);
      if line[|line| - 1] == r.color then r.(current := r.current + 1)
      else Runs(r.finished + [r.current], line[|line| - 1], 1)
  }

  /** All runs of a line from its first white run to its last, with a white border of the
      line's own width added at both ends. */
  function BorderedRuns(line: seq<bool>): (p: seq<nat>)
  {
    var r := RunsOf(line);
    var closed := if r.color then r.finished + [r.current] else r.finished;
    var last := if r.color then 0 else r.current;
    Bordered(|line|, closed + [last + |line|])
  }

  function Bordered(size: nat, runs: seq<nat>): (p: seq<nat>)
    ensures |p| == |runs|
  {
    if runs == [] then [] else [runs[0] + size] + runs[1..]
  }

  /** The window of seven runs ending at position i, newest first. */
  function Window(p: seq<nat>, i: nat): History
    requires 6 <= i < |p|
  {
    [p[i], p[i - 1], p[i - 2], p[i - 3], p[i - 4], p[i - 5], p[i - 6]]
  }

  /** Finder-like patterns 1:1:3:1:1 with a white margin of four on one side, over all white runs. */
  function FinderPatterns(p: seq<nat>): nat {
    if p == [] then 0
    else
      var i := |p| - 1;
      FinderPatterns(p[..i]) + (if i % 2 == 0 && i >= 6 then CountPatterns(Window(p, i)) else 0)
  }

  /** A run of five or more scores two less than its length. */
  function RunScore(run: nat): nat {
    if run >= 5 then run - 2 else 0
  }

  function RunScores(runs: seq<nat>): nat {
    if runs == [] then 0 else RunScores(runs[..|runs| - 1]) + RunScore(runs[|runs| - 1])
  }

  /** The seven-entry history after a list of bordered runs, zero-filled. */
  function Newest(p: seq<nat>): History {
    seq(7, i requires 0 <= i < 7 => if i < |p| then p[|p| - 1 - i] else 0)
  }

  lemma NewestIsAddHistory(size: nat, runs: seq<nat>, run: nat)
    requires size > 0
    requires forall i :: 0 < i < |runs| ==> runs[i] > 0
    ensures Newest(Bordered(size, runs + [run])) == AddHistory(size, run, Newest(Bordered(size, runs)))
  {
    var p, q := Bordered(size, runs), Bordered(size, runs + [run]);
    if runs == [] {
      assert q == [run + size];
    } else {
      assert q == p + [run];
      assert p[|p| - 1] > 0;
    }
  }

  /** A zero-filled history holds no pattern. */
  lemma PatternsOfNewest(p: seq<nat>)
    requires p != []
    ensures CountPatterns(Newest(p)) == if |p| >= 7 then CountPatterns(Window(p, |p| - 1)) else 0
  {
    if |p| >= 7 {
      assert Newest(p) == Window(p, |p| - 1);
    }
  }

  /** The streaming scan has scored the finished runs and the run in progress. */
  lemma {:induction false} ScanMeaning(size: nat, line: seq<bool>)
    requires size > 0
    ensures var s, r := ScanPrefix(size, line), RunsOf(line);
            && s.color == r.color && s.run == r.current
            && s.history == Newest(Bordered(size, r.finished))
            && s.score ==
               RunScores(r.finished) + RunScore(r.current) + PENALTY_N3 * FinderPatterns(Bordered(size, r.finished))
  {
    if line == [] {
      assert Newest([]) == START.history;
    } else {
      var init, m := line[..|line| - 1], line[|line| - 1];
      ScanMeaning(size, init);
      var r := RunsOf(init);
      if m != r.color {
        NewestIsAddHistory(size, r.finished, r.current);
        FinishRun(size, r);
      }
    }
  }

  /** Closing a run adds the patterns its white end completes. */
  lemma FinishRun(size: nat, r: Runs)
    requires size > 0
    requires r.color <==> |r.finished| % 2 == 1
    ensures var p, q := Bordered(size, r.finished), Bordered(size, r.finished + [r.current]);
            FinderPatterns(q) == FinderPatterns(p) + (if r.color then 0 else CountPatterns(Newest(q)))
    ensures RunScores(r.finished + [r.current]) == RunScores(r.finished) + RunScore(r.current)
  {
    hide CountPatterns, Newest, RunScore;
    var p, q := Bordered(size, r.finished), Bordered(size, r.finished + [r.current]);
    assert q[..|q| - 1] == p;
    assert (r.finished + [r.current])[..|r.finished|] == r.finished;
    hide Bordered;
    PatternsOfNewest(q);
  }

  /** A line scores its runs of five or more and, forty each, its finder-like patterns. */
  lemma LinePenaltyMeaning(line: seq<bool>)
    requires line != []
    ensures var r := RunsOf(line);
            LinePenalty(line) ==
            RunScores(r.finished) + RunScore(r.current) + PENALTY_N3 * FinderPatterns(BorderedRuns(line))
  {
    var size, r := |line|, RunsOf(line);
    hide CountPatterns, FinderPatterns, RunScores, RunScore, AddHistory, Newest, Bordered, RunsOf, ScanPrefix;
    ScanMeaning(size, line);
    var closed := if r.color then r.finished + [r.current] else r.finished;
    if r.color {
      NewestIsAddHistory(size, r.finished, r.current);
      FinishRun(size, r);
    }
    var last := (if r.color then 0 else r.current) + size;
    NewestIsAddHistory(size, closed, last);
    FinishRun(size, Runs(closed, false, last));
  }

  // ---- The whole grid -------------------------------------------------------------------------

  function ColumnOf(g: Grid, x: nat): (c: seq<bool>)
    requires IsSquare(g, |g|) && x < |g|
    ensures |c| == |g|
  {
    seq(|g|, y requires 0 <= y < |g| => g[y][x])
  }

  function RowPenalties(g: Grid, n: nat): nat
    requires IsSquare(g, |g|) && n <= |g|
  {
    if n == 0 then 0 else RowPenalties(g, n - 1) + LinePenalty(g[n - 1])
  }

  function ColumnPenalties(g: Grid, n: nat): nat
    requires IsSquare(g, |g|) && n <= |g|
  {
    if n == 0 then 0 else ColumnPenalties(g, n - 1) + LinePenalty(ColumnOf(g, n - 1))
  }

  predicate UniformBlock(g: Grid, x: nat, y: nat)
    requires IsSquare(g, |g|) && x + 1 < |g| && y + 1 < |g|
  {
    g[y][x] == g[y][x + 1] == g[y + 1][x] == g[y + 1][x + 1]
  }

  function BlocksInRow(g: Grid, y: nat, n: nat): nat
    requires IsSquare(g, |g|) && y + 1 < |g| && n < |g|
    ensures BlocksInRow(g, y, n) <= n
  {
    if n == 0 then 0 else BlocksInRow(g, y, n - 1) + (if UniformBlock(g, n - 1, y) then 1 else 0)
  }

  function Blocks(g: Grid, n: nat): nat
    requires IsSquare(g, |g|) && n < |g|
  {
    if n == 0 then 0 else Blocks(g, n - 1) + BlocksInRow(g, n - 1, |g| - 1)
  }

  function BlackInRow(row: seq<bool>): nat
    ensures BlackInRow(row) <= |row|
  {
    if row == [] then 0 else BlackInRow(row[..|row| - 1]) + (if row[|row| - 1] then 1 else 0)
  }

  function Black(g: seq<seq<bool>>): nat {
    if g == [] then 0 else Black(g[..|g| - 1]) + BlackInRow(g[|g| - 1])
  }

  function Abs(x: int): nat {
    if x < 0 then -x else x
  }

  /** Steps of five percent by which the black share strays from one half. */
  function Imbalance(black: nat, total: nat): int
    requires total > 0
  {
    (Abs(black * 20 - total * 10) + total - 1) / total - 1
  }

  function Score(g: Grid): int
    requires IsSquare(g, |g|) && |g| > 0
  {
    RowPenalties(g, |g|) + ColumnPenalties(g, |g|) + PENALTY_N2 * Blocks(g, |g| - 1)
      + PENALTY_N4 * Imbalance(Black(g), |g| * |g|)
  }

  /** The share of black lies within 45-5k and 55+5k percent. */
  ghost predicate WithinBand(black: nat, total: nat, k: int) {
    (45 - 5 * k) * total <= 100 * black <= (55 + 5 * k) * total
  }

  lemma DivideUp(a: nat, t: nat, k: int)
    requires t > 0
    ensures a <= (k + 1) * t <==> (a + t - 1) / t - 1 <= k
  {
    var q := (a + t - 1) / t;
    DivisionBounds(a + t - 1, t);
    if q <= k + 1 {
      ProductGrows(q, k + 1, t);
    } else {
      ProductGrows(k + 1, q - 1, t);
      assert (q - 1) * t == q * t - t;
    }
  }

  lemma DivisionBounds(n: nat, t: nat)
    requires t > 0
    ensures n / t * t <= n < n / t * t + t
  {
    assert n == n / t * t + n % t;
  }

  lemma ProductGrows(x: int, y: int, t: nat)
    requires x <= y
    ensures x * t <= y * t
  {
    assert (y - x) * t >= 0;
    assert (y - x) * t == y * t - x * t;
  }

  lemma BandIsBound(black: nat, total: nat, k: int)
    ensures WithinBand(black, total, k) <==> Abs(black * 20 - total * 10) <= (k + 1) * total
  {
    var p := k * total;
    assert (45 - 5 * k) * total == 45 * total - 5 * p;
    assert (55 + 5 * k) * total == 55 * total + 5 * p;
    assert (k + 1) * total == p + total;
  }

  /** When black and white are not equal in number, the balance term is the smallest
      non-negative k whose band holds the share of black. */
  lemma ImbalanceIsSmallest(black: nat, total: nat, k: nat)
    requires total > 0 && 2 * black != total
    ensures Imbalance(black, total) >= 0
    ensures WithinBand(black, total, Imbalance(black, total))
    ensures WithinBand(black, total, k) ==> Imbalance(black, total) <= k
  {
    var a := Abs(black * 20 - total * 10);
    BandIsBound(black, total, k);
    BandIsBound(black, total, Imbalance(black, total));
    DivideUp(a, total, Imbalance(black, total));
    DivideUp(a, total, k);
    DivideUp(a, total, -1);
  }

  // ---- The code ----------------------------------------------------------------------------------

  ghost predicate Bounded(s: Scanner, size: nat, seen: nat) {
    && s.run <= seen
    && (forall i :: 0 <= i < 7 ==> s.history[i] <= 2 * size)
    && s.score <= 83 * seen
  }

  /** Runs stay within bounds, in the history each pattern count is made on too. */
  lemma StepBounded(size: nat, s: Scanner, m: bool, seen: nat)
    requires seen < size && Bounded(s, size, seen)
    ensures Bounded(Step(size, s, m), size, seen + 1)
    ensures AddHistory(size, s.run, s.history)[1] <= 3 * size
  {
  }

  lemma {:induction false} PrefixBounded(size: nat, line: seq<bool>)
    requires |line| <= size
    ensures Bounded(ScanPrefix(size, line), size, |line|)
    decreases |line|
  {
    hide Bounded;
    if line == [] {
      StartBounded(size);
    } else {
      var n := |line| - 1;
      PrefixBounded(size, line[..n]);
      StepBounded(size, ScanPrefix(size, line[..n]), line[n], n);
    }
  }

  lemma StartBounded(size: nat)
    ensures Bounded(START, size, 0)
  {
  }

  /**
   The range assertion of the pattern count fires nowhere in a line: neither where a run ends nor
   at the line's end.
   */
  lemma CountsInRange(line: seq<bool>, k: nat)
    requires k <= |line|
    ensures var s := ScanPrefix(|line|, line[..k]); AddHistory(|line|, s.run, s.history)[1] <= 3 * |line|
    ensures FinalHistory(|line|, ScanLine(line))[1] <= 3 * |line|
  {
    PrefixBounded(|line|, line[..k]);
    PrefixBounded(|line|, line);
  }

  method ScoreRow(g: Grid, y: nat) returns (result: nat)
    requires IsSquare(g, |g|) && y < |g|
    ensures result == LinePenalty(g[y])
  {
    var size := |g|;
    var s := START;
    for x := 0 to size
      invariant s == ScanPrefix(size, g[y][..x]) && Bounded(s, size, x)
    {
      assert g[y][..x + 1][..x] == g[y][..x];
      StepBounded(size, s, g[y][x], x);
      s := Step(size, s, g[y][x]);
    }
    assert g[y][..size] == g[y];
    result := s.score + TerminateAndCount(size, s) * PENALTY_N3;
  }

  method ScoreColumn(g: Grid, x: nat) returns (result: nat)
    requires IsSquare(g, |g|) && x < |g|
    ensures result == LinePenalty(ColumnOf(g, x))
  {
    var size := |g|;
    var s := START;
    ghost var column := ColumnOf(g, x);
    for y := 0 to size
      invariant s == ScanPrefix(size, column[..y]) && Bounded(s, size, y)
    {
      assert column[..y + 1][..y] == column[..y];
      StepBounded(size, s, g[y][x], y);
      s := Step(size, s, g[y][x]);
    }
    assert column[..size] == column;
    result := s.score + TerminateAndCount(size, s) * PENALTY_N3;
  }

  method CountBlocks(g: Grid) returns (n: nat)
    requires IsSquare(g, |g|) && |g| > 0
    ensures n == Blocks(g, |g| - 1)
  {
    n := 0;
    for y := 0 to |g| - 1
      invariant n == Blocks(g, y)
    {
      for x := 0 to |g| - 1
        invariant n == Blocks(g, y) + BlocksInRow(g, y, x)
      {
        if UniformBlock(g, x, y) {
          n := n + 1;
        }
      }
    }
  }

  method CountBlack(g: Grid) returns (n: nat)
    ensures n == Black(g)
  {
    n := 0;
    for y := 0 to |g|
      invariant n == Black(g[..y])
    {
      var row := g[y];
      for x := 0 to |row|
        invariant n == Black(g[..y]) + BlackInRow(row[..x])
      {
        assert row[..x + 1][..x] == row[..x];
        if row[x] {
          n := n + 1;
        }
      }
      assert row[..|row|] == row;
      assert g[..y + 1][..y] == g[..y];
    }
    assert g[..|g|] == g;
  }

  lemma LineBounded(line: seq<bool>)
    ensures LinePenalty(line) <= 83 * |line| + 80
  {
    hide ScanPrefix;
    PrefixBounded(|line|, line);
  }

  lemma {:induction false} LinesBounded(g: Grid, n: nat)
    requires IsSquare(g, |g|) && n <= |g| <= 177
    ensures RowPenalties(g, n) <= n * 14771 && ColumnPenalties(g, n) <= n * 14771
  {
    hide LinePenalty;
    if n > 0 {
      LinesBounded(g, n - 1);
      LineBounded(g[n - 1]);
      LineBounded(ColumnOf(g, n - 1));
    }
  }

  lemma {:induction false} BlocksBounded(g: Grid, n: nat)
    requires IsSquare(g, |g|) && n < |g| <= 177
    ensures Blocks(g, n) <= n * 177
  {
    if n > 0 {
      BlocksBounded(g, n - 1);
    }
  }

  lemma {:induction false} BlackBounded(g: seq<seq<bool>>, width: nat)
    requires forall y :: 0 <= y < |g| ==> |g[y]| == width
    ensures Black(g) <= |g| * width
  {
    if g != [] {
      BlackBounded(g[..|g| - 1], width);
      assert |g| * width == (|g| - 1) * width + width;
    }
  }

  /** Every score a symbol can have is far below LONG_MAX, the code's starting minimum. */
  lemma ScoreBounded(g: Grid)
    requires IsSquare(g, |g|) && 0 < |g| <= 177
    ensures Score(g) < 0x7FFF_FFFF_FFFF_FFFF
  {
    hide LinePenalty, RowPenalties, ColumnPenalties, Blocks, Black;
    LinesBounded(g, |g|);
    BlocksBounded(g, |g| - 1);
    BlackBounded(g, |g|);
    var total := |g| * |g|;
    DivideUp(Abs(Black(g) * 20 - total * 10), total, 9);
  }

  /** getPenaltyScore. */
  method GetPenaltyScore(g: Grid) returns (result: int)
    requires IsSquare(g, |g|) && |g| > 0
    ensures result == Score(g)
  {
    hide LinePenalty, Imbalance, Blocks, Black;
    var size := |g|;
    var rows: nat := 0;
    for y := 0 to size
      invariant rows == RowPenalties(g, y)
    {
      var line := ScoreRow(g, y);
      rows := rows + line;
    }
    var columns: nat := 0;
    for x := 0 to size
      invariant columns == ColumnPenalties(g, x)
    {
      var line := ScoreColumn(g, x);
      columns := columns + line;
    }
    var blocks := CountBlocks(g);
    var black := CountBlack(g);
    result := rows + columns + PENALTY_N2 * blocks + PENALTY_N4 * Imbalance(black, size * size);
  }
}
