/**
 The editing operations on the line as a value, and what every run of them keeps.
 */
module LineOps {
  import opened FoldedLine
  import opened Utf8

  // ---- Cursor steps ------------------------------------------------------------------------------

  /** The fold that begins at pos, as a list of at most one. */
  function BeginsAt(folds: seq<Fold>, pos: nat): (r: seq<Fold>)
    ensures |r| <= 1 && (r != [] ==> r[0] in folds && r[0].start == pos)
  {
    if folds == [] then []
    else if folds[0].start == pos then [folds[0]]
    else BeginsAt(folds[1..], pos)
  }

  function EndsAt(folds: seq<Fold>, pos: nat): (r: seq<Fold>)
    ensures |r| <= 1 && (r != [] ==> r[0] in folds && r[0].end == pos)
  {
    if folds == [] then []
    else if folds[0].end == pos then [folds[0]]
    else EndsAt(folds[1..], pos)
  }

  /** One step right: over the whole fold that begins here, or over one cluster. */
  function NextPos(l: Line, pos: nat): (q: nat)
    requires Ok(l) && pos <= |l.text|
    ensures pos <= q <= |l.text| && (pos < |l.text| ==> pos < q)
  {
    var f := if l.masked then [] else BeginsAt(l.folds, pos);
    if f != [] then f[0].end else NextEnd(l.text, pos)
  }

  /** One step left. */
  function PrevPos(l: Line, pos: nat): (q: nat)
    requires Ok(l) && pos <= |l.text|
    ensures q <= pos && (pos > 0 ==> q < pos)
  {
    var f := if l.masked then [] else EndsAt(l.folds, pos);
    if f != [] then f[0].start else PrevStart(l.text, pos)
  }

  // ---- Operations --------------------------------------------------------------------------------

  function Insert(l: Line, c: seq<Byte>): Line
    requires Ok(l)
  {
    Line(Inserted(l.text, l.pos, c), l.pos + |c|, AfterInsert(l.folds, l.pos, |c|), l.masked)
  }

  /** Pasted text with a newline in it is inserted and folded away. */
  function Paste(l: Line, c: seq<Byte>): Line
    requires Ok(l)
  {
    if l.masked || NEWLINE !in c then Insert(l, c)
    else Insert(l, c).(folds := FoldAdd(AfterInsert(l.folds, l.pos, |c|), l.pos, l.pos + |c|))
  }

  function Cut(l: Line, pos: nat, n: nat): Line
    requires Ok(l) && pos + n <= |l.text|
  {
    Line(Removed(l.text, pos, n), pos, AfterDelete(l.folds, pos, n), l.masked)
  }

  function MoveLeft(l: Line): Line
    requires Ok(l)
  {
    l.(pos := PrevPos(l, l.pos))
  }

  function MoveRight(l: Line): Line
    requires Ok(l)
  {
    l.(pos := NextPos(l, l.pos))
  }

  function Delete(l: Line): Line
    requires Ok(l)
  {
    if l.pos < |l.text| then Cut(l, l.pos, NextPos(l, l.pos) - l.pos) else l
  }

  function Backspace(l: Line): Line
    requires Ok(l)
  {
    if l.pos > 0 then Cut(l, PrevPos(l, l.pos), l.pos - PrevPos(l, l.pos)) else l
  }

  /** Steps left while the byte before the cursor is a space, or while it is not. */
  function SkipBack(l: Line, pos: nat, spaces: bool): (q: nat)
    requires Ok(l) && pos <= |l.text|
    ensures q <= pos && (q == 0 || (l.text[q - 1] == SPACE) != spaces)
    decreases pos
  {
    if pos > 0 && (l.text[pos - 1] == SPACE) == spaces then SkipBack(l, PrevPos(l, pos), spaces) else pos
  }

  function DeletePrevWord(l: Line): Line
    requires Ok(l)
  {
    var q := SkipBack(l, SkipBack(l, l.pos, true), false);
    Cut(l, q, l.pos - q)
  }

  predicate Overlaps(folds: seq<Fold>, start: nat, end: nat) {
    exists i :: 0 <= i < |folds| && end > folds[i].start && start < folds[i].end
  }

  const SWAP_MAX := 32

  /** Exchanges the clusters around the cursor, unless one is too long or a fold is touched. */
  function Swap(l: Line): Line
    requires Ok(l)
  {
    if 0 < l.pos < |l.text| then
      var s, e := PrevPos(l, l.pos), NextPos(l, l.pos);
      if l.pos - s > SWAP_MAX || e - l.pos > SWAP_MAX || Overlaps(l.folds, s, e) then l
      else l.(text := l.text[..s] + l.text[l.pos..e] + l.text[s..l.pos] + l.text[e..], pos := e)
    else l
  }

  function KillLine(l: Line): Line {
    Line([], 0, [], l.masked)
  }

  function KillEnd(l: Line): Line
    requires Ok(l)
  {
    Line(l.text[..l.pos], l.pos, AfterDelete(l.folds, l.pos, |l.text| - l.pos), l.masked)
  }

  // ---- Recalling a history entry ---------------------------------------------------------------

  const CONTEXT := 8

  datatype Context = Context(pos: nat, newline: bool)

  /** Up to k clusters from pos on, and whether one of them starts with a newline. */
  function ContextAfter(text: seq<Byte>, c: Context, k: nat): (r: Context)
    requires c.pos <= |text|
    ensures r.pos <= |text|
    decreases k
  {
    if k == 0 || c.pos == |text| then c
    else ContextAfter(text, Context(NextEnd(text, c.pos), c.newline || text[c.pos] == NEWLINE), k - 1)
  }

  function ContextBefore(text: seq<Byte>, c: Context, k: nat): (r: Context)
    requires c.pos <= |text|
    ensures r.pos <= |text|
    decreases k
  {
    if k == 0 || c.pos == 0 then c
    else
      var p := PrevStart(text, c.pos);
      ContextBefore(text, Context(p, c.newline || text[p] == NEWLINE), k - 1)
  }

  /** The fold a recalled text gets: all of it but a little context at both ends. */
  function HistoryFold(text: seq<Byte>): (f: Fold)
    requires text != []
    ensures f.start < f.end <= |text|
  {
    var a := ContextAfter(text, Context(0, false), CONTEXT);
    var b := ContextBefore(text, Context(|text|, false), CONTEXT);
    var start, end := if a.newline then 0 else a.pos, if b.newline then |text| else b.pos;
    if |text| <= 2 * CONTEXT || start >= end then Fold(0, |text|) else Fold(start, end)
  }

  function Recall(l: Line, entry: seq<Byte>): Line {
    Line(entry, |entry|, if entry == [] || l.masked || NEWLINE !in entry then [] else [HistoryFold(entry)], l.masked)
  }

  // ---- Runs ----------------------------------------------------------------------------------------

  datatype Op =
    | Type(c: seq<Byte>) | PasteText(c: seq<Byte>) | Left | Right | Home | End | Del | Back | BackWord
    | Transpose | Clear | ClearToEnd | FromHistory(entry: seq<Byte>)

  function Step(l: Line, op: Op): Line
    requires Ok(l)
  {
    match op
    case Type(c) => Insert(l, c)
    case PasteText(c) => Paste(l, c)
    case Left => MoveLeft(l)
    case Right => MoveRight(l)
    case Home => l.(pos := 0)
    case End => l.(pos := |l.text|)
    case Del => Delete(l)
    case Back => Backspace(l)
    case BackWord => DeletePrevWord(l)
    case Transpose => Swap(l)
    case Clear => KillLine(l)
    case ClearToEnd => KillEnd(l)
    case FromHistory(entry) => Recall(l, entry)
  }

  lemma InsertOk(l: Line, c: seq<Byte>)
    requires Ok(l)
    ensures Ok(Insert(l, c)) && Ok(Paste(l, c))
  {
    hide FoldsOk, Apart, FoldAdd, AfterInsert;
    InsertKeepsOk(l.folds, |l.text|, l.pos, |c|);
    OkWithin(AfterInsert(l.folds, l.pos, |c|), Shifted(|l.text|, l.pos, |c|), |l.text| + |c|);
    InsertLeavesApart(l.folds, |l.text|, l.pos, |c|);
    AddKeepsOk(AfterInsert(l.folds, l.pos, |c|), |l.text| + |c|, l.pos, l.pos + |c|);
  }

  lemma CutOk(l: Line, pos: nat, n: nat)
    requires Ok(l) && pos + n <= |l.text|
    ensures Ok(Cut(l, pos, n))
  {
    hide FoldsOk, AfterDelete;
    DeleteKeepsOk(l.folds, |l.text|, pos, n);
  }

  lemma KillEndIsCut(l: Line)
    requires Ok(l)
    ensures KillEnd(l) == Cut(l, l.pos, |l.text| - l.pos)
  {
  }

  lemma SwapOk(l: Line)
    requires Ok(l)
    ensures Ok(Swap(l)) && |Swap(l).text| == |l.text|
  {
    hide NextPos, PrevPos;
  }

  /** Every operation leaves the cursor and the folds in order. */
  lemma StepOk(l: Line, op: Op)
    requires Ok(l)
    ensures Ok(Step(l, op))
  {
    hide FoldsOk, NextPos, PrevPos, Insert, Paste, Swap, SkipBack, HistoryFold;
    match op {
      case Type(c) => InsertOk(l, c);
      case PasteText(c) => InsertOk(l, c);
      case Del =>
        if l.pos < |l.text| {
          CutOk(l, l.pos, NextPos(l, l.pos) - l.pos);
        }
      case Back =>
        if l.pos > 0 {
          CutOk(l, PrevPos(l, l.pos), l.pos - PrevPos(l, l.pos));
        }
      case BackWord =>
        var q := SkipBack(l, SkipBack(l, l.pos, true), false);
        CutOk(l, q, l.pos - q);
      case Transpose => SwapOk(l);
      case Clear => NoFoldsOk();
      case ClearToEnd =>
        KillEndIsCut(l);
        CutOk(l, l.pos, |l.text| - l.pos);
      case FromHistory(entry) => RecallOk(l, entry);
      case _ =>
    }
  }

  lemma NoFoldsOk()
    ensures FoldsOk([], 0)
  {
  }

  lemma RecallOk(l: Line, entry: seq<Byte>)
    ensures Ok(Recall(l, entry))
  {
    hide HistoryFold;
  }

  // ---- Folds hide what they were made for -----------------------------------------------------------

  /** The texts an operation folds away itself. */
  ghost function Fresh(l: Line, op: Op): set<seq<Byte>> {
    match op
    case PasteText(c) => if l.masked || NEWLINE !in c then {} else {c}
    case FromHistory(entry) =>
      if entry == [] || l.masked || NEWLINE !in entry then {}
      else {entry[HistoryFold(entry).start..HistoryFold(entry).end]}
    case _ => {}
  }

  ghost function HiddenBy(l: Line): seq<seq<Byte>>
    requires Ok(l)
  {
    Hidden(l.text, l.folds)
  }

  lemma InsertHidden(l: Line, c: seq<Byte>)
    requires Ok(l)
    ensures Ok(Insert(l, c)) && IsPart(HiddenBy(Insert(l, c)), HiddenBy(l))
  {
    hide FoldsOk, IsPart, Hidden;
    InsertOk(l, c);
    InsertKeepsHidden(l.text, l.folds, l.pos, c);
  }

  lemma CutHidden(l: Line, pos: nat, n: nat)
    requires Ok(l) && pos + n <= |l.text|
    ensures Ok(Cut(l, pos, n)) && IsPart(HiddenBy(Cut(l, pos, n)), HiddenBy(l))
  {
    hide FoldsOk, IsPart, Hidden;
    CutOk(l, pos, n);
    DeleteKeepsHidden(l.text, l.folds, pos, n);
  }

  lemma SwapHidden(l: Line)
    requires Ok(l)
    ensures Ok(Swap(l)) && HiddenBy(Swap(l)) == HiddenBy(l)
  {
    hide NextPos, PrevPos;
    SwapOk(l);
    if 0 < l.pos < |l.text| && Swap(l) != l {
      var s, e := PrevPos(l, l.pos), NextPos(l, l.pos);
      forall i | 0 <= i < |l.folds|
        ensures Swap(l).text[l.folds[i].start..l.folds[i].end] == l.text[l.folds[i].start..l.folds[i].end]
      {
        var f := l.folds[i];
        assert f.end <= s || e <= f.start;
        SwapSlice(l.text, s, l.pos, e, f.start, f.end);
      }
    }
  }

  lemma SwapSlice(text: seq<Byte>, s: nat, p: nat, e: nat, i: nat, j: nat)
    requires s <= p <= e <= |text| && i <= j <= |text| && (j <= s || e <= i)
    ensures var now := text[..s] + text[p..e] + text[s..p] + text[e..];
            |now| == |text| && now[i..j] == text[i..j]
  {
  }

  /** A pasted fold hides exactly the pasted text. */
  lemma PasteHidden(l: Line, c: seq<Byte>, x: seq<Byte>)
    requires Ok(l) && !l.masked && NEWLINE in c
    ensures Ok(Paste(l, c)) && (x in HiddenBy(Paste(l, c)) ==> x == c || x in HiddenBy(l))
  {
    hide FoldsOk, IsPart, AfterInsert, AddIndex;
    InsertHidden(l, c);
    InsertOk(l, c);
    var m := Paste(l, c);
    if x in HiddenBy(m) {
      var i :| 0 <= i < |m.folds| && HiddenBy(m)[i] == x;
      var f := m.folds[i];
      if f == Fold(l.pos, l.pos + |c|) {
        assert m.text[l.pos..l.pos + |c|] == c;
      } else {
        var k :| 0 <= k < |Insert(l, c).folds| && Insert(l, c).folds[k] == f;
        assert HiddenBy(Insert(l, c))[k] == x;
        PartMembers(HiddenBy(Insert(l, c)), HiddenBy(l), x);
      }
    }
  }

  lemma RecallHidden(l: Line, entry: seq<Byte>, x: seq<Byte>)
    requires Ok(Recall(l, entry)) && x in HiddenBy(Recall(l, entry))
    ensures x in Fresh(l, FromHistory(entry))
  {
    hide HistoryFold;
  }

  /** After any operation a fold hides what a fold hid before, or what the operation folded away. */
  lemma StepHidden(l: Line, op: Op, x: seq<Byte>)
    requires Ok(l)
    ensures Ok(Step(l, op)) && (x in HiddenBy(Step(l, op)) ==> x in HiddenBy(l) || x in Fresh(l, op))
  {
    hide FoldsOk, IsPart, Hidden, NextPos, PrevPos, Insert, Swap, SkipBack, Cut, HistoryFold, KillEnd, Recall;
    StepOk(l, op);
    if x in HiddenBy(Step(l, op)) {
      match op {
        case Type(c) =>
          InsertHidden(l, c);
          PartMembers(HiddenBy(Insert(l, c)), HiddenBy(l), x);
        case PasteText(c) =>
          if l.masked || NEWLINE !in c {
            InsertHidden(l, c);
            PartMembers(HiddenBy(Insert(l, c)), HiddenBy(l), x);
          } else {
            PasteHidden(l, c, x);
          }
        case Del =>
          if l.pos < |l.text| {
            CutMember(l, l.pos, NextPos(l, l.pos) - l.pos, x);
          }
        case Back =>
          if l.pos > 0 {
            CutMember(l, PrevPos(l, l.pos), l.pos - PrevPos(l, l.pos), x);
          }
        case BackWord =>
          var q := SkipBack(l, SkipBack(l, l.pos, true), false);
          CutMember(l, q, l.pos - q, x);
        case Transpose => SwapHidden(l);
        case Clear => NothingHidden([]);
        case ClearToEnd =>
          KillEndIsCut(l);
          CutMember(l, l.pos, |l.text| - l.pos, x);
        case FromHistory(entry) => RecallHidden(l, entry, x);
        case _ =>
      }
    }
  }

  lemma CutMember(l: Line, pos: nat, n: nat, x: seq<Byte>)
    requires Ok(l) && pos + n <= |l.text|
    requires Ok(Cut(l, pos, n)) && x in HiddenBy(Cut(l, pos, n))
    ensures x in HiddenBy(l)
  {
    hide FoldsOk, IsPart, HiddenBy, Cut;
    CutHidden(l, pos, n);
    PartMembers(HiddenBy(Cut(l, pos, n)), HiddenBy(l), x);
  }

  // ---- Undoing an insertion --------------------------------------------------------------------------

  ghost predicate InsideFold(folds: seq<Fold>, pos: nat) {
    exists i :: 0 <= i < |folds| && folds[i].start < pos < folds[i].end
  }

  lemma InsideStep(folds: seq<Fold>, pos: nat)
    requires folds != []
    ensures var f := folds[|folds| - 1];
            InsideFold(folds, pos) <==> InsideFold(folds[..|folds| - 1], pos) || f.start < pos < f.end
  {
    var n := |folds| - 1;
    if InsideFold(folds, pos) {
      var i :| 0 <= i < |folds| && folds[i].start < pos < folds[i].end;
      assert i < n ==> folds[..n][i] == folds[i];
    }
    if InsideFold(folds[..n], pos) {
      var i :| 0 <= i < n && folds[..n][i].start < pos < folds[..n][i].end;
      assert folds[i] == folds[..n][i];
    }
  }

  lemma DeleteAppend(a: seq<Fold>, b: seq<Fold>, pos: nat, n: nat)
    requires |b| <= 1
    ensures AfterDelete(a + b, pos, n) == AfterDelete(a, pos, n) + if b == [] then [] else FoldAfterDelete(b[0], pos, n)
  {
    hide FoldAfterDelete;
    if b == [] {
      assert a + b == a;
    } else {
      assert (a + b)[..|a|] == a;
    }
  }

  /** Deleting what was inserted brings back the folds, but for those the insertion broke up. */
  lemma {:induction false} FoldsUndone(folds: seq<Fold>, b: nat, pos: nat, n: nat)
    requires FoldsOk(folds, b)
    ensures var back := AfterDelete(AfterInsert(folds, pos, n), pos, n);
            if InsideFold(folds, pos) then |back| < |folds| else back == folds
    decreases |folds|
  {
    hide *;
    if folds == [] {
      NotInside(folds, pos, n);
    } else {
      var f, front := folds[|folds| - 1], folds[..|folds| - 1];
      OkFront(folds, b);
      FoldsUndone(front, f.start, pos, n);
      InsideStep(folds, pos);
      InsertLast(folds, pos, n);
      OneUndone(f, pos, n);
      DeleteAppend(AfterInsert(front, pos, n), FoldAfterInsert(f, pos, n), pos, n);
      assert folds == front + [f];
    }
  }

  lemma NotInside(folds: seq<Fold>, pos: nat, n: nat)
    requires folds == []
    ensures !InsideFold(folds, pos) && AfterInsert(folds, pos, n) == []
    ensures AfterDelete(AfterInsert(folds, pos, n), pos, n) == []
  {
  }

  lemma InsertLast(folds: seq<Fold>, pos: nat, n: nat)
    requires folds != []
    ensures AfterInsert(folds, pos, n) ==
            AfterInsert(folds[..|folds| - 1], pos, n) + FoldAfterInsert(folds[|folds| - 1], pos, n)
  {
  }

  lemma OneUndone(f: Fold, pos: nat, n: nat)
    requires f.start < f.end
    ensures var moved := FoldAfterInsert(f, pos, n);
            if f.start < pos < f.end then moved == [] else |moved| == 1 && FoldAfterDelete(moved[0], pos, n) == [f]
  {
  }

  /** Deleting what was just inserted gives the line back exactly when the cursor was not inside a fold. */
  lemma InsertUndoneExactly(l: Line, c: seq<Byte>)
    requires Ok(l)
    ensures Ok(Insert(l, c)) && (Cut(Insert(l, c), l.pos, |c|) == l <==> !InsideFold(l.folds, l.pos))
  {
    hide FoldsOk, InsideFold, AfterInsert, AfterDelete;
    InsertOk(l, c);
    FoldsUndone(l.folds, |l.text|, l.pos, |c|);
    assert Removed(Inserted(l.text, l.pos, c), l.pos, |c|) == l.text;
  }

  /** The line after a run, and every text some operation of the run folded away. */
  ghost function Run(l: Line, ops: seq<Op>): (r: (Line, set<seq<Byte>>))
    requires Ok(l)
    ensures Ok(r.0)
  {
    if ops == [] then (l, {})
    else
      var (before, folded) := Run(l, ops[..|ops| - 1]);
      StepOk(before, ops[|ops| - 1]);
      (Step(before, ops[|ops| - 1]), folded + Fresh(before, ops[|ops| - 1]))
  }

  /**
   In every run, each fold hides a range that was folded at the start or one whole pasted or
   recalled range, unchanged.
   */
  lemma {:induction false} FoldsNeverTear(l: Line, ops: seq<Op>, x: seq<Byte>)
    requires Ok(l) && x in HiddenBy(Run(l, ops).0)
    ensures x in HiddenBy(l) || x in Run(l, ops).1
    decreases |ops|
  {
    hide FoldsOk, Hidden, Step, Fresh;
    if ops != [] {
      var front := ops[..|ops| - 1];
      var before := Run(l, front).0;
      StepHidden(before, ops[|ops| - 1], x);
      if x in HiddenBy(before) {
        FoldsNeverTear(l, front, x);
      }
    }
  }
}
