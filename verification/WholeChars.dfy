/**
 Editing well-formed UTF-8: when only whole characters are typed, pasted and shown from the history,
 no operation splits one.  Which entries are shown whole is the matter of WholeHistory.
 */
module WholeChars {
  import opened FoldedLine
  import opened LineOps
  import opened Sanitize
  import opened Utf8

  /** The bytes begin with a complete character: ASCII, or a lead byte with its continuation bytes. */
  predicate IsWhole(s: seq<Byte>) {
    s != [] && (s[0] < 0x80 || Decode(s).len > 1)
  }

  /** A sequence of complete characters. */
  predicate IsText(s: seq<Byte>) {
    s == [] || (IsWhole(s) && IsText(s[Decode(s).len..]))
  }

  // ---- Joining and splitting -------------------------------------------------------------------

  lemma WholeExtended(a: seq<Byte>, b: seq<Byte>)
    requires IsWhole(a)
    ensures IsWhole(a + b) && Decode(a + b) == Decode(a)
  {
  }

  lemma WholeCut(s: seq<Byte>)
    requires IsWhole(s)
    ensures IsWhole(s[..Decode(s).len]) && Decode(s[..Decode(s).len]) == Decode(s)
  {
    DecodeCut(s, Decode(s).len);
  }

  lemma {:induction false} TextConcat(a: seq<Byte>, b: seq<Byte>)
    requires IsText(a) && IsText(b)
    ensures IsText(a + b)
    decreases |a|
  {
    hide Decode, IsWhole;
    if a == [] {
      assert a + b == b;
    } else {
      var n := Decode(a).len;
      WholeExtended(a, b);
      TextConcat(a[n..], b);
      assert (a + b)[n..] == a[n..] + b;
    }
  }

  lemma {:induction false} TextCancel(a: seq<Byte>, b: seq<Byte>)
    requires IsText(a) && IsText(a + b)
    ensures IsText(b)
    decreases |a|
  {
    hide Decode, IsWhole;
    if a == [] {
      assert a + b == b;
    } else {
      var n := Decode(a).len;
      WholeExtended(a, b);
      assert (a + b)[n..] == a[n..] + b;
      TextCancel(a[n..], b);
    }
  }

  lemma TextBegins(s: seq<Byte>)
    requires IsText(s) && s != []
    ensures IsWhole(s)
  {
    hide IsWhole;
  }

  lemma OneChar(s: seq<Byte>)
    requires IsWhole(s)
    ensures IsText(s[..Decode(s).len])
  {
    hide Decode, IsWhole;
    WholeCut(s);
    assert s[..Decode(s).len][Decode(s).len..] == [];
  }

  /** Where the last character of a text begins. */
  lemma {:induction false} LastChar(s: seq<Byte>) returns (k: nat)
    requires IsText(s) && s != []
    ensures k < |s| && IsText(s[..k]) && IsWhole(s[k..]) && Decode(s[k..]).len == |s| - k
    decreases |s|
  {
    hide Decode, IsWhole;
    var n := Decode(s).len;
    if n == |s| {
      k := 0;
      assert s[0..] == s && s[..0] == [];
    } else {
      var j := LastChar(s[n..]);
      k := n + j;
      OneChar(s);
      TextConcat(s[..n], s[n..][..j]);
      assert s[..k] == s[..n] + s[n..][..j] && s[k..] == s[n..][j..];
    }
  }

  // ---- Steps keep to boundaries -----------------------------------------------------------------

  /** Position q of the text lies between two characters. */
  predicate Between(text: seq<Byte>, q: nat) {
    q <= |text| && IsText(text[..q])
  }

  lemma CharBytes(s: seq<Byte>)
    requires IsWhole(s) && Decode(s).len == |s|
    ensures !IsCont(s[0]) && |s| <= 4 && forall i :: 1 <= i < |s| ==> IsCont(s[i])
  {
  }

  /** A text cut at a byte is a text exactly when that byte continues no character. */
  lemma {:induction false} TextCut(s: seq<Byte>, k: nat)
    requires IsText(s) && k < |s|
    ensures IsText(s[..k]) <==> !IsCont(s[k])
    decreases |s|
  {
    hide Decode, IsWhole;
    var n := Decode(s).len;
    WholeCut(s);
    CharBytes(s[..n]);
    if k == 0 {
      assert s[..n][0] == s[0];
    } else if k < n {
      assert s[..n][k] == s[k];
      InsideIsNoText(s, k);
    } else {
      TextCut(s[n..], k - n);
      OneChar(s);
      assert s[..k] == s[..n] + s[n..][..k - n];
      if IsText(s[..k]) {
        TextCancel(s[..n], s[n..][..k - n]);
      } else if IsText(s[n..][..k - n]) {
        TextConcat(s[..n], s[n..][..k - n]);
      }
    }
  }

  lemma InsideIsNoText(s: seq<Byte>, k: nat)
    requires IsWhole(s) && 0 < k < Decode(s).len
    ensures !IsText(s[..k])
  {
    hide Decode, IsWhole;
    assert s == s[..k] + s[k..];
    if IsText(s[..k]) {
      WholeExtended(s[..k], s[k..]);
    }
  }

  lemma {:induction false} ScanBackFinds(text: seq<Byte>, pos: nat, k: nat, i: nat)
    requires k <= i < pos <= |text| && pos - k <= 4
    requires !IsCont(text[k]) && forall j :: k < j < pos ==> IsCont(text[j])
    ensures ScanBack(text, pos, i) == k
    decreases i
  {
    if i > k {
      ScanBackFinds(text, pos, k, i - 1);
    }
  }

  lemma PrevCharBetween(text: seq<Byte>, pos: nat)
    requires Between(text, pos) && pos > 0
    ensures Between(text, pos - DecodePrev(text, pos).len)
  {
    hide Decode, IsWhole, IsText, ScanBack;
    var k := LastChar(text[..pos]);
    assert text[..pos][k..] == text[k..pos] && text[..pos][..k] == text[..k];
    var c := text[k..pos];
    CharBytes(c);
    forall j | k < j < pos ensures IsCont(text[j]) {
      assert text[j] == c[j - k];
    }
    ScanBackFinds(text, pos, k, pos - 1);
  }

  lemma {:induction false} PrevFromBetween(text: seq<Byte>, cur: nat, cp: nat)
    requires Between(text, cur)
    ensures Between(text, PrevFrom(text, cur, cp))
    decreases cur
  {
    hide IsText, DecodePrev, IsExtend;
    if cur > 0 {
      var c := DecodePrev(text, cur);
      PrevCharBetween(text, cur);
      if IsZwj(c.cp) {
        var d := DecodePrev(text, cur - c.len);
        if d.len > 0 {
          PrevCharBetween(text, cur - c.len);
          PrevFromBetween(text, cur - c.len - d.len, d.cp);
        }
      } else if IsExtend(cp) {
        PrevFromBetween(text, cur - c.len, c.cp);
      }
    }
  }

  lemma PrevStartBetween(text: seq<Byte>, pos: nat)
    requires Between(text, pos)
    ensures Between(text, PrevStart(text, pos))
  {
    hide IsText, DecodePrev, PrevFrom;
    if pos > 0 {
      var c := DecodePrev(text, pos);
      PrevCharBetween(text, pos);
      PrevFromBetween(text, pos - c.len, c.cp);
    }
  }

  lemma NextCharBetween(text: seq<Byte>, cur: nat)
    requires IsText(text) && Between(text, cur) && cur < |text|
    ensures Between(text, cur + Decode(text[cur..]).len)
  {
    hide Decode, IsWhole, IsText;
    var n := Decode(text[cur..]).len;
    assert text == text[..cur] + text[cur..];
    TextCancel(text[..cur], text[cur..]);
    TextBegins(text[cur..]);
    OneChar(text[cur..]);
    TextConcat(text[..cur], text[cur..][..n]);
    assert text[..cur + n] == text[..cur] + text[cur..][..n];
  }

  lemma {:induction false} NextFromBetween(text: seq<Byte>, cur: nat, regional: bool)
    requires IsText(text) && Between(text, cur)
    ensures Between(text, NextFrom(text, cur, regional))
    decreases |text| - cur
  {
    hide Between, Decode, IsText, IsExtend;
    if cur < |text| {
      var c := Decode(text[cur..]);
      NextCharBetween(text, cur);
      if IsZwj(c.cp) && cur + c.len < |text| {
        NextCharBetween(text, cur + c.len);
        NextFromBetween(text, cur + c.len + Decode(text[cur + c.len..]).len, regional);
      } else if IsExtend(c.cp) {
        NextFromBetween(text, cur + c.len, regional);
      } else if regional && IsRegional(c.cp) {
        NextFromBetween(text, cur + c.len, false);
      }
    }
  }

  lemma NextEndBetween(text: seq<Byte>, pos: nat)
    requires IsText(text) && Between(text, pos)
    ensures Between(text, NextEnd(text, pos))
  {
    hide Between, Decode, IsText, NextFrom;
    if pos < |text| {
      NextCharBetween(text, pos);
      NextFromBetween(text, pos + Decode(text[pos..]).len, IsRegional(Decode(text[pos..]).cp));
    }
  }

  // ---- Insertion, deletion and exchange ------------------------------------------------------------

  lemma TailText(text: seq<Byte>, i: nat, j: nat)
    requires Between(text, i) && Between(text, j) && i <= j
    ensures IsText(text[i..j])
  {
    hide IsText;
    assert text[..j] == text[..i] + text[i..j];
    TextCancel(text[..i], text[i..j]);
  }

  lemma InsertedBetween(text: seq<Byte>, pos: nat, c: seq<Byte>, q: nat)
    requires Between(text, pos) && IsText(c) && Between(text, q)
    ensures q <= pos ==> Between(Inserted(text, pos, c), q)
    ensures pos <= q ==> Between(Inserted(text, pos, c), q + |c|)
  {
    hide IsText, Inserted;
    var now := Inserted(text, pos, c);
    InsertedFront(text, pos, c, q);
    if pos <= q {
      TailText(text, pos, q);
      TextConcat(text[..pos], c);
      TextConcat(text[..pos] + c, text[pos..q]);
    }
  }

  lemma InsertedFront(text: seq<Byte>, pos: nat, c: seq<Byte>, q: nat)
    requires pos <= |text| && q <= |text|
    ensures |Inserted(text, pos, c)| == |text| + |c|
    ensures q <= pos ==> Inserted(text, pos, c)[..q] == text[..q]
    ensures pos <= q ==> Inserted(text, pos, c)[..q + |c|] == text[..pos] + c + text[pos..q]
  {
  }

  lemma RemovedBetween(text: seq<Byte>, pos: nat, n: nat, q: nat)
    requires Between(text, pos) && Between(text, pos + n) && Between(text, q)
    ensures q <= pos ==> Between(Removed(text, pos, n), q)
    ensures pos + n <= q ==> Between(Removed(text, pos, n), q - n)
  {
    hide IsText;
    var now := Removed(text, pos, n);
    if q <= pos {
      assert now[..q] == text[..q];
    }
    if pos + n <= q {
      TailText(text, pos + n, q);
      TextConcat(text[..pos], text[pos + n..q]);
      assert now[..q - n] == text[..pos] + text[pos + n..q];
    }
  }

  lemma SwappedBetween(text: seq<Byte>, s: nat, p: nat, e: nat, q: nat)
    requires Between(text, s) && Between(text, p) && Between(text, e) && s <= p <= e
    requires Between(text, q) && (q <= s || e <= q)
    ensures Between(text[..s] + text[p..e] + text[s..p] + text[e..], q)
  {
    hide IsText;
    var now := text[..s] + text[p..e] + text[s..p] + text[e..];
    if q <= s {
      assert now[..q] == text[..q];
    } else {
      TailText(text, p, e);
      TailText(text, s, p);
      TailText(text, e, q);
      TextConcat(text[..s], text[p..e]);
      TextConcat(text[..s] + text[p..e], text[s..p]);
      TextConcat(text[..s] + text[p..e] + text[s..p], text[e..q]);
      assert now[..q] == text[..s] + text[p..e] + text[s..p] + text[e..q];
    }
  }

  // ---- The invariant -----------------------------------------------------------------------------

  ghost predicate FoldsBetween(text: seq<Byte>, folds: seq<Fold>) {
    forall f :: f in folds ==> Between(text, f.start) && Between(text, f.end)
  }

  /** Whole characters only, with the cursor and every fold edge between characters. */
  ghost predicate Good(l: Line) {
    Ok(l) && IsText(l.text) && Between(l.text, l.pos) && FoldsBetween(l.text, l.folds)
  }

  lemma WholeTextBetween(text: seq<Byte>)
    ensures IsText(text) <==> Between(text, |text|)
    ensures Between(text, 0)
  {
    assert text[..|text|] == text && text[..0] == [];
  }

  lemma NextPosBetween(l: Line, pos: nat)
    requires Good(l) && Between(l.text, pos)
    ensures Between(l.text, NextPos(l, pos))
  {
    hide Between, IsText, Ok;
    NextEndBetween(l.text, pos);
  }

  lemma PrevPosBetween(l: Line, pos: nat)
    requires Good(l) && Between(l.text, pos)
    ensures Between(l.text, PrevPos(l, pos))
  {
    hide Between, IsText, Ok;
    PrevStartBetween(l.text, pos);
  }

  lemma {:induction false} SkipBackBetween(l: Line, pos: nat, spaces: bool)
    requires Good(l) && Between(l.text, pos)
    ensures Between(l.text, SkipBack(l, pos, spaces))
    decreases pos
  {
    hide IsText, Ok, PrevPos;
    if pos > 0 && (l.text[pos - 1] == SPACE) == spaces {
      PrevPosBetween(l, pos);
      SkipBackBetween(l, PrevPos(l, pos), spaces);
    }
  }

  lemma {:induction false} InsertFoldsBetween(text: seq<Byte>, folds: seq<Fold>, pos: nat, c: seq<Byte>)
    requires FoldsBetween(text, folds) && Between(text, pos) && IsText(c) && FoldsOk(folds, |text|)
    ensures FoldsBetween(Inserted(text, pos, c), AfterInsert(folds, pos, |c|))
    decreases |folds|
  {
    hide IsText, FoldsBetween, FoldsOk, Inserted;
    var now := Inserted(text, pos, c);
    if folds == [] {
      BetweenJoin(now, [], []);
    } else {
      var f, front := folds[|folds| - 1], folds[..|folds| - 1];
      BetweenSplit(text, folds);
      OkFront(folds, |text|);
      OkWithin(front, f.start, |text|);
      InsertFoldsBetween(text, front, pos, c);
      InsertedBetween(text, pos, c, f.start);
      InsertedBetween(text, pos, c, f.end);
      BetweenOne(now, FoldAfterInsert(f, pos, |c|));
      BetweenJoin(now, AfterInsert(front, pos, |c|), FoldAfterInsert(f, pos, |c|));
    }
  }

  lemma BetweenSplit(text: seq<Byte>, folds: seq<Fold>)
    requires FoldsBetween(text, folds) && folds != []
    ensures FoldsBetween(text, folds[..|folds| - 1])
    ensures Between(text, folds[|folds| - 1].start) && Between(text, folds[|folds| - 1].end)
  {
    hide Between;
    assert folds[|folds| - 1] in folds;
  }

  lemma BetweenOne(text: seq<Byte>, one: seq<Fold>)
    requires one == [] || (|one| == 1 && Between(text, one[0].start) && Between(text, one[0].end))
    ensures FoldsBetween(text, one)
  {
    hide Between;
  }

  lemma BetweenJoin(text: seq<Byte>, a: seq<Fold>, b: seq<Fold>)
    requires a == [] || FoldsBetween(text, a)
    requires b == [] || FoldsBetween(text, b)
    ensures FoldsBetween(text, a + b) && FoldsBetween(text, [])
  {
    hide Between;
  }

  lemma {:induction false} DeleteFoldsBetween(text: seq<Byte>, folds: seq<Fold>, pos: nat, n: nat)
    requires FoldsBetween(text, folds) && Between(text, pos) && Between(text, pos + n) && FoldsOk(folds, |text|)
    ensures FoldsBetween(Removed(text, pos, n), AfterDelete(folds, pos, n))
    decreases |folds|
  {
    hide IsText, FoldsBetween, FoldsOk;
    var now := Removed(text, pos, n);
    if folds == [] {
      BetweenJoin(now, [], []);
    } else {
      var f, front := folds[|folds| - 1], folds[..|folds| - 1];
      BetweenSplit(text, folds);
      OkFront(folds, |text|);
      OkWithin(front, f.start, |text|);
      DeleteFoldsBetween(text, front, pos, n);
      RemovedBetween(text, pos, n, f.start);
      RemovedBetween(text, pos, n, f.end);
      BetweenOne(now, FoldAfterDelete(f, pos, n));
      BetweenJoin(now, AfterDelete(front, pos, n), FoldAfterDelete(f, pos, n));
    }
  }

  lemma InsertGood(l: Line, c: seq<Byte>)
    requires Good(l) && IsText(c)
    ensures Good(Insert(l, c))
  {
    hide IsText, Between, Inserted, FoldsOk, AfterInsert, FoldsBetween;
    InsertOk(l, c);
    WholeTextBetween(l.text);
    WholeTextBetween(Inserted(l.text, l.pos, c));
    InsertedBetween(l.text, l.pos, c, |l.text|);
    InsertedBetween(l.text, l.pos, c, l.pos);
    InsertFoldsBetween(l.text, l.folds, l.pos, c);
  }

  lemma AddFoldsBetween(text: seq<Byte>, folds: seq<Fold>, start: nat, end: nat)
    requires FoldsBetween(text, folds) && Between(text, start) && Between(text, end)
    ensures FoldsBetween(text, FoldAdd(folds, start, end))
  {
    hide Between, AddIndex;
  }

  lemma PasteGood(l: Line, c: seq<Byte>)
    requires Good(l) && IsText(c)
    ensures Good(Paste(l, c))
  {
    InsertOk(l, c);
    InsertGood(l, c);
    hide IsText, Between, Inserted, FoldsOk, AfterInsert, FoldAdd, FoldsBetween, Ok;
    InsertedBetween(l.text, l.pos, c, l.pos);
    AddFoldsBetween(Inserted(l.text, l.pos, c), AfterInsert(l.folds, l.pos, |c|), l.pos, l.pos + |c|);
  }

  lemma CutGood(l: Line, pos: nat, n: nat)
    requires Good(l) && Between(l.text, pos) && Between(l.text, pos + n)
    ensures Good(Cut(l, pos, n))
  {
    hide IsText, FoldsOk, AfterDelete, FoldsBetween;
    CutOk(l, pos, n);
    WholeTextBetween(l.text);
    WholeTextBetween(Removed(l.text, pos, n));
    RemovedBetween(l.text, pos, n, |l.text|);
    RemovedBetween(l.text, pos, n, pos);
    DeleteFoldsBetween(l.text, l.folds, pos, n);
  }

  lemma SwapGood(l: Line)
    requires Good(l)
    ensures Good(Swap(l))
  {
    hide Between, IsText, NextPos, PrevPos, FoldsOk;
    SwapOk(l);
    if 0 < l.pos < |l.text| && Swap(l) != l {
      var s, e := PrevPos(l, l.pos), NextPos(l, l.pos);
      NextPosBetween(l, l.pos);
      PrevPosBetween(l, l.pos);
      WholeTextBetween(l.text);
      WholeTextBetween(Swap(l).text);
      SwappedBetween(l.text, s, l.pos, e, |l.text|);
      SwappedBetween(l.text, s, l.pos, e, e);
      forall f | f in l.folds ensures Between(Swap(l).text, f.start) && Between(Swap(l).text, f.end) {
        var i :| 0 <= i < |l.folds| && l.folds[i] == f;
        FoldRange(l, i);
        SwappedBetween(l.text, s, l.pos, e, f.start);
        SwappedBetween(l.text, s, l.pos, e, f.end);
      }
    }
  }

  lemma FoldRange(l: Line, i: nat)
    requires Ok(l) && i < |l.folds|
    ensures l.folds[i].start < l.folds[i].end <= |l.text|
  {
  }

  lemma {:induction false} ContextAfterBetween(text: seq<Byte>, c: Context, k: nat)
    requires IsText(text) && Between(text, c.pos)
    ensures Between(text, ContextAfter(text, c, k).pos)
    decreases k
  {
    hide Between, IsText, NextEnd;
    if k > 0 && c.pos < |text| {
      NextEndBetween(text, c.pos);
      ContextAfterBetween(text, Context(NextEnd(text, c.pos), c.newline || text[c.pos] == NEWLINE), k - 1);
    }
  }

  lemma {:induction false} ContextBeforeBetween(text: seq<Byte>, c: Context, k: nat)
    requires Between(text, c.pos)
    ensures Between(text, ContextBefore(text, c, k).pos)
    decreases k
  {
    hide IsText, PrevStart;
    if k > 0 && c.pos > 0 {
      var p := PrevStart(text, c.pos);
      PrevStartBetween(text, c.pos);
      ContextBeforeBetween(text, Context(p, c.newline || text[p] == NEWLINE), k - 1);
    }
  }

  lemma RecallGood(l: Line, entry: seq<Byte>)
    requires IsText(entry)
    ensures Good(Recall(l, entry))
  {
    hide Between, IsText, ContextAfter, ContextBefore;
    RecallOk(l, entry);
    WholeTextBetween(entry);
    ContextAfterBetween(entry, Context(0, false), CONTEXT);
    ContextBeforeBetween(entry, Context(|entry|, false), CONTEXT);
  }

  /** The operation puts whole characters in the line; for a history entry, it is what is shown of it. */
  predicate BringsText(op: Op) {
    match op
    case Type(c) => IsText(c)
    case PasteText(c) => IsText(c)
    case FromHistory(entry) => IsText(entry)
    case _ => true
  }

  lemma StepGood(l: Line, op: Op)
    requires Good(l) && BringsText(op)
    ensures Good(Step(l, op))
  {
    hide FoldsOk, IsText, Between, NextPos, PrevPos, Insert, Paste, Swap, SkipBack, Cut, KillEnd, Recall;
    StepOk(l, op);
    WholeTextBetween(l.text);
    match op {
      case Type(c) => InsertGood(l, c);
      case PasteText(c) => PasteGood(l, c);
      case Left => PrevPosBetween(l, l.pos);
      case Right => NextPosBetween(l, l.pos);
      case Del =>
        NextPosBetween(l, l.pos);
        if l.pos < |l.text| {
          CutGood(l, l.pos, NextPos(l, l.pos) - l.pos);
        }
      case Back =>
        PrevPosBetween(l, l.pos);
        if l.pos > 0 {
          CutGood(l, PrevPos(l, l.pos), l.pos - PrevPos(l, l.pos));
        }
      case BackWord =>
        SkipBackBetween(l, l.pos, true);
        SkipBackBetween(l, SkipBack(l, l.pos, true), false);
        var q := SkipBack(l, SkipBack(l, l.pos, true), false);
        CutGood(l, q, l.pos - q);
      case Transpose => SwapGood(l);
      case Clear => WholeTextBetween([]);
      case ClearToEnd =>
        KillEndIsCut(l);
        CutGood(l, l.pos, |l.text| - l.pos);
      case FromHistory(entry) => RecallGood(l, entry);
      case _ =>
    }
  }

  /** No run of operations that put whole characters in the line ever splits one or strands the cursor in one. */
  lemma {:induction false} CharsNeverSplit(l: Line, ops: seq<Op>)
    requires Good(l) && forall i :: 0 <= i < |ops| ==> BringsText(ops[i])
    ensures Good(Run(l, ops).0)
    decreases |ops|
  {
    hide Good, Ok, Step, BringsText, Fresh;
    if ops != [] {
      var front := ops[..|ops| - 1];
      GoodIsOk(l);
      CharsNeverSplit(l, front);
      StepGood(Run(l, front).0, ops[|ops| - 1]);
    }
  }

  lemma GoodIsOk(l: Line)
    requires Good(l)
    ensures Ok(l)
  {
  }

  /** Between characters the shown form splits: what is shown before the cursor is what the bytes before it show. */
  lemma {:induction false} BetweenIsBoundary(a: seq<Byte>, b: seq<Byte>)
    requires IsText(a)
    ensures IsBoundary(a + b, |a|)
    decreases |a|
  {
    hide Decode, IsWhole;
    if a != [] {
      var n := Decode(a).len;
      WholeExtended(a, b);
      BetweenIsBoundary(a[n..], b);
      assert (a + b)[n..] == a[n..] + b;
    }
  }
}
