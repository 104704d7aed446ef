/**
 The edited line as a value: its bytes, the cursor and the folded ranges, and what each editing
 operation makes of them.
 */
module FoldedLine {
  import opened Utf8

  const MAX_FOLDS := 16
  const NEWLINE: Byte := 10
  const SPACE: Byte := 32

  datatype Fold = Fold(start: nat, end: nat)

  /** With masked set the line is shown as asterisks and folds play no part. */
  datatype Line = Line(text: seq<Byte>, pos: nat, folds: seq<Fold>, masked: bool)

  /** Folds are non-empty, in order, apart from each other and within the first n bytes. */
  ghost predicate FoldsOk(folds: seq<Fold>, n: nat) {
    && (forall i :: 0 <= i < |folds| ==> folds[i].start < folds[i].end <= n)
    && (forall i, j :: 0 <= i < j < |folds| ==> folds[i].end <= folds[j].start)
  }

  ghost predicate Ok(l: Line) {
    l.pos <= |l.text| && |l.folds| <= MAX_FOLDS && FoldsOk(l.folds, |l.text|)
  }

  // ---- Folds under insertion and deletion ------------------------------------------------------

  function FoldAfterInsert(f: Fold, pos: nat, n: nat): seq<Fold> {
    if pos <= f.start then [Fold(f.start + n, f.end + n)]
    else if pos < f.end then []
    else [f]
  }

  function AfterInsert(folds: seq<Fold>, pos: nat, n: nat): seq<Fold> {
    if folds == [] then []
    else AfterInsert(folds[..|folds| - 1], pos, n) + FoldAfterInsert(folds[|folds| - 1], pos, n)
  }

  function FoldAfterDelete(f: Fold, pos: nat, n: nat): seq<Fold> {
    if pos + n <= f.start then [Fold(f.start - n, if n <= f.end then f.end - n else 0)]
    else if pos >= f.end then [f]
    else []
  }

  function AfterDelete(folds: seq<Fold>, pos: nat, n: nat): seq<Fold> {
    if folds == [] then []
    else AfterDelete(folds[..|folds| - 1], pos, n) + FoldAfterDelete(folds[|folds| - 1], pos, n)
  }

  /** Where the sorted list takes a fold that begins at start. */
  function AddIndex(folds: seq<Fold>, start: nat): (j: nat)
    ensures j <= |folds|
  {
    if folds != [] && start < folds[|folds| - 1].start then AddIndex(folds[..|folds| - 1], start) else |folds|
  }

  function FoldAdd(folds: seq<Fold>, start: nat, end: nat): seq<Fold> {
    if start >= end || |folds| == MAX_FOLDS then folds
    else folds[..AddIndex(folds, start)] + [Fold(start, end)] + folds[AddIndex(folds, start)..]
  }

  lemma OkFront(folds: seq<Fold>, n: nat)
    requires FoldsOk(folds, n) && folds != []
    ensures FoldsOk(folds[..|folds| - 1], folds[|folds| - 1].start)
    ensures folds[|folds| - 1].start < folds[|folds| - 1].end <= n
  {
  }

  lemma OkAppend(folds: seq<Fold>, b: nat, more: seq<Fold>, n: nat)
    requires FoldsOk(folds, b) && b <= n
    requires more == [] || (|more| == 1 && b <= more[0].start < more[0].end <= n)
    ensures FoldsOk(folds + more, n)
  {
  }

  function Shifted(q: nat, pos: nat, n: nat): nat {
    if pos < q then q + n else q
  }

  lemma {:induction false} InsertKeepsOk(folds: seq<Fold>, b: nat, pos: nat, n: nat)
    requires FoldsOk(folds, b)
    ensures FoldsOk(AfterInsert(folds, pos, n), Shifted(b, pos, n)) && |AfterInsert(folds, pos, n)| <= |folds|
    decreases |folds|
  {
    if folds != [] {
      var f := folds[|folds| - 1];
      hide FoldsOk;
      OkFront(folds, b);
      InsertKeepsOk(folds[..|folds| - 1], f.start, pos, n);
      OkAppend(AfterInsert(folds[..|folds| - 1], pos, n), Shifted(f.start, pos, n), FoldAfterInsert(f, pos, n),
               Shifted(b, pos, n));
    }
  }

  function Collapsed(q: nat, pos: nat, n: nat): nat {
    if pos + n <= q then q - n else if q <= pos then q else pos
  }

  lemma {:induction false} DeleteKeepsOk(folds: seq<Fold>, b: nat, pos: nat, n: nat)
    requires FoldsOk(folds, b)
    ensures FoldsOk(AfterDelete(folds, pos, n), Collapsed(b, pos, n)) && |AfterDelete(folds, pos, n)| <= |folds|
    decreases |folds|
  {
    if folds != [] {
      var f := folds[|folds| - 1];
      hide FoldsOk;
      OkFront(folds, b);
      DeleteKeepsOk(folds[..|folds| - 1], f.start, pos, n);
      OkAppend(AfterDelete(folds[..|folds| - 1], pos, n), Collapsed(f.start, pos, n), FoldAfterDelete(f, pos, n),
               Collapsed(b, pos, n));
    }
  }

  /** The range overlaps no fold. */
  ghost predicate Apart(folds: seq<Fold>, start: nat, end: nat) {
    forall i :: 0 <= i < |folds| ==> folds[i].end <= start || end <= folds[i].start
  }

  lemma {:induction false} AddIndexSplits(folds: seq<Fold>, b: nat, start: nat, end: nat)
    requires FoldsOk(folds, b) && start < end && Apart(folds, start, end)
    ensures var j := AddIndex(folds, start);
            (forall i :: 0 <= i < j ==> folds[i].end <= start) && forall i :: j <= i < |folds| ==> end <= folds[i].start
    decreases |folds|
  {
    if folds != [] && start < folds[|folds| - 1].start {
      AddIndexSplits(folds[..|folds| - 1], b, start, end);
    }
  }

  lemma OkConcat(left: seq<Fold>, c: nat, right: seq<Fold>, b: nat)
    requires FoldsOk(left, c) && FoldsOk(right, b) && c <= b && forall i :: 0 <= i < |right| ==> c <= right[i].start
    ensures FoldsOk(left + right, b)
  {
  }

  lemma OkSplit(folds: seq<Fold>, b: nat, j: nat, c: nat)
    requires FoldsOk(folds, b) && j <= |folds| && forall i :: 0 <= i < j ==> folds[i].end <= c
    ensures FoldsOk(folds[..j], c) && FoldsOk(folds[j..], b)
  {
  }

  lemma AddKeepsOk(folds: seq<Fold>, b: nat, start: nat, end: nat)
    requires FoldsOk(folds, b) && |folds| <= MAX_FOLDS && end <= b && Apart(folds, start, end)
    ensures FoldsOk(FoldAdd(folds, start, end), b) && |FoldAdd(folds, start, end)| <= MAX_FOLDS
  {
    hide FoldsOk, AddIndex;
    if start < end && |folds| < MAX_FOLDS {
      var j := AddIndex(folds, start);
      AddIndexSplits(folds, b, start, end);
      OkSplit(folds, b, j, start);
      OkAppend(folds[..j], start, [Fold(start, end)], end);
      OkConcat(folds[..j] + [Fold(start, end)], end, folds[j..], b);
    }
  }

  lemma {:induction false} InsertLeavesApart(folds: seq<Fold>, b: nat, pos: nat, n: nat)
    requires FoldsOk(folds, b)
    ensures Apart(AfterInsert(folds, pos, n), pos, pos + n)
    decreases |folds|
  {
    if folds != [] {
      OkFront(folds, b);
      InsertLeavesApart(folds[..|folds| - 1], folds[|folds| - 1].start, pos, n);
    }
  }

  // ---- What the folds hide -------------------------------------------------------------------------

  ghost function Hidden(text: seq<Byte>, folds: seq<Fold>): (r: seq<seq<Byte>>)
    requires FoldsOk(folds, |text|)
    ensures |r| == |folds|
  {
    seq(|folds|, i requires 0 <= i < |folds| => text[folds[i].start..folds[i].end])
  }

  /** xs arises from ys by leaving elements out. */
  ghost predicate IsPart<T>(xs: seq<T>, ys: seq<T>) {
    xs == [] ||
    (ys != [] &&
     ((xs[|xs| - 1] == ys[|ys| - 1] && IsPart(xs[..|xs| - 1], ys[..|ys| - 1])) || IsPart(xs, ys[..|ys| - 1])))
  }

  lemma {:induction false} PartMembers<T>(xs: seq<T>, ys: seq<T>, x: T)
    requires IsPart(xs, ys) && x in xs
    ensures x in ys
    decreases |ys|
  {
    if xs[|xs| - 1] == ys[|ys| - 1] && IsPart(xs[..|xs| - 1], ys[..|ys| - 1]) {
      if x != xs[|xs| - 1] {
        PartMembers(xs[..|xs| - 1], ys[..|ys| - 1], x);
      }
    } else {
      PartMembers(xs, ys[..|ys| - 1], x);
    }
  }

  lemma PartAppend<T>(xs: seq<T>, ys: seq<T>, last: T)
    requires IsPart(xs, ys)
    ensures IsPart(xs + [last], ys + [last]) && IsPart(xs, ys + [last])
  {
    assert (xs + [last])[..|xs|] == xs && (ys + [last])[..|ys|] == ys;
  }

  lemma {:induction false} PartRefl<T>(xs: seq<T>)
    ensures IsPart(xs, xs)
    decreases |xs|
  {
    if xs != [] {
      PartRefl(xs[..|xs| - 1]);
    }
  }

  lemma HiddenFront(text: seq<Byte>, folds: seq<Fold>)
    requires FoldsOk(folds, |text|) && folds != []
    ensures FoldsOk(folds[..|folds| - 1], |text|)
    ensures var last := folds[|folds| - 1];
            Hidden(text, folds) == Hidden(text, folds[..|folds| - 1]) + [text[last.start..last.end]]
  {
  }

  function Inserted(text: seq<Byte>, pos: nat, c: seq<Byte>): (r: seq<Byte>)
    requires pos <= |text|
    ensures |r| == |text| + |c|
  {
    text[..pos] + c + text[pos..]
  }

  function Removed(text: seq<Byte>, pos: nat, n: nat): (r: seq<Byte>)
    requires pos + n <= |text|
    ensures |r| == |text| - n
  {
    text[..pos] + text[pos + n..]
  }

  /** One more fold: dropped, or moved onto the same bytes. */
  lemma HiddenStep(text: seq<Byte>, folds: seq<Fold>, now: seq<Byte>, front: seq<Fold>, more: seq<Fold>)
    requires FoldsOk(folds, |text|) && folds != [] && FoldsOk(front + more, |now|)
    requires FoldsOk(folds[..|folds| - 1], |text|) && FoldsOk(front, |now|)
    requires IsPart(Hidden(now, front), Hidden(text, folds[..|folds| - 1]))
    requires var f := folds[|folds| - 1];
             more == [] || (|more| == 1 && f.start < f.end <= |text| && more[0].start < more[0].end <= |now| &&
                            now[more[0].start..more[0].end] == text[f.start..f.end])
    ensures IsPart(Hidden(now, front + more), Hidden(text, folds))
  {
    hide FoldsOk, IsPart, Hidden;
    HiddenFront(text, folds);
    PartAppend(Hidden(now, front), Hidden(text, folds[..|folds| - 1]), LastHidden(text, folds));
    if more == [] {
      assert front + more == front;
    } else {
      HiddenFront(now, front + more);
      assert (front + more)[..|front|] == front;
    }
  }

  ghost function LastHidden(text: seq<Byte>, folds: seq<Fold>): seq<Byte>
    requires FoldsOk(folds, |text|) && folds != []
  {
    text[folds[|folds| - 1].start..folds[|folds| - 1].end]
  }

  lemma InsertedSlice(text: seq<Byte>, pos: nat, c: seq<Byte>, i: nat, j: nat)
    requires pos <= |text| && i <= j <= |text|
    ensures pos <= i ==> Inserted(text, pos, c)[i + |c|..j + |c|] == text[i..j]
    ensures j <= pos ==> Inserted(text, pos, c)[i..j] == text[i..j]
  {
  }

  lemma RemovedSlice(text: seq<Byte>, pos: nat, n: nat, i: nat, j: nat)
    requires pos + n <= |text| && i <= j <= |text|
    ensures pos + n <= i ==> Removed(text, pos, n)[i - n..j - n] == text[i..j]
    ensures j <= pos ==> Removed(text, pos, n)[i..j] == text[i..j]
  {
    hide Removed;
    var now := Removed(text, pos, n);
    if pos + n <= i {
      forall k | 0 <= k < j - i ensures now[i - n..j - n][k] == text[i..j][k] {
        RemovedAt(text, pos, n, i - n + k);
      }
    } else if j <= pos {
      forall k | 0 <= k < j - i ensures now[i..j][k] == text[i..j][k] {
        RemovedAt(text, pos, n, i + k);
      }
    }
  }

  lemma RemovedAt(text: seq<Byte>, pos: nat, n: nat, k: nat)
    requires pos + n <= |text| && k < |text| - n
    ensures Removed(text, pos, n)[k] == if k < pos then text[k] else text[k + n]
  {
  }

  /** Insertion: each fold that is left hides what it hid before. */
  lemma {:induction false} InsertKeepsHidden(text: seq<Byte>, folds: seq<Fold>, pos: nat, c: seq<Byte>)
    requires FoldsOk(folds, |text|) && pos <= |text|
    requires FoldsOk(AfterInsert(folds, pos, |c|), |text| + |c|)
    ensures IsPart(Hidden(Inserted(text, pos, c), AfterInsert(folds, pos, |c|)), Hidden(text, folds))
    decreases |folds|
  {
    hide FoldsOk, IsPart, Hidden, Inserted;
    var now := Inserted(text, pos, c);
    if folds == [] {
      NothingHidden(now);
      NothingHidden(text);
      PartRefl(Hidden(text, []));
    } else {
      var f, front := folds[|folds| - 1], folds[..|folds| - 1];
      HiddenFront(text, folds);
      InsertKeepsOk(front, |text|, pos, |c|);
      OkWithin(AfterInsert(front, pos, |c|), Shifted(|text|, pos, |c|), |now|);
      InsertKeepsHidden(text, front, pos, c);
      OkFront(folds, |text|);
      InsertedSlice(text, pos, c, f.start, f.end);
      HiddenStep(text, folds, now, AfterInsert(front, pos, |c|), FoldAfterInsert(f, pos, |c|));
    }
  }

  lemma NothingHidden(text: seq<Byte>)
    ensures FoldsOk([], |text|) && Hidden(text, []) == []
  {
  }

  lemma OkWithin(folds: seq<Fold>, b: nat, n: nat)
    requires FoldsOk(folds, b) && b <= n
    ensures FoldsOk(folds, n)
  {
  }

  /** Deletion: each fold that is left hides what it hid before. */
  lemma {:induction false} DeleteKeepsHidden(text: seq<Byte>, folds: seq<Fold>, pos: nat, n: nat)
    requires FoldsOk(folds, |text|) && pos + n <= |text|
    requires FoldsOk(AfterDelete(folds, pos, n), |text| - n)
    ensures IsPart(Hidden(Removed(text, pos, n), AfterDelete(folds, pos, n)), Hidden(text, folds))
    decreases |folds|
  {
    hide FoldsOk, IsPart, Hidden, Removed;
    var now := Removed(text, pos, n);
    if folds == [] {
      NothingHidden(now);
      NothingHidden(text);
      PartRefl(Hidden(text, []));
    } else {
      var f, front := folds[|folds| - 1], folds[..|folds| - 1];
      HiddenFront(text, folds);
      DeleteKeepsOk(front, |text|, pos, n);
      DeleteKeepsHidden(text, front, pos, n);
      OkFront(folds, |text|);
      RemovedSlice(text, pos, n, f.start, f.end);
      HiddenStep(text, folds, now, AfterDelete(front, pos, n), FoldAfterDelete(f, pos, n));
    }
  }
}
