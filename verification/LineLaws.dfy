/**
 What the editing keys do to the text, without the functions that step over clusters: on ASCII, on
 ordinary characters, and at folds.
 */
module LineLaws {
  import opened FoldedLine
  import opened LineOps
  import opened Utf8
  import opened WholeChars

  // ---- Steps over one character -------------------------------------------------------------------

  /** Characters c and d, next to each other, do not join into one cluster. */
  predicate Apart2(c: nat, d: nat) {
    !IsZwj(c) && !IsExtend(d) && !(IsRegional(c) && IsRegional(d))
  }

  lemma NextIsChar(text: seq<Byte>, p: nat)
    requires p < |text|
    requires var c := Decode(text[p..]);
             p + c.len == |text| || Apart2(c.cp, Decode(text[p + c.len..]).cp)
    ensures NextEnd(text, p) == p + Decode(text[p..]).len
  {
    hide Decode, IsCombining;
  }

  lemma PrevIsChar(text: seq<Byte>, p: nat)
    requires 0 < p <= |text|
    requires var c := DecodePrev(text, p);
             p == c.len || Apart2(DecodePrev(text, p - c.len).cp, c.cp)
    ensures PrevStart(text, p) == p - DecodePrev(text, p).len
  {
    hide DecodePrev, IsCombining;
  }

  /** A character that extends, one behind a joiner and the second of two regional ones belong to what comes before. */
  lemma NextTakes(text: seq<Byte>, p: nat)
    requires p < |text| && p + Decode(text[p..]).len < |text|
    ensures var c := Decode(text[p..]);
            var q := p + c.len;
            var d := Decode(text[q..]);
            && (IsExtend(d.cp) || (IsRegional(c.cp) && IsRegional(d.cp)) ==> NextEnd(text, p) >= q + d.len)
            && (IsZwj(d.cp) && q + d.len < |text| ==>
                  NextEnd(text, p) >= q + d.len + Decode(text[q + d.len..]).len)
  {
    hide Decode, IsCombining;
  }

  lemma PrevTakes(text: seq<Byte>, p: nat)
    requires 0 < p <= |text| && DecodePrev(text, p).len < p
    ensures var c := DecodePrev(text, p);
            var q := p - c.len;
            var d := DecodePrev(text, q);
            && (IsExtend(c.cp) || (IsRegional(c.cp) && IsRegional(d.cp)) ==> PrevStart(text, p) <= q - d.len)
            && (IsZwj(d.cp) ==> PrevStart(text, p) <= q - d.len - DecodePrev(text, q - d.len).len)
  {
    hide DecodePrev, IsCombining;
  }

  ghost predicate IsAscii(text: seq<Byte>) {
    forall i :: 0 <= i < |text| ==> text[i] < 0x80
  }

  lemma AsciiApart(c: nat, d: nat)
    requires c < 0x80 && d < 0x80
    ensures Apart2(c, d)
  {
  }

  lemma AsciiDecode(text: seq<Byte>, p: nat)
    requires IsAscii(text) && p < |text|
    ensures Decode(text[p..]) == Char(text[p], 1)
    ensures DecodePrev(text, p + 1) == Char(text[p], 1)
  {
    assert text[p..][0] == text[p] && text[p..p + 1][0] == text[p];
  }

  lemma AsciiSteps(text: seq<Byte>, p: nat)
    requires IsAscii(text) && p <= |text|
    ensures p < |text| ==> NextEnd(text, p) == p + 1
    ensures p > 0 ==> PrevStart(text, p) == p - 1
  {
    hide Decode, DecodePrev, NextEnd, PrevStart, Apart2;
    if p < |text| {
      AsciiDecode(text, p);
      if p + 1 < |text| {
        AsciiDecode(text, p + 1);
        AsciiApart(text[p], text[p + 1]);
      }
      NextIsChar(text, p);
    }
    if p > 0 {
      AsciiDecode(text, p - 1);
      if p > 1 {
        AsciiDecode(text, p - 2);
        AsciiApart(text[p - 2], text[p - 1]);
      }
      PrevIsChar(text, p);
    }
  }

  // ---- Keys on an unfolded ASCII line -----------------------------------------------------------------

  ghost predicate IsPlainLine(l: Line) {
    Ok(l) && l.folds == [] && IsAscii(l.text)
  }

  lemma PlainSteps(l: Line, p: nat)
    requires IsPlainLine(l) && p <= |l.text|
    ensures p < |l.text| ==> NextPos(l, p) == p + 1
    ensures p > 0 ==> PrevPos(l, p) == p - 1
  {
    hide NextEnd, PrevStart;
    AsciiSteps(l.text, p);
  }

  /** Backspace takes the byte before the cursor, delete the one at it. */
  lemma PlainDeletes(l: Line)
    requires IsPlainLine(l)
    ensures l.pos > 0 ==> Step(l, Back) == Line(l.text[..l.pos - 1] + l.text[l.pos..], l.pos - 1, [], l.masked)
    ensures l.pos == 0 ==> Step(l, Back) == l
    ensures l.pos < |l.text| ==> Step(l, Del) == Line(l.text[..l.pos] + l.text[l.pos + 1..], l.pos, [], l.masked)
    ensures l.pos == |l.text| ==> Step(l, Del) == l
    ensures Step(l, ClearToEnd) == Line(l.text[..l.pos], l.pos, [], l.masked)
    ensures Step(l, Clear) == Line([], 0, [], l.masked)
  {
    hide NextPos, PrevPos;
    PlainSteps(l, l.pos);
  }

  /** The arrows move the cursor by one byte and stop at the ends. */
  lemma PlainMoves(l: Line)
    requires IsPlainLine(l)
    ensures Step(l, Left) == l.(pos := if l.pos > 0 then l.pos - 1 else 0)
    ensures Step(l, Right) == l.(pos := if l.pos < |l.text| then l.pos + 1 else l.pos)
    ensures Step(l, Home) == l.(pos := 0) && Step(l, End) == l.(pos := |l.text|)
  {
    hide NextEnd, PrevStart;
    AsciiSteps(l.text, l.pos);
  }

  /** The two bytes around the cursor change places, and the cursor goes behind them. */
  lemma PlainSwap(l: Line)
    requires IsPlainLine(l) && 0 < l.pos < |l.text|
    ensures Step(l, Transpose) ==
            Line(l.text[..l.pos - 1] + [l.text[l.pos], l.text[l.pos - 1]] + l.text[l.pos + 1..], l.pos + 1, [],
                 l.masked)
  {
    hide NextPos, PrevPos;
    PlainSteps(l, l.pos);
    assert l.text[l.pos..l.pos + 1] == [l.text[l.pos]] && l.text[l.pos - 1..l.pos] == [l.text[l.pos - 1]];
  }

  lemma {:induction false} PlainSkip(l: Line, p: nat, spaces: bool)
    requires IsPlainLine(l) && p <= |l.text|
    ensures forall i :: SkipBack(l, p, spaces) <= i < p ==> (l.text[i] == SPACE) == spaces
    decreases p
  {
    hide PrevPos;
    if p > 0 && (l.text[p - 1] == SPACE) == spaces {
      PlainSteps(l, p);
      PlainSkip(l, p - 1, spaces);
    }
  }

  /** What goes is the spaces before the cursor and the longest run of other bytes before them. */
  lemma PlainWord(l: Line) returns (q: nat, m: nat)
    requires IsPlainLine(l)
    ensures q <= m <= l.pos && Step(l, BackWord) == Line(l.text[..q] + l.text[l.pos..], q, [], l.masked)
    ensures forall i :: m <= i < l.pos ==> l.text[i] == SPACE
    ensures forall i :: q <= i < m ==> l.text[i] != SPACE
    ensures (m == 0 || l.text[m - 1] != SPACE) && (q == 0 || l.text[q - 1] == SPACE)
  {
    hide SkipBack;
    m := SkipBack(l, l.pos, true);
    q := SkipBack(l, m, false);
    PlainSkip(l, l.pos, true);
    PlainSkip(l, m, false);
  }

  // ---- Typing and taking back -------------------------------------------------------------------------

  lemma {:induction false} ScanBackFront(a: seq<Byte>, b: seq<Byte>, pos: nat, i: nat)
    requires i < pos <= |a| && pos <= |b| && pos - i <= 4 && a[..pos] == b[..pos]
    ensures ScanBack(a, pos, i) == ScanBack(b, pos, i)
    decreases i
  {
    assert a[i] == a[..pos][i] && b[i] == b[..pos][i];
    if i > 0 && pos - i < 4 && IsCont(a[i]) {
      ScanBackFront(a, b, pos, i - 1);
    }
  }

  /** The character before a position depends on the bytes before it alone. */
  lemma DecodePrevFront(a: seq<Byte>, b: seq<Byte>, pos: nat)
    requires pos <= |a| && pos <= |b| && a[..pos] == b[..pos]
    ensures DecodePrev(a, pos) == DecodePrev(b, pos)
  {
    hide Decode, ScanBack;
    if pos > 0 {
      ScanBackFront(a, b, pos, pos - 1);
      var start := ScanBack(a, pos, pos - 1);
      assert a[start..pos] == a[..pos][start..] && b[start..pos] == b[..pos][start..];
    }
  }

  /** One complete character. */
  predicate IsChar(c: seq<Byte>) {
    IsWhole(c) && Decode(c).len == |c|
  }

  lemma CharNotEmpty(c: seq<Byte>)
    requires IsChar(c)
    ensures |c| > 0
  {
  }

  lemma CharBefore(text: seq<Byte>, pos: nat, c: seq<Byte>)
    requires IsChar(c) && pos + |c| <= |text| && text[pos..pos + |c|] == c
    ensures DecodePrev(text, pos + |c|) == Decode(c)
  {
    hide Decode, IsWhole, ScanBack;
    CharNotEmpty(c);
    CharBytes(c);
    forall i | 0 <= i < |c| ensures text[pos + i] == c[i] {
      assert text[pos..pos + |c|][i] == text[pos + i];
    }
    ScanBackFinds(text, pos + |c|, pos, pos + |c| - 1);
  }

  /** A character that does not join with the one before the cursor is a cluster of its own there. */
  predicate StandsAlone(l: Line, c: seq<Byte>)
    requires l.pos <= |l.text|
  {
    IsChar(c) && (l.pos == 0 || Apart2(DecodePrev(l.text, l.pos).cp, Decode(c).cp))
  }

  lemma {:induction false} NoneEndsInside(folds: seq<Fold>, b: nat, pos: nat, n: nat)
    requires FoldsOk(folds, b) && n > 0
    ensures EndsAt(AfterInsert(folds, pos, n), pos + n) == []
    decreases |folds|
  {
    hide FoldsOk;
    if folds != [] {
      var f, front := folds[|folds| - 1], folds[..|folds| - 1];
      OkFront(folds, b);
      NoneEndsInside(front, f.start, pos, n);
      EndsAtAppend(AfterInsert(front, pos, n), FoldAfterInsert(f, pos, n), pos + n);
    }
  }

  lemma {:induction false} EndsAtAppend(a: seq<Fold>, b: seq<Fold>, pos: nat)
    requires EndsAt(a, pos) == []
    ensures EndsAt(a + b, pos) == EndsAt(b, pos)
  {
    if a == [] {
      assert a + b == b;
    } else {
      assert (a + b)[1..] == a[1..] + b;
      EndsAtAppend(a[1..], b, pos);
    }
  }

  lemma TypedIsOneStep(l: Line, c: seq<Byte>)
    requires Ok(l) && StandsAlone(l, c)
    ensures |c| > 0 && Ok(Insert(l, c)) && PrevPos(Insert(l, c), l.pos + |c|) == l.pos
  {
    hide FoldsOk, AfterInsert, Decode, DecodePrev, IsWhole, Apart2, EndsAt, PrevStart;
    InsertOk(l, c);
    CharNotEmpty(c);
    var typed := Insert(l, c);
    NoneEndsInside(l.folds, |l.text|, l.pos, |c|);
    assert typed.text[l.pos..l.pos + |c|] == c && typed.text[..l.pos] == l.text[..l.pos];
    CharBefore(typed.text, l.pos, c);
    DecodePrevFront(typed.text, l.text, l.pos);
    PrevIsChar(typed.text, l.pos + |c|);
  }

  /** Typing an ordinary character outside a fold and pressing backspace gives the line back. */
  lemma TypedThenBackspace(l: Line, c: seq<Byte>)
    requires Ok(l) && StandsAlone(l, c) && !InsideFold(l.folds, l.pos)
    ensures Ok(Step(l, Type(c))) && Step(Step(l, Type(c)), Back) == l
  {
    hide FoldsOk, InsideFold, AfterInsert, StandsAlone, Cut, PrevPos, Inserted;
    TypedIsOneStep(l, c);
    InsertUndoneExactly(l, c);
  }

  // ---- Folds --------------------------------------------------------------------------------------------

  /** The list without fold i, the later ones moved down by its length. */
  function Without(folds: seq<Fold>, i: nat): (r: seq<Fold>)
    requires i < |folds| && folds[i].start <= folds[i].end
    requires forall j :: i < j < |folds| ==> folds[i].end <= folds[j].start <= folds[j].end
    ensures |r| == |folds| - 1
  {
    var n := folds[i].end - folds[i].start;
    seq(|folds| - 1, j requires 0 <= j < |folds| - 1 =>
      if j < i then folds[j] else Fold(folds[j + 1].start - n, folds[j + 1].end - n))
  }

  lemma FoldsInOrder(folds: seq<Fold>, b: nat, i: nat)
    requires FoldsOk(folds, b) && i < |folds|
    ensures folds[i].start < folds[i].end <= b
    ensures forall j :: i < j < |folds| ==> folds[i].end <= folds[j].start <= folds[j].end
    ensures forall j :: 0 <= j < i ==> folds[j].end <= folds[i].start
  {
  }

  lemma DeleteLast(folds: seq<Fold>, pos: nat, n: nat)
    ensures folds == [] ==> AfterDelete(folds, pos, n) == []
    ensures folds != [] ==>
              var last := |folds| - 1;
              AfterDelete(folds, pos, n) == AfterDelete(folds[..last], pos, n) + FoldAfterDelete(folds[last], pos, n)
  {
  }

  lemma WithoutLast(folds: seq<Fold>, i: nat)
    requires i < |folds| && folds[i].start < folds[i].end
    requires forall j :: i < j < |folds| ==> folds[i].end <= folds[j].start <= folds[j].end
    ensures var last := |folds| - 1;
            if i == last then Without(folds, i) == folds[..last]
            else Without(folds, i) == Without(folds[..last], i) +
                 FoldAfterDelete(folds[last], folds[i].start, folds[i].end - folds[i].start)
  {
  }

  lemma {:induction false} FoldCutOut(folds: seq<Fold>, b: nat, i: nat)
    requires FoldsOk(folds, b) && i < |folds|
    ensures folds[i].start < folds[i].end
    ensures forall j :: i < j < |folds| ==> folds[i].end <= folds[j].start <= folds[j].end
    ensures AfterDelete(folds, folds[i].start, folds[i].end - folds[i].start) == Without(folds, i)
    decreases |folds|
  {
    hide FoldsOk, AfterDelete, Without;
    FoldsInOrder(folds, b, i);
    var last := |folds| - 1;
    var f, n := folds[i], folds[i].end - folds[i].start;
    OkFront(folds, b);
    DeleteLast(folds, f.start, n);
    WithoutLast(folds, i);
    if i < last {
      FoldCutOut(folds[..last], folds[last].start, i);
    } else {
      FrontUntouched(folds[..last], f.start, n);
    }
  }

  lemma {:induction false} FrontUntouched(folds: seq<Fold>, pos: nat, n: nat)
    requires FoldsOk(folds, pos) && n > 0
    ensures AfterDelete(folds, pos, n) == folds
    decreases |folds|
  {
    hide FoldsOk, AfterDelete;
    DeleteLast(folds, pos, n);
    if folds != [] {
      var last := |folds| - 1;
      OkFront(folds, pos);
      OkWithin(folds[..last], folds[last].start, pos);
      FrontUntouched(folds[..last], pos, n);
      assert folds == folds[..last] + [folds[last]];
    }
  }

  lemma {:induction false} EndsAtFinds(folds: seq<Fold>, b: nat, i: nat)
    requires FoldsOk(folds, b) && i < |folds|
    ensures EndsAt(folds, folds[i].end) == [folds[i]] && BeginsAt(folds, folds[i].start) == [folds[i]]
    decreases |folds|
  {
    if i > 0 {
      EndsAtFinds(folds[1..], b, i - 1);
    }
  }

  /** A fold that ends at the cursor goes as a whole, and nothing else does; so does one that begins there. */
  lemma FoldGoesWhole(l: Line, i: nat)
    requires Ok(l) && !l.masked && i < |l.folds|
    ensures l.folds[i].start < l.folds[i].end <= |l.text|
    ensures forall j :: i < j < |l.folds| ==> l.folds[i].end <= l.folds[j].start <= l.folds[j].end
    ensures var f := l.folds[i];
            var without := Line(l.text[..f.start] + l.text[f.end..], f.start, Without(l.folds, i), false);
            && (l.pos == f.end ==> Step(l, Back) == without && Step(l, Left) == l.(pos := f.start))
            && (l.pos == f.start ==> Step(l, Del) == without && Step(l, Right) == l.(pos := f.end))
  {
    hide FoldsOk, EndsAt, BeginsAt, AfterDelete, Without, NextEnd, PrevStart;
    FoldsInOrder(l.folds, |l.text|, i);
    EndsAtFinds(l.folds, |l.text|, i);
    FoldCutOut(l.folds, |l.text|, i);
  }

  /** A pasted text with a newline in it becomes a fold of just that text, if there is a slot for one more. */
  lemma PasteFolds(l: Line, c: seq<Byte>)
    requires Ok(l) && !l.masked && NEWLINE in c && |AfterInsert(l.folds, l.pos, |c|)| < MAX_FOLDS
    ensures var r := Step(l, PasteText(c));
            && Fold(l.pos, l.pos + |c|) in r.folds && |r.folds| == |AfterInsert(l.folds, l.pos, |c|)| + 1
            && r.text == l.text[..l.pos] + c + l.text[l.pos..] && r.pos == l.pos + |c|
  {
    hide FoldsOk, AfterInsert, AddIndex;
    var folds := AfterInsert(l.folds, l.pos, |c|);
    assert |c| > 0;
    var j := AddIndex(folds, l.pos);
    assert FoldAdd(folds, l.pos, l.pos + |c|)[j] == Fold(l.pos, l.pos + |c|);
  }

  // ---- Recalled entries -----------------------------------------------------------------------------------

  lemma {:induction false} AsciiContextAfter(text: seq<Byte>, p: nat, newline: bool, k: nat)
    requires IsAscii(text) && p + k <= |text| && NEWLINE !in text[p..p + k]
    ensures ContextAfter(text, Context(p, newline), k) == Context(p + k, newline)
    decreases k
  {
    hide NextEnd;
    if k > 0 {
      AsciiSteps(text, p);
      assert text[p..p + k][0] == text[p] && text[p..p + k][1..] == text[p + 1..p + k];
      AsciiContextAfter(text, p + 1, newline, k - 1);
    }
  }

  lemma {:induction false} AsciiContextBefore(text: seq<Byte>, p: nat, newline: bool, k: nat)
    requires IsAscii(text) && k <= p <= |text| && NEWLINE !in text[p - k..p]
    ensures ContextBefore(text, Context(p, newline), k) == Context(p - k, newline)
    decreases k
  {
    hide PrevStart;
    if k > 0 {
      AsciiSteps(text, p);
      assert text[p - k..p][k - 1] == text[p - 1] && text[p - k..p][..k - 1] == text[p - k..p - 1];
      AsciiContextBefore(text, p - 1, newline, k - 1);
    }
  }

  /** A long ASCII entry with its newlines inside is shown with eight bytes of context at both ends. */
  lemma RecallKeepsContext(l: Line, entry: seq<Byte>)
    requires !l.masked && IsAscii(entry) && |entry| > 16 && NEWLINE in entry
    requires NEWLINE !in entry[..8] && NEWLINE !in entry[|entry| - 8..]
    ensures Ok(l) ==> Step(l, FromHistory(entry)) == Line(entry, |entry|, [Fold(8, |entry| - 8)], false)
  {
    hide ContextAfter, ContextBefore;
    assert entry[0..0 + 8] == entry[..8] && entry[|entry| - 8..|entry|] == entry[|entry| - 8..];
    AsciiContextAfter(entry, 0, false, 8);
    AsciiContextBefore(entry, |entry|, false, 8);
  }
}
