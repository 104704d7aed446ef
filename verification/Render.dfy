/**
 The line as shown: text between folds in its shown form, each fold as a marker, and the cursor
 translated to a position in what is shown.
 */
module Render {
  import opened FoldedLine
  import opened Sanitize
  import opened Utf8
  import opened WholeChars

  // ---- Fold markers ------------------------------------------------------------------------------

  function Newlines(s: seq<Byte>): nat {
    if s == [] then 0 else Newlines(s[..|s| - 1]) + if s[|s| - 1] == NEWLINE then 1 else 0
  }

  function Decimal(n: nat): (s: seq<Byte>)
    ensures s != [] && IsPlain(s)
  {
    if n < 10 then [0x30 + n] else Decimal(n / 10) + [0x30 + n % 10]
  }

  /** The character codes of an ASCII string. */
  function Ascii(s: string): (r: seq<Byte>)
    requires forall i :: 0 <= i < |s| ==> 32 <= s[i] as int < 127
    ensures |r| == |s| && IsPlain(r)
  {
    seq(|s|, i requires 0 <= i < |s| => Code(s[i]))
  }

  function Code(c: char): (b: Byte)
    requires 32 <= c as int < 127
    ensures 32 <= b < 127
  {
    c as int
  }

  /** What stands for hidden text: its number of lines, or of bytes if it is a single line. */
  function Marker(hidden: seq<Byte>): (s: seq<Byte>)
    ensures s != [] && IsPlain(s)
  {
    var lines := 1 + Newlines(hidden);
    var opening: string := "[... ";
    var pastedLines: string := " pasted lines ...]";
    var pastedChars: string := " pasted chars ...]";
    if lines > 1 then Ascii(opening) + Decimal(lines) + Ascii(pastedLines)
    else Ascii(opening) + Decimal(|hidden|) + Ascii(pastedChars)
  }

  function TenTo(k: nat): (r: nat)
    ensures r > 0
  {
    if k == 0 then 1 else 10 * TenTo(k - 1)
  }

  lemma {:induction false} DecimalLength(n: nat, k: nat)
    requires k > 0 && n < TenTo(k)
    ensures |Decimal(n)| <= k
    decreases k
  {
    if n >= 10 {
      DecimalLength(n / 10, k - 1);
    }
  }

  lemma {:induction false} NewlinesAtMost(s: seq<Byte>)
    ensures Newlines(s) <= |s|
  {
    if s != [] {
      NewlinesAtMost(s[..|s| - 1]);
    }
  }

  function DigitsValue(s: seq<Byte>): int {
    if s == [] then 0 else DigitsValue(s[..|s| - 1]) * 10 + (s[|s| - 1] as int - 0x30)
  }

  /** The digits written are those of the number. */
  lemma {:induction false} DecimalReads(n: nat)
    ensures DigitsValue(Decimal(n)) == n
  {
    if n < 10 {
      assert Decimal(n)[..0] == [];
    } else {
      DecimalReads(n / 10);
      assert Decimal(n)[..|Decimal(n)| - 1] == Decimal(n / 10);
    }
  }

  const DISPLAY_SIZE := 64

  lemma {:induction false} NewlinesAre(s: seq<Byte>)
    ensures Newlines(s) == multiset(s)[NEWLINE]
  {
    if s != [] {
      NewlinesAre(s[..|s| - 1]);
      assert s == s[..|s| - 1] + [s[|s| - 1]];
    }
  }

  /** The number in a marker is that of the hidden lines, or of the hidden bytes if they are one line. */
  lemma MarkerReads(hidden: seq<Byte>)
    ensures var m := Marker(hidden);
            && |m| >= 23
            && DigitsValue(m[5..|m| - 18]) == if NEWLINE in hidden then 1 + multiset(hidden)[NEWLINE] else |hidden|
  {
    hide Decimal, DigitsValue, Newlines;
    var m := Marker(hidden);
    NewlinesAre(hidden);
    var n := if NEWLINE in hidden then 1 + Newlines(hidden) else |hidden|;
    assert m[5..|m| - 18] == Decimal(n);
    DecimalReads(n);
  }

  /** For every length a size_t can hold, the marker and its terminator fit the array it is formatted into. */
  lemma MarkerFits(hidden: seq<Byte>)
    requires |hidden| < 0x1_0000_0000_0000_0000
    ensures |Marker(hidden)| < DISPLAY_SIZE
  {
    hide Decimal, Newlines;
    assert TenTo(20) == 100000000000000000000 by {
      assert TenTo(5) == 100000;
      assert TenTo(10) == 10000000000;
      assert TenTo(15) == 1000000000000000;
    }
    NewlinesAtMost(hidden);
    DecimalLength(1 + Newlines(hidden), 20);
    DecimalLength(|hidden|, 20);
  }

  method CountLines(s: seq<Byte>) returns (lines: nat)
    ensures lines == 1 + Newlines(s)
  {
    lines := 1;
    for j := 0 to |s|
      invariant lines == 1 + Newlines(s[..j])
    {
      assert s[..j + 1][..j] == s[..j];
      if s[j] == NEWLINE {
        lines := lines + 1;
      }
    }
    assert s[..|s|] == s;
  }

  // ---- The shown line --------------------------------------------------------------------------------

  function EndOfFolds(folds: seq<Fold>): nat {
    if folds == [] then 0 else folds[|folds| - 1].end
  }

  /** What is shown up to the end of the last fold. */
  function ShownFolds(text: seq<Byte>, folds: seq<Fold>): seq<Byte>
    requires FoldsOk(folds, |text|)
  {
    if folds == [] then []
    else
      var front, f := folds[..|folds| - 1], folds[|folds| - 1];
      ShownFolds(text, front) + Sanitized(text[EndOfFolds(front)..f.start]) + Marker(text[f.start..f.end])
  }

  function ShownLine(text: seq<Byte>, folds: seq<Fold>): seq<Byte>
    requires FoldsOk(folds, |text|)
  {
    ShownFolds(text, folds) + Sanitized(text[EndOfFolds(folds)..])
  }

  /** Without folds all text is shown; a fold is replaced by its marker and the text around it is shown. */
  lemma ShownParts(text: seq<Byte>, f: Fold)
    requires f.start < f.end <= |text|
    ensures FoldsOk([], |text|) && ShownLine(text, []) == Sanitized(text)
    ensures FoldsOk([f], |text|)
    ensures ShownLine(text, [f]) ==
            Sanitized(text[..f.start]) + Marker(text[f.start..f.end]) + Sanitized(text[f.end..])
  {
    hide Sanitized, Marker;
    assert [f][..0] == [] && text[0..] == text;
    assert ShownFolds(text, []) == [];
  }

  /** The folds that take part in showing the line. */
  function VisibleFolds(l: Line): (folds: seq<Fold>)
    requires Ok(l)
    ensures FoldsOk(folds, |l.text|)
  {
    if l.masked then [] else l.folds
  }

  /** The folds that begin before the cursor. */
  function FoldsBefore(folds: seq<Fold>, pos: nat): (before: seq<Fold>)
    ensures before <= folds
    ensures before != [] ==> before[|before| - 1].start < pos
    ensures |before| < |folds| ==> pos <= folds[|before|].start
    decreases |folds|
  {
    if folds == [] || folds[|folds| - 1].start < pos then folds else FoldsBefore(folds[..|folds| - 1], pos)
  }

  /** A cursor inside a fold is shown after its marker. */
  function CursorText(folds: seq<Fold>, pos: nat): nat {
    var before := FoldsBefore(folds, pos);
    if pos <= EndOfFolds(before) then EndOfFolds(before) else pos
  }

  /** Where the shown cursor stands before it is held to the end of the line. */
  function CursorAt(text: seq<Byte>, folds: seq<Fold>, pos: nat): nat
    requires FoldsOk(folds, |text|) && pos <= |text|
  {
    var before := FoldsBefore(folds, pos);
    |ShownFolds(text, before)| + |Sanitized(text[EndOfFolds(before)..CursorText(folds, pos)])|
  }

  // ---- What is shown is harmless -----------------------------------------------------------------------

  ghost predicate Harmless(s: seq<Byte>) {
    forall i :: 0 <= i < |s| ==> 0x20 <= s[i] && s[i] != 0x7F
  }

  lemma SanitizedHarmless(s: seq<Byte>)
    ensures Harmless(Sanitized(s))
  {
    hide Sanitized;
    forall i | 0 <= i < |Sanitized(s)| ensures 0x20 <= Sanitized(s)[i] && Sanitized(s)[i] != 0x7F {
      NoControlBytes(s, i);
    }
  }

  lemma {:induction false} FoldsHarmless(text: seq<Byte>, folds: seq<Fold>)
    requires FoldsOk(folds, |text|)
    ensures Harmless(ShownFolds(text, folds))
    decreases |folds|
  {
    hide Sanitized, Marker;
    if folds != [] {
      var front, f := folds[..|folds| - 1], folds[|folds| - 1];
      FoldsHarmless(text, front);
      SanitizedHarmless(text[EndOfFolds(front)..f.start]);
    }
  }

  /** No control byte reaches the terminal, whatever the line holds. */
  lemma LineHarmless(text: seq<Byte>, folds: seq<Fold>)
    requires FoldsOk(folds, |text|)
    ensures Harmless(ShownLine(text, folds))
  {
    hide Sanitized, ShownFolds;
    FoldsHarmless(text, folds);
    SanitizedHarmless(text[EndOfFolds(folds)..]);
  }

  // ---- Where the cursor is shown ------------------------------------------------------------------------

  lemma SplitShown(text: seq<Byte>, i: nat, j: nat, k: nat)
    requires i <= j <= k <= |text| && Between(text, i) && Between(text, j)
    ensures Sanitized(text[i..k]) == Sanitized(text[i..j]) + Sanitized(text[j..k])
  {
    hide Sanitized, IsText, IsBoundary;
    TailText(text, i, j);
    BetweenIsBoundary(text[i..j], text[j..k]);
    assert text[i..k] == text[i..j] + text[j..k];
    SplitsAtBoundary(text[i..k], j - i);
    assert text[i..k][..j - i] == text[i..j] && text[i..k][j - i..] == text[j..k];
  }

  lemma {:induction false} FoldsPrefix(text: seq<Byte>, folds: seq<Fold>, n: nat)
    requires FoldsOk(folds, |text|) && n <= |folds|
    ensures ShownFolds(text, folds[..n]) <= ShownFolds(text, folds)
    decreases |folds|
  {
    hide Sanitized, Marker;
    if n < |folds| {
      var front := folds[..|folds| - 1];
      FoldsPrefix(text, front, n);
      assert front[..n] == folds[..n];
    } else {
      assert folds[..n] == folds;
    }
  }

  /** The line cut off where the cursor stands, with the folds before it. */
  function UpToCursor(text: seq<Byte>, folds: seq<Fold>, pos: nat): seq<Byte>
    requires FoldsOk(folds, |text|) && pos <= |text|
  {
    var before := FoldsBefore(folds, pos);
    ShownFolds(text, before) + Sanitized(text[EndOfFolds(before)..CursorText(folds, pos)])
  }

  /** A line of whole characters: the cursor falls within what is shown, right after what the text before it shows. */
  lemma CursorIsExact(l: Line)
    requires Good(l)
    ensures var folds := VisibleFolds(l);
            && CursorAt(l.text, folds, l.pos) <= |ShownLine(l.text, folds)|
            && ShownLine(l.text, folds)[..CursorAt(l.text, folds, l.pos)] == UpToCursor(l.text, folds, l.pos)
  {
    hide Sanitized, IsText, ShownFolds, ShownLine, FoldsOk, Good, Ok, FoldsBefore;
    GoodIsOk(l);
    ShownUpToCursor(l);
  }

  lemma PrefixChain(a: seq<Byte>, x: seq<Byte>, y: seq<Byte>, m: seq<Byte>, whole: seq<Byte>)
    requires a + (x + y) + m <= whole
    ensures a + x <= whole
  {
    assert a + (x + y) + m == (a + x) + (y + m);
  }

  lemma ShownUpToCursor(l: Line)
    requires Good(l)
    ensures UpToCursor(l.text, VisibleFolds(l), l.pos) <= ShownLine(l.text, VisibleFolds(l))
  {
    hide Sanitized, IsText, ShownFolds, Marker, Between, FoldsBetween, FoldsOk;
    var text, folds := l.text, VisibleFolds(l);
    var before := FoldsBefore(folds, l.pos);
    var n, from, c := |before|, EndOfFolds(before), CursorText(folds, l.pos);
    assert before == folds[..n];
    EdgesBetween(l, n);
    if n < |folds| {
      FoldNext(folds, |text|, n);
      ShownNext(text, folds, n);
      SplitShown(text, from, c, folds[n].start);
      FoldsPrefix(text, folds, n + 1);
      PrefixChain(ShownFolds(text, before), Sanitized(text[from..c]), Sanitized(text[c..folds[n].start]),
                  Marker(text[folds[n].start..folds[n].end]), ShownFolds(text, folds));
    } else {
      assert folds[..n] == folds;
      FoldEnd(folds, |text|);
      SplitShown(text, from, c, |text|);
      assert text[from..] == text[from..|text|];
      PrefixChain(ShownFolds(text, folds), Sanitized(text[from..c]), Sanitized(text[c..|text|]), [],
                  ShownLine(text, folds));
    }
  }

  lemma FoldEnd(folds: seq<Fold>, n: nat)
    requires FoldsOk(folds, n)
    ensures EndOfFolds(folds) <= n
  {
  }

  lemma FoldNext(folds: seq<Fold>, b: nat, n: nat)
    requires FoldsOk(folds, b) && n < |folds|
    ensures FoldsOk(folds[..n], b) && FoldsOk(folds[..n + 1], b)
    ensures EndOfFolds(folds[..n]) <= folds[n].start < folds[n].end <= b
  {
  }

  lemma ShownNext(text: seq<Byte>, folds: seq<Fold>, n: nat)
    requires FoldsOk(folds, |text|) && n < |folds|
    requires FoldsOk(folds[..n], |text|) && FoldsOk(folds[..n + 1], |text|)
    requires EndOfFolds(folds[..n]) <= folds[n].start < folds[n].end <= |text|
    ensures ShownFolds(text, folds[..n + 1]) == ShownFolds(text, folds[..n])
              + Sanitized(text[EndOfFolds(folds[..n])..folds[n].start]) + Marker(text[folds[n].start..folds[n].end])
  {
    hide Sanitized, Marker, FoldsOk, EndOfFolds;
    assert folds[..n + 1][..n] == folds[..n];
  }

  lemma EdgesBetween(l: Line, n: nat)
    requires Good(l) && n <= |VisibleFolds(l)|
    ensures var folds := VisibleFolds(l);
            && Between(l.text, EndOfFolds(folds[..n])) && Between(l.text, l.pos)
            && (n > 0 ==> folds[n - 1] in l.folds && Between(l.text, folds[n - 1].start))
  {
    hide IsText;
    WholeTextBetween(l.text);
  }

  // ---- The renderer -----------------------------------------------------------------------------------

  lemma NoFolds(text: seq<Byte>, folds: seq<Fold>)
    requires folds == []
    ensures FoldsOk(folds, |text|) && ShownFolds(text, folds) == []
  {
  }

  /** First pass: how many bytes the line takes up when shown. */
  method Measure(text: seq<Byte>, folds: seq<Fold>) returns (len: nat)
    requires FoldsOk(folds, |text|)
    ensures len == |ShownLine(text, folds)|
  {
    hide Sanitized, Marker, FoldsOk, ShownFolds;
    len := 0;
    var src := 0;
    NoFolds(text, folds[..0]);
    for j := 0 to |folds|
      invariant src == EndOfFolds(folds[..j]) <= |text| && FoldsOk(folds[..j], |text|)
      invariant len == |ShownFolds(text, folds[..j])|
    {
      FoldNext(folds, |text|, j);
      ShownNext(text, folds, j);
      var n := SanitizeForDisplay(text[src..folds[j].start], null, 0);
      len := len + n + |Marker(text[folds[j].start..folds[j].end])|;
      src := folds[j].end;
    }
    assert folds[..|folds|] == folds;
    var n := SanitizeForDisplay(text[src..], null, 0);
    len := len + n;
  }

  lemma StartsSorted(folds: seq<Fold>, b: nat, i: nat, j: nat)
    requires FoldsOk(folds, b) && i <= j < |folds|
    ensures folds[i].start <= folds[j].start
  {
  }

  lemma BeforeIs(folds: seq<Fold>, b: nat, pos: nat, j: nat)
    requires FoldsOk(folds, b) && j <= |folds|
    requires j == 0 || folds[j - 1].start < pos
    requires j == |folds| || pos <= folds[j].start
    ensures FoldsBefore(folds, pos) == folds[..j]
  {
    hide FoldsOk, FoldsBefore;
    var k := |FoldsBefore(folds, pos)|;
    if k < j {
      StartsSorted(folds, b, k, j - 1);
    } else if k > j {
      StartsSorted(folds, b, j, k - 1);
    }
  }

  /** The cursor is placed, or lies beyond the first j folds. */
  ghost predicate Placed(text: seq<Byte>, folds: seq<Fold>, j: nat, pos: nat, at: int)
    requires FoldsOk(folds, |text|) && j <= |folds| && pos <= |text|
  {
    if at >= 0 then at == CursorAt(text, folds, pos) else j == 0 || folds[j - 1].end < pos
  }

  lemma CursorInGap(text: seq<Byte>, folds: seq<Fold>, j: nat, pos: nat)
    requires FoldsOk(folds, |text|) && j < |folds| && FoldsOk(folds[..j], |text|)
    requires (j == 0 || folds[j - 1].end < pos) && pos <= folds[j].start <= |text|
    ensures EndOfFolds(folds[..j]) <= pos
    ensures CursorAt(text, folds, pos) ==
            |ShownFolds(text, folds[..j])| + |Sanitized(text[EndOfFolds(folds[..j])..pos])|
  {
    hide Sanitized, Marker, FoldsOk, ShownFolds, FoldsBefore;
    if j > 0 {
      FoldNext(folds, |text|, j - 1);
    }
    BeforeIs(folds, |text|, pos, j);
  }

  lemma CursorInFold(text: seq<Byte>, folds: seq<Fold>, j: nat, pos: nat)
    requires FoldsOk(folds, |text|) && j < |folds| && FoldsOk(folds[..j + 1], |text|)
    requires folds[j].start < pos <= folds[j].end <= |text|
    ensures CursorAt(text, folds, pos) == |ShownFolds(text, folds[..j + 1])|
  {
    hide Sanitized, Marker, FoldsOk, ShownFolds, FoldsBefore;
    if j + 1 < |folds| {
      FoldNext(folds, |text|, j + 1);
    }
    BeforeIs(folds, |text|, pos, j + 1);
    assert text[folds[j].end..folds[j].end] == [];
    NoneShown(text[folds[j].end..folds[j].end]);
  }

  /** Places the cursor in the gap before fold j or behind its marker; dst is where the gap is shown. */
  method PlaceCursor(text: seq<Byte>, folds: seq<Fold>, j: nat, pos: nat, dst: nat) returns (at: int)
    requires FoldsOk(folds, |text|) && j < |folds| && pos <= |text| && FoldsOk(folds[..j], |text|)
    requires dst == |ShownFolds(text, folds[..j])| && Placed(text, folds, j, pos, -1)
    ensures Placed(text, folds, j + 1, pos, at) && at >= -1
  {
    hide Sanitized, Marker, FoldsOk, ShownFolds, CursorAt;
    var f := folds[j];
    FoldNext(folds, |text|, j);
    ShownNext(text, folds, j);
    var src := if j == 0 then 0 else folds[j - 1].end;
    at := -1;
    if pos <= f.start {
      CursorInGap(text, folds, j, pos);
      var n := SanitizeForDisplay(text[src..pos], null, 0);
      at := dst + n;
    } else if pos <= f.end {
      CursorInFold(text, folds, j, pos);
      var n := SanitizeForDisplay(text[src..f.start], null, 0);
      at := dst + n + |Marker(text[f.start..f.end])|;
    }
  }

  lemma SpliceTake(base: seq<Byte>, at: nat, w: seq<Byte>)
    requires at + |w| <= |base|
    ensures Splice(base, at, w)[..at + |w|] == base[..at] + w
  {
  }

  method WriteShown(out: array<Byte>, dst: nat, s: seq<Byte>) returns (end: nat)
    requires dst + |Sanitized(s)| <= out.Length
    modifies out
    ensures end == dst + |Sanitized(s)| && out[..end] == old(out[..dst]) + Sanitized(s)
  {
    hide Sanitized, Splice;
    var n := SanitizeForDisplay(s, out, dst);
    end := dst + n;
    SpliceTake(old(out[..]), dst, Sanitized(s));
    assert old(out[..])[..dst] == old(out[..dst]) && out[..][..end] == out[..end];
  }

  method WriteBytes(out: array<Byte>, dst: nat, s: seq<Byte>) returns (end: nat)
    requires dst + |s| <= out.Length
    modifies out
    ensures end == dst + |s| && out[..end] == old(out[..dst]) + s
  {
    hide Splice;
    Store(out, dst, s);
    end := dst + |s|;
    SpliceTake(old(out[..]), dst, s);
    assert old(out[..])[..dst] == old(out[..dst]) && out[..][..end] == out[..end];
  }

  /** Second pass: the shown bytes, their number and the cursor among them. */
  method RenderBuffer(l: Line) returns (out: array<Byte>, outLen: nat, outPos: nat)
    requires Ok(l)
    ensures fresh(out) && out.Length == outLen + 1 && out[outLen] == 0
    ensures out[..outLen] == ShownLine(l.text, VisibleFolds(l))
    ensures outPos == Min(CursorAt(l.text, VisibleFolds(l), l.pos), outLen)
  {
    hide Sanitized, Marker, FoldsOk, ShownFolds, CursorAt, Placed, FoldsBefore;
    var text, pos, folds := l.text, l.pos, VisibleFolds(l);
    outLen := Measure(text, folds);
    out := new Byte[outLen + 1];
    var src, dst, at: int := 0, 0, -1;
    NoFolds(text, folds[..0]);
    Unplaced(text, folds, pos);
    for j := 0 to |folds|
      invariant src == EndOfFolds(folds[..j]) <= |text| && FoldsOk(folds[..j], |text|)
      invariant 0 <= dst == |ShownFolds(text, folds[..j])| <= outLen && out[..dst] == ShownFolds(text, folds[..j])
      invariant Placed(text, folds, j, pos, at) && at >= -1
    {
      var f := folds[j];
      FoldNext(folds, |text|, j);
      ShownNext(text, folds, j);
      FoldsPrefix(text, folds, j + 1);
      if at < 0 {
        at := PlaceCursor(text, folds, j, pos, dst);
      } else {
        StaysPlaced(text, folds, j, pos, at);
      }
      dst := WriteShown(out, dst, text[src..f.start]);
      dst := WriteBytes(out, dst, Marker(text[f.start..f.end]));
      src := f.end;
    }
    assert folds[..|folds|] == folds;
    if at < 0 {
      at := PlaceLast(text, folds, pos, src, dst);
    } else {
      PlacedIs(text, folds, pos, at);
    }
    dst := WriteShown(out, dst, text[src..]);
    out[outLen] := 0;
    outPos := Min(at, outLen);
  }

  method PlaceLast(text: seq<Byte>, folds: seq<Fold>, pos: nat, src: nat, dst: nat) returns (at: nat)
    requires FoldsOk(folds, |text|) && pos <= |text| && Placed(text, folds, |folds|, pos, -1)
    requires src == EndOfFolds(folds) && dst == |ShownFolds(text, folds)|
    ensures at == CursorAt(text, folds, pos)
  {
    hide Sanitized, FoldsOk, ShownFolds, FoldsBefore;
    if folds != [] {
      FoldNext(folds, |text|, |folds| - 1);
    }
    BeforeIs(folds, |text|, pos, |folds|);
    assert folds[..|folds|] == folds;
    var n := SanitizeForDisplay(text[src..pos], null, 0);
    at := dst + n;
  }

  lemma Unplaced(text: seq<Byte>, folds: seq<Fold>, pos: nat)
    requires FoldsOk(folds, |text|) && pos <= |text|
    ensures Placed(text, folds, 0, pos, -1)
  {
  }

  lemma StaysPlaced(text: seq<Byte>, folds: seq<Fold>, j: nat, pos: nat, at: nat)
    requires FoldsOk(folds, |text|) && pos <= |text| && j < |folds| && Placed(text, folds, j, pos, at)
    ensures Placed(text, folds, j + 1, pos, at)
  {
    hide CursorAt;
  }

  lemma PlacedIs(text: seq<Byte>, folds: seq<Fold>, pos: nat, at: nat)
    requires FoldsOk(folds, |text|) && pos <= |text| && Placed(text, folds, |folds|, pos, at)
    ensures at == CursorAt(text, folds, pos)
  {
    hide CursorAt;
  }

  function Min(a: nat, b: nat): nat {
    if a <= b then a else b
  }
}
