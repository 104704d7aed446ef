/**
 Whole characters over whole sessions, where history entries longer than the buffer are cut: a cut
 may fall inside a character, and it does not exactly when the byte it falls on starts one.
 */
module WholeHistory {
  import opened FoldedLine
  import opened LineEditor
  import LineOps
  import opened Utf8
  import opened WholeChars

  // ---- One entry ---------------------------------------------------------------------------------

  /** The entry is shown whole, or cut between two characters. */
  predicate CutsClean(entry: seq<Byte>, limit: nat, buflen: nat) {
    Fits(entry, limit, buflen) || !IsCont(entry[buflen])
  }

  /** What is shown of an entry of whole characters is whole characters exactly when it is cut between two. */
  lemma ShownIsTextExactly(entry: seq<Byte>, limit: nat, buflen: nat)
    requires IsText(entry)
    ensures IsText(Fitting(entry, limit, buflen)) <==> CutsClean(entry, limit, buflen)
  {
    hide IsText;
    if !Fits(entry, limit, buflen) {
      TextCut(entry, buflen);
    }
  }

  /** Recalling an entry of whole characters gives a good line exactly then. */
  lemma RecallGoodExactly(l: Line, entry: seq<Byte>, limit: nat, buflen: nat)
    requires IsText(entry)
    ensures Good(LineOps.Recall(l, Fitting(entry, limit, buflen))) <==> CutsClean(entry, limit, buflen)
  {
    hide IsText, CutsClean, Fitting, Ok, Between, LineOps.HistoryFold;
    ShownIsTextExactly(entry, limit, buflen);
    if IsText(Fitting(entry, limit, buflen)) {
      RecallGood(l, Fitting(entry, limit, buflen));
    }
  }

  // ---- One step of a session -----------------------------------------------------------------------

  ghost predicate AreTexts(entries: seq<seq<Byte>>) {
    forall i :: 0 <= i < |entries| ==> IsText(entries[i])
  }

  /** Whole characters in the line and in every entry, with the cursor and every fold edge between them. */
  ghost predicate Whole(s: Session) {
    SessionOk(s) && Good(s.line) && AreTexts(s.history.entries)
  }

  lemma PerformedOk(s: Session, act: Act)
    requires SessionOk(s) && IsAct(act)
    ensures SessionOk(Performed(s, act)) && Performed(s, act).max == s.max
    ensures LimitOf(Performed(s, act).buflen, s.max) >= LimitOf(s.buflen, s.max)
  {
    hide Ok, LineOps.Step, GrownTo, CString, LineOps.HistoryFold, AreCStrings;
    match act
    case Edit(op) =>
      LineOps.StepOk(s.line, op);
      EditedLength(s.line, op);
    case Move(back) =>
      if CanMove(s.history, back) {
        var h := Moved(s.history, s.line.text, back);
        LineOps.RecallOk(s.line, Fitting(Entry(h), LimitOf(s.buflen, s.max), s.buflen));
      }
  }

  /** Only typing and pasting make the text longer, by what is typed or pasted. */
  lemma EditedLength(l: Line, op: LineOps.Op)
    requires Ok(l) && !op.FromHistory?
    ensures |LineOps.Step(l, op).text| <= |l.text| + if op.Type? || op.PasteText? then |op.c| else 0
  {
    hide FoldsOk, LineOps.NextPos, LineOps.PrevPos, LineOps.Overlaps, LineOps.SkipBack;
  }

  /** Only whole characters are typed and pasted. */
  predicate IsTextAct(act: Act) {
    IsAct(act) && (act.Edit? ==> BringsText(act.op))
  }

  /** The entry a move goes to. */
  function Visited(h: History, back: bool): seq<Byte>
    requires HistoryOk(h) && CanMove(h, back)
  {
    h.entries[|h.entries| - 1 - (if back then h.index + 1 else h.index - 1)]
  }

  /** A move, if it is one, goes to an entry that is shown whole or cut between two characters. */
  predicate IsClean(s: Session, act: Act)
    requires HistoryOk(s.history)
  {
    act.Move? && CanMove(s.history, act.back) ==>
      CutsClean(Visited(s.history, act.back), LimitOf(s.buflen, s.max), s.buflen)
  }

  lemma {:induction false} CStringEnds(s: seq<Byte>)
    ensures |CString(s)| < |s| ==> s[|CString(s)|] == NUL
  {
    if s != [] && s[0] != NUL {
      CStringEnds(s[1..]);
    }
  }

  /** A text up to its first zero byte is a text. */
  lemma CStringIsText(s: seq<Byte>)
    requires IsText(s)
    ensures IsText(CString(s))
  {
    hide IsText, CString;
    var k := |CString(s)|;
    assert CString(s) == s[..k];
    if k < |s| {
      CStringEnds(s);
      TextCut(s, k);
    } else {
      assert s[..k] == s;
    }
  }

  lemma StoredTexts(h: History, text: seq<Byte>)
    requires HistoryOk(h) && |h.entries| > 1 && AreTexts(h.entries) && IsText(text)
    ensures AreTexts(Stored(h, text).entries)
  {
    hide IsText, CString, AreCStrings;
    CStringIsText(text);
  }

  /** A step keeps the line good exactly when it makes no move that cuts inside a character; the entries stay texts. */
  lemma StepWholeExactly(s: Session, act: Act)
    requires Whole(s) && IsTextAct(act)
    ensures SessionOk(Performed(s, act))
    ensures Good(Performed(s, act).line) <==> IsClean(s, act)
    ensures Whole(Performed(s, act)) <==> IsClean(s, act)
    ensures AreTexts(Performed(s, act).history.entries)
  {
    hide Ok, IsText, Good, LineOps.Step, LineOps.Recall, AreCStrings, CString, GrownTo, AreTexts, CutsClean, Fitting;
    PerformedOk(s, act);
    GoodHasText(s.line);
    match act
    case Edit(op) => StepGood(s.line, op);
    case Move(back) =>
      if |s.history.entries| > 1 {
        StoredTexts(s.history, s.line.text);
        if CanMove(s.history, back) {
          MovedIs(s.history, s.line.text, back);
          VisitedIsText(s.history, back);
          RecallGoodExactly(s.line, Visited(s.history, back), LimitOf(s.buflen, s.max), s.buflen);
        }
      }
  }

  lemma GoodHasText(l: Line)
    requires Good(l)
    ensures IsText(l.text)
  {
  }

  lemma VisitedIsText(h: History, back: bool)
    requires HistoryOk(h) && CanMove(h, back) && AreTexts(h.entries)
    ensures IsText(Visited(h, back))
  {
  }

  /** What a move shows. */
  lemma ShownByMove(s: Session, back: bool)
    requires SessionOk(s) && CanMove(s.history, back)
    ensures Performed(s, Move(back)).line.text ==
            Fitting(Visited(s.history, back), LimitOf(s.buflen, s.max), s.buflen)
  {
    hide Ok, CString, AreCStrings, GrownTo, Fitting, LineOps.HistoryFold;
    MovedIs(s.history, s.line.text, back);
  }

  lemma TwoByteChar()
    ensures IsText([0xC3, 0xA9])
  {
    var s: seq<Byte> := [0xC3, 0xA9];
    assert Decode(s).len == 2 && s[2..] == [];
  }

  lemma TwoByteSession(s: Session)
    requires s == Session(Line([], 0, [], false), History([[0xC3, 0xA9], []], 0), 1, 0)
    ensures Whole(s)
  {
    TwoByteChar();
  }

  /** The two bytes of one character, looked at in a buffer of one byte, are split. */
  lemma EntryIsSplit()
    ensures var s := Session(Line([], 0, [], false), History([[0xC3, 0xA9], []], 0), 1, 0);
            && Whole(s) && Performed(s, Move(true)).line.text == [0xC3]
            && !Good(Performed(s, Move(true)).line)
  {
    hide Good, AreTexts, IsText, Performed, AreCStrings;
    var s := Session(Line([], 0, [], false), History([[0xC3, 0xA9], []], 0), 1, 0);
    TwoByteSession(s);
    ShownByMove(s, true);
    StepWholeExactly(s, Move(true));
  }

  // ---- Whole sessions --------------------------------------------------------------------------------

  ghost function After(s: Session, acts: seq<Act>): (r: Session)
    requires SessionOk(s) && forall i :: 0 <= i < |acts| ==> IsAct(acts[i])
    ensures SessionOk(r)
  {
    if acts == [] then s
    else
      var before := After(s, acts[..|acts| - 1]);
      PerformedOk(before, acts[|acts| - 1]);
      Performed(before, acts[|acts| - 1])
  }

  ghost predicate AreTextActs(acts: seq<Act>) {
    forall i :: 0 <= i < |acts| ==> IsTextAct(acts[i])
  }

  lemma AfterStep(s: Session, acts: seq<Act>, k: nat)
    requires SessionOk(s) && AreTextActs(acts) && k < |acts|
    ensures After(s, acts[..k + 1]) == Performed(After(s, acts[..k]), acts[k])
  {
    hide SessionOk, Performed;
    assert acts[..k + 1][..k] == acts[..k];
  }

  ghost predicate WholeAt(s: Session, acts: seq<Act>, k: nat)
    requires SessionOk(s) && AreTextActs(acts) && k <= |acts|
  {
    Whole(After(s, acts[..k]))
  }

  ghost predicate CleanAt(s: Session, acts: seq<Act>, k: nat)
    requires SessionOk(s) && AreTextActs(acts) && k < |acts|
  {
    IsClean(After(s, acts[..k]), acts[k])
  }

  lemma WholeNext(s: Session, acts: seq<Act>, k: nat)
    requires SessionOk(s) && AreTextActs(acts) && k < |acts| && WholeAt(s, acts, k)
    ensures WholeAt(s, acts, k + 1) <==> CleanAt(s, acts, k)
  {
    hide Performed, Good, SessionOk, AreTexts, IsClean, After;
    AfterStep(s, acts, k);
    StepWholeExactly(After(s, acts[..k]), acts[k]);
  }

  lemma {:induction false} CleanIsWhole(s: Session, acts: seq<Act>, k: nat)
    requires Whole(s) && AreTextActs(acts) && k <= |acts| && forall j :: 0 <= j < k ==> CleanAt(s, acts, j)
    ensures WholeAt(s, acts, k)
    decreases k
  {
    if k == 0 {
      assert acts[..0] == [];
    } else {
      hide WholeAt, CleanAt, AreTextActs;
      CleanIsWhole(s, acts, k - 1);
      WholeNext(s, acts, k - 1);
    }
  }

  /**
   In a session in which only whole characters are typed and pasted, everything stays whole all the
   time exactly when no move through the history cuts an entry inside a character.
   */
  lemma SessionWholeExactly(s: Session, acts: seq<Act>)
    requires Whole(s) && AreTextActs(acts)
    ensures (forall k :: 0 <= k <= |acts| ==> WholeAt(s, acts, k)) <==>
            (forall k :: 0 <= k < |acts| ==> CleanAt(s, acts, k))
  {
    hide WholeAt, CleanAt, AreTextActs, Good, AreTexts;
    if forall k :: 0 <= k <= |acts| ==> WholeAt(s, acts, k) {
      forall k | 0 <= k < |acts| ensures CleanAt(s, acts, k) {
        assert WholeAt(s, acts, k + 1);
        WholeNext(s, acts, k);
      }
    }
    if forall k :: 0 <= k < |acts| ==> CleanAt(s, acts, k) {
      forall k | 0 <= k <= |acts| ensures WholeAt(s, acts, k) {
        CleanIsWhole(s, acts, k);
      }
    }
  }

  /** Every entry is at most as long as the buffer can become. */
  ghost predicate AllFit(s: Session) {
    forall i :: 0 <= i < |s.history.entries| ==> |s.history.entries[i]| <= LimitOf(s.buflen, s.max)
  }

  lemma FitKept(s: Session, act: Act)
    requires SessionOk(s) && AllFit(s) && IsAct(act)
    ensures AllFit(Performed(s, act)) && IsClean(s, act)
  {
    hide Ok, LineOps.Step, LineOps.Recall, AreCStrings, CString, GrownTo, LimitOf, IsCont, Fitting;
    PerformedOk(s, act);
    assert LimitOf(s.buflen, s.max) >= s.buflen by {
      LimitAtLeast(s.buflen, s.max);
    }
    if act.Move? && CanMove(s.history, act.back) {
      MovedIs(s.history, s.line.text, act.back);
    }
  }

  lemma LimitAtLeast(buflen: nat, max: nat)
    ensures LimitOf(buflen, max) >= buflen
  {
  }

  /** With a history that fits the buffer, no session of whole characters ever splits one. */
  lemma {:induction false} FittingHistoryNeverSplits(s: Session, acts: seq<Act>)
    requires Whole(s) && AllFit(s) && AreTextActs(acts)
    ensures Whole(After(s, acts)) && AllFit(After(s, acts))
    decreases |acts|
  {
    hide Performed, Good, AreTexts, IsClean, AllFit;
    if acts != [] {
      var n := |acts| - 1;
      FittingHistoryNeverSplits(s, acts[..n]);
      FitKept(After(s, acts[..n]), acts[n]);
      StepWholeExactly(After(s, acts[..n]), acts[n]);
    }
  }
}
