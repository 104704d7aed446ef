/**
 The line editor: a byte buffer with a terminator, a cursor, fold ranges and a history.  Each
 operation on the buffer is proved to be the operation on the line as a value.
 */
module LineEditor {
  import opened FoldedLine
  import opened FoldList
  import LineOps
  import opened Sanitize
  import opened Utf8

  // ---- Moving bytes about ------------------------------------------------------------------------

  lemma InsertBytes(b: seq<Byte>, len: nat, pos: nat, c: seq<Byte>)
    requires pos <= len && len + |c| <= |b|
    ensures Splice(Splice(b, pos + |c|, b[pos..len]), pos, c)[..len + |c|] == Inserted(b[..len], pos, c)
  {
  }

  lemma RemoveBytes(b: seq<Byte>, len: nat, pos: nat, n: nat)
    requires pos + n <= len <= |b|
    ensures Splice(b, pos, b[pos + n..len])[..len - n] == Removed(b[..len], pos, n)
  {
  }

  lemma SpliceParts(base: seq<Byte>, at: nat, w: seq<Byte>)
    requires at + |w| <= |base|
    ensures Splice(base, at, w)[..at] == base[..at] && Splice(base, at, w)[at..at + |w|] == w
    ensures Splice(base, at, w)[at + |w|..] == base[at + |w|..]
  {
  }

  /** The text with the ranges s..p and p..e exchanged. */
  function Exchanged(t: seq<Byte>, s: nat, p: nat, e: nat): (r: seq<Byte>)
    requires s <= p <= e <= |t|
    ensures |r| == |t|
  {
    t[..s] + t[p..e] + t[s..p] + t[e..]
  }

  /** Exchanging the two ranges again brings the text back. */
  lemma ExchangedTwice(t: seq<Byte>, s: nat, p: nat, e: nat)
    requires s <= p <= e <= |t|
    ensures Exchanged(Exchanged(t, s, p, e), s, s + (e - p), e) == t
  {
    var r, m := Exchanged(t, s, p, e), s + (e - p);
    assert r[..s] == t[..s] && r[s..m] == t[p..e] && r[m..e] == t[s..p] && r[e..] == t[e..];
    assert t == t[..s] + t[s..p] + t[p..e] + t[e..];
  }

  lemma SwapBytes(b: seq<Byte>, s: nat, p: nat, e: nat)
    requires s <= p <= e <= |b|
    ensures Splice(Splice(b, s + (e - p), b[s..p]), s, b[p..e]) == Exchanged(b, s, p, e)
  {
    var m := s + (e - p);
    var once := Splice(b, m, b[s..p]);
    SpliceParts(b, m, b[s..p]);
    assert once == b[..m] + b[s..p] + b[e..];
    assert once[..s] == b[..s] && once[m..] == b[s..p] + b[e..];
  }

  lemma ExchangedFront(b: seq<Byte>, len: nat, s: nat, p: nat, e: nat)
    requires s <= p <= e <= len <= |b|
    ensures Exchanged(b, s, p, e)[..len] == Exchanged(b[..len], s, p, e)
  {
    var t := b[..len];
    assert t[..s] == b[..s] && t[p..e] == b[p..e] && t[s..p] == b[s..p] && t[e..] == b[e..len];
  }

  /** Doubling until enough, with the maximum in place of the first size above half of it. */
  function Doubled(size: nat, needed: nat, max: nat): (r: nat)
    requires size > 0 && needed <= max
    ensures needed <= r && size <= r && (r <= max || r == size)
    decreases needed - size
  {
    if size >= needed then size else if size > max / 2 then max else Doubled(size * 2, needed, max)
  }

  /** Doubled k times. */
  function Twice(size: nat, k: nat): nat
    decreases k
  {
    if k == 0 then size else Twice(size * 2, k - 1)
  }

  /** The size is doubled as often as needed and no more, unless that would pass the maximum. */
  lemma {:induction false} DoubledIs(size: nat, needed: nat, max: nat) returns (k: nat)
    requires size > 0 && needed <= max
    ensures var r := Doubled(size, needed, max);
            && (k > 0 ==> Twice(size, k - 1) < needed)
            && (r == Twice(size, k) || (r == max && k > 0 && Twice(size, k - 1) > max / 2))
    decreases needed - size
  {
    if size >= needed {
      k := 0;
    } else if size > max / 2 {
      k := 1;
    } else {
      var more := DoubledIs(size * 2, needed, max);
      k := more + 1;
    }
  }

  /** The longest text a buffer holds, now or after growing. */
  function LimitOf(buflen: nat, max: nat): (r: nat)
    ensures r >= buflen && r >= max && (r == buflen || r == max)
  {
    if max > buflen then max else buflen
  }

  /** The size of the buffer once a text of the needed length has been asked for. */
  function GrownTo(buflen: nat, needed: nat, max: nat): (r: nat)
    ensures r >= buflen && LimitOf(r, max) >= LimitOf(buflen, max)
    ensures if needed <= LimitOf(buflen, max) then needed <= r else r == buflen
    ensures needed <= buflen ==> r == buflen
  {
    if needed <= buflen || needed > max then buflen
    else Doubled(if buflen != 0 then buflen else 16, needed, max)
  }

  /** The doubled buffer size that holds what is needed, at most the maximum. */
  method NewSize(buflen: nat, needed: nat, max: nat) returns (size: nat)
    requires buflen < needed <= max
    ensures needed <= size && (size <= max || size == 16) && size == GrownTo(buflen, needed, max)
  {
    size := if buflen != 0 then buflen else 16;
    while size < needed
      invariant size > 0 && (size <= max || size == 16)
      invariant GrownTo(buflen, needed, max) == Doubled(size, needed, max)
      decreases needed - size
    {
      if size > max / 2 {
        return max;
      }
      size := size * 2;
    }
  }

  // ---- History ---------------------------------------------------------------------------------------

  const NUL: Byte := 0

  /** A byte string as C copies it: up to the first zero byte. */
  function CString(s: seq<Byte>): (r: seq<Byte>)
    ensures r <= s && NUL !in r
    ensures NUL !in s ==> r == s
  {
    if s == [] || s[0] == NUL then [] else [s[0]] + CString(s[1..])
  }

  /** Entries from oldest to newest, and how far back from the newest the edited one is. */
  datatype History = History(entries: seq<seq<Byte>>, index: nat)

  /** Entries are C strings, and the index is that of an entry. */
  predicate HistoryOk(h: History) {
    (h.index == 0 || h.index < |h.entries|) && AreCStrings(h.entries)
  }

  predicate AreCStrings(entries: seq<seq<Byte>>) {
    forall i :: 0 <= i < |entries| ==> NUL !in entries[i]
  }

  /** The edited text is written back to its entry before another one is shown. */
  function Stored(h: History, text: seq<Byte>): (r: History)
    requires HistoryOk(h) && |h.entries| > 1
    ensures HistoryOk(r)
  {
    h.(entries := h.entries[|h.entries| - 1 - h.index := CString(text)])
  }

  /** Whether there is an entry to go to. */
  predicate CanMove(h: History, back: bool) {
    |h.entries| > 1 && (if back then h.index + 1 < |h.entries| else h.index > 0)
  }

  function Moved(h: History, text: seq<Byte>, back: bool): (r: History)
    requires HistoryOk(h) && CanMove(h, back)
    ensures HistoryOk(r)
  {
    Stored(h, text).(index := if back then h.index + 1 else h.index - 1)
  }

  function Entry(h: History): seq<Byte>
    requires HistoryOk(h) && h.entries != []
  {
    h.entries[|h.entries| - 1 - h.index]
  }

  /** Whether the buffer holds the entry, as it is or after growing. */
  predicate Fits(entry: seq<Byte>, limit: nat, buflen: nat) {
    |entry| <= limit || |entry| <= buflen
  }

  /** An entry the buffer can grow to hold, or what fits in the buffer as it is. */
  function Fitting(entry: seq<Byte>, limit: nat, buflen: nat): seq<Byte> {
    if Fits(entry, limit, buflen) then entry else entry[..buflen]
  }

  /** The history after a move and the opposite one, when nothing is typed between them. */
  function MovedThereAndBack(h: History, text: seq<Byte>, back: bool, limit: nat, buflen: nat): (r: History)
    requires HistoryOk(h) && CanMove(h, back)
    ensures HistoryOk(r) && r.entries != []
  {
    var away := Moved(h, text, back);
    Moved(away, Fitting(Entry(away), limit, buflen), !back)
  }

  /**
   Going one entry away and coming back shows the edited text again.  The entries are as if the
   edited text had just been stored exactly when the visited entry fits: a longer one stays cut.
   */
  lemma ThereAndBack(h: History, text: seq<Byte>, back: bool, limit: nat, buflen: nat, newLimit: nat, newBuflen: nat)
    requires HistoryOk(h) && CanMove(h, back) && |text| <= buflen <= newBuflen
    ensures var away, again := Moved(h, text, back), MovedThereAndBack(h, text, back, limit, buflen);
            && again.index == h.index
            && Fitting(Entry(again), newLimit, newBuflen) == CString(text)
            && again.entries ==
               Stored(h, text).entries[|h.entries| - 1 - away.index := Fitting(Entry(away), limit, buflen)]
            && (again.entries == Stored(h, text).entries <==> Fits(Entry(away), limit, buflen))
  {
    hide CString, Fitting, Fits, AreCStrings, Stored, Moved, Entry, MovedThereAndBack;
    AgainIs(h, text, back, limit, buflen);
    var away := Moved(h, text, back);
    EntryIsCString(away);
    FittingIs(Entry(away), limit, buflen);
    PutBackExactly(Stored(h, text).entries, |h.entries| - 1 - away.index, Fitting(Entry(away), limit, buflen));
    FittingIs(CString(text), newLimit, newBuflen);
  }

  lemma AgainIs(h: History, text: seq<Byte>, back: bool, limit: nat, buflen: nat)
    requires HistoryOk(h) && CanMove(h, back)
    ensures var away, again := Moved(h, text, back), MovedThereAndBack(h, text, back, limit, buflen);
            var v := |h.entries| - 1 - away.index;
            && 0 <= v < |Stored(h, text).entries| && Stored(h, text).entries[v] == Entry(away)
            && away.entries != [] && again.index == h.index && Entry(again) == CString(text)
            && again.entries == Stored(h, text).entries[v := Fitting(Entry(away), limit, buflen)]
  {
    hide CString, Fitting, Fits, AreCStrings, Stored, Moved, Entry;
    MovedIs(h, text, back);
    var away := Moved(h, text, back);
    var seen := Fitting(Entry(away), limit, buflen);
    EntryIsCString(away);
    FittingIs(Entry(away), limit, buflen);
    MovedIs(away, seen, !back);
  }

  lemma MovedIs(h: History, text: seq<Byte>, back: bool)
    requires HistoryOk(h) && CanMove(h, back)
    ensures var r := Moved(h, text, back);
            && CanMove(r, !back) && |r.entries| == |h.entries| && r.entries == Stored(h, text).entries
            && r.index == (if back then h.index + 1 else h.index - 1)
            && r.entries == h.entries[|h.entries| - 1 - h.index := CString(text)]
            && Entry(r) == h.entries[|h.entries| - 1 - r.index]
            && Entry(r) == r.entries[|h.entries| - 1 - r.index]
  {
    hide CString, AreCStrings;
  }

  lemma EntryIsCString(h: History)
    requires HistoryOk(h) && h.entries != []
    ensures NUL !in Entry(h)
  {
  }

  lemma PutBackExactly(entries: seq<seq<Byte>>, v: nat, x: seq<Byte>)
    requires v < |entries|
    ensures entries[v := x] == entries <==> x == entries[v]
  {
    assert entries[v := x][v] == x;
  }

  lemma FittingIs(entry: seq<Byte>, limit: nat, buflen: nat)
    requires NUL !in entry
    ensures CString(Fitting(entry, limit, buflen)) == Fitting(entry, limit, buflen)
    ensures Fitting(entry, limit, buflen) == entry <==> Fits(entry, limit, buflen)
    ensures |entry| <= buflen ==> Fits(entry, limit, buflen)
  {
  }

  /** In a fixed buffer of two bytes, an entry of three loses its last byte by being looked at. */
  lemma LongEntryIsCut(a: Byte, b: Byte, c: Byte)
    requires a != NUL && b != NUL && c != NUL
    ensures var h := History([[a, b, c], []], 0);
            HistoryOk(h) && CanMove(h, true) && MovedThereAndBack(h, [], true, 2, 2) == History([[a, b], []], 0)
  {
    var h := History([[a, b, c], []], 0);
    assert Moved(h, [], true) == History([[a, b, c], []], 1);
    assert Fitting([a, b, c], 2, 2) == [a, b];
    FittingIs([a, b, c], 2, 2);
    assert h.entries[0 := [a, b]] == [[a, b], []];
  }

  // ---- A session: line, history and buffer size as one value ------------------------------------------

  datatype Session = Session(line: Line, history: History, buflen: nat, max: nat)

  ghost predicate SessionOk(s: Session) {
    Ok(s.line) && HistoryOk(s.history) && |s.line.text| <= s.buflen
  }

  /** What a key or a paste asks for: an edit of the line, or another history entry. */
  datatype Act = Edit(op: LineOps.Op) | Move(back: bool)

  /** Entries are shown by moving through the history only. */
  predicate IsAct(act: Act) {
    act.Edit? ==> !act.op.FromHistory?
  }

  /** Text beyond the limit is refused; text within it may make the buffer grow. */
  function Edited(s: Session, op: LineOps.Op): Session
    requires SessionOk(s)
  {
    if op.Type? || op.PasteText? then
      var needed := |s.line.text| + |op.c|;
      if needed <= LimitOf(s.buflen, s.max) then
        s.(line := LineOps.Step(s.line, op), buflen := GrownTo(s.buflen, needed, s.max))
      else s
    else s.(line := LineOps.Step(s.line, op))
  }

  function Performed(s: Session, act: Act): Session
    requires SessionOk(s)
  {
    match act
    case Edit(op) => Edited(s, op)
    case Move(back) =>
      if |s.history.entries| <= 1 then s
      else if !CanMove(s.history, back) then s.(history := Stored(s.history, s.line.text))
      else
        var h := Moved(s.history, s.line.text, back);
        var shown := Fitting(Entry(h), LimitOf(s.buflen, s.max), s.buflen);
        Session(LineOps.Recall(s.line, shown), h, GrownTo(s.buflen, |Entry(h)|, s.max), s.max)
  }

  // ---- The editor ------------------------------------------------------------------------------------

  class Editor {
    var buf: array<Byte>
    var buflen: nat
    const buflenMax: nat
    var pos: nat
    var len: nat
    const folds: Folds
    const masked: bool
    var history: History

    ghost predicate Valid()
      reads this, buf, folds, folds.start, folds.end
    {
      && folds.Valid() && buf.Length == buflen + 1
      && (buf as object) != folds.start && (buf as object) != folds.end
      && pos <= len <= buflen && buf[len] == NUL
      && LineOk() && HistoryOk(history)
    }

    ghost predicate LineOk()
      requires folds.Valid() && len < buf.Length
      reads this, buf, folds, folds.start, folds.end
    {
      Ok(Line(buf[..len], pos, folds.View(), masked))
    }

    function View(): (l: Line)
      requires Valid()
      reads this, buf, folds, folds.start, folds.end
      ensures Ok(l)
    {
      Line(buf[..len], pos, folds.View(), masked)
    }

    /** The longest text the buffer holds, now or after growing. */
    function Limit(): nat
      reads this
    {
      LimitOf(buflen, buflenMax)
    }

    function State(): (s: Session)
      requires Valid()
      reads this, buf, folds, folds.start, folds.end
      ensures SessionOk(s)
    {
      Session(View(), history, buflen, buflenMax)
    }

    /** A growable buffer has a maximum above zero; a fixed one has zero. */
    constructor (buffer: array<Byte>, buflenMax: nat, masked: bool, entries: seq<seq<Byte>>)
      requires buffer.Length > 0 && HistoryOk(History(entries, 0))
      modifies buffer
      ensures Valid() && View() == Line([], 0, [], masked) && buf == buffer && history == History(entries, 0)
      ensures fresh(folds) && fresh(folds.start) && fresh(folds.end)
    {
      var f := new Folds();
      folds, buf, buflen := f, buffer, buffer.Length - 1;
      this.buflenMax, this.masked := buflenMax, masked;
      pos, len, history := 0, 0, History(entries, 0);
      new;
      buf[0] := NUL;
    }

    method Grow(needed: nat) returns (ok: bool)
      requires Valid()
      modifies this
      ensures Valid() && View() == old(View()) && history == old(history) && len == old(len)
      ensures ok <==> needed <= old(Limit())
      ensures ok ==> needed <= buflen && Limit() >= old(Limit())
      ensures buflenMax >= 16 ==> Limit() == old(Limit())
      ensures buflen == GrownTo(old(buflen), needed, buflenMax) && (!ok ==> buflen == old(buflen))
      ensures buf == old(buf) || fresh(buf)
    {
      hide GrownTo, FoldsOk;
      if needed <= buflen {
        return true;
      }
      if buflenMax == 0 || needed > buflenMax {
        return false;
      }
      var size := NewSize(buflen, needed, buflenMax);
      var newbuf := new Byte[size + 1](_ => 0);
      Store(newbuf, 0, buf[..len + 1]);
      assert newbuf[..len] == buf[..len];
      buf, buflen := newbuf, size;
      ok := true;
    }

    // ---- Inserting ---------------------------------------------------------------------------

    /** Inserts bytes at the cursor; refused when the buffer cannot hold them. */
    method Insert(c: seq<Byte>) returns (ok: bool)
      requires Valid()
      modifies this, buf, folds, folds.start, folds.end
      ensures Valid() && history == old(history) && buflen == GrownTo(old(buflen), old(len) + |c|, buflenMax)
      ensures ok <==> old(len) + |c| <= old(Limit())
      ensures View() == if ok then LineOps.Insert(old(View()), c) else old(View())
      ensures buf == old(buf) || fresh(buf)
    {
      hide Ok, LineOps.Insert;
      ok := Grow(len + |c|);
      if ok {
        InsertInPlace(c);
      }
    }

    method InsertInPlace(c: seq<Byte>)
      requires Valid() && len + |c| <= buflen
      modifies this, buf, folds, folds.start, folds.end
      ensures Valid() && history == old(history) && buf == old(buf) && buflen == old(buflen)
      ensures View() == LineOps.Insert(old(View()), c)
    {
      hide Splice, FoldsOk, AfterInsert, Inserted, Ok;
      ghost var l, b := View(), buf[..];
      LineOps.InsertOk(l, c);
      assert b[..len] == l.text && b[pos..len] == buf[pos..len];
      InsertBytes(b, len, pos, c);
      Store(buf, pos + |c|, buf[pos..len]);
      Store(buf, pos, c);
      folds.AdjustAfterInsert(pos, |c|);
      pos, len := pos + |c|, len + |c|;
      assert buf[..][..len] == buf[..len];
      buf[len] := NUL;
    }

    /** Pasted text with a newline in it is inserted and then folded; other pasted text is just inserted. */
    method Paste(c: seq<Byte>) returns (ok: bool)
      requires Valid()
      modifies this, buf, folds, folds.start, folds.end
      ensures Valid() && history == old(history) && buflen == GrownTo(old(buflen), old(len) + |c|, buflenMax)
      ensures ok <==> old(len) + |c| <= old(Limit())
      ensures View() == if ok then LineOps.Paste(old(View()), c) else old(View())
    {
      hide FoldsOk, AfterInsert, Inserted, Ok, FoldAdd;
      var start := pos;
      ghost var l := View();
      LineOps.InsertOk(l, c);
      ok := Insert(c);
      if ok && !masked && NEWLINE in c {
        folds.Add(start, start + |c|);
      }
    }

    // ---- Moving ------------------------------------------------------------------------------

    method NextLen(p: nat) returns (n: nat)
      requires Valid() && p <= len
      ensures n == LineOps.NextPos(View(), p) - p
    {
      hide LineOps.BeginsAt, NextEnd;
      if !masked {
        var f := folds.FindStart(p);
        if f != [] {
          return f[0].end - f[0].start;
        }
      }
      n := NextCharLen(buf[..len], p);
    }

    method PrevLen(p: nat) returns (n: nat)
      requires Valid() && p <= len
      ensures n == p - LineOps.PrevPos(View(), p)
    {
      hide LineOps.EndsAt, PrevStart;
      if !masked {
        var f := folds.FindEnd(p);
        if f != [] {
          return f[0].end - f[0].start;
        }
      }
      n := PrevCharLen(buf[..len], p);
    }

    method MoveLeft()
      requires Valid()
      modifies `pos
      ensures Valid() && View() == LineOps.MoveLeft(old(View()))
    {
      hide FoldsOk, LineOps.PrevPos;
      if pos > 0 {
        var n := PrevLen(pos);
        pos := pos - n;
      }
    }

    method MoveRight()
      requires Valid()
      modifies `pos
      ensures Valid() && View() == LineOps.MoveRight(old(View()))
    {
      hide FoldsOk, LineOps.NextPos;
      if pos != len {
        var n := NextLen(pos);
        pos := pos + n;
      }
    }

    method MoveHome()
      requires Valid()
      modifies `pos
      ensures Valid() && View() == LineOps.Step(old(View()), LineOps.Home)
    {
      hide FoldsOk;
      pos := 0;
    }

    method MoveEnd()
      requires Valid()
      modifies `pos
      ensures Valid() && View() == LineOps.Step(old(View()), LineOps.End)
    {
      hide FoldsOk;
      pos := len;
    }

    // ---- Deleting ----------------------------------------------------------------------------

    /** Removes n bytes at a position and leaves the cursor there. */
    method RemoveRange(at: nat, n: nat)
      requires Valid() && at + n <= len
      modifies this, buf, folds, folds.start, folds.end
      ensures Valid() && history == old(history) && buf == old(buf) && buflen == old(buflen)
      ensures View() == LineOps.Cut(old(View()), at, n)
    {
      hide Splice, FoldsOk, AfterDelete, Removed;
      ghost var l, b := View(), buf[..];
      LineOps.CutOk(l, at, n);
      folds.AdjustAfterDelete(at, n);
      assert b[..len] == l.text && b[at + n..len] == buf[at + n..len];
      RemoveBytes(b, len, at, n);
      Store(buf, at, buf[at + n..len]);
      pos, len := at, len - n;
      assert buf[..][..len] == buf[..len];
      buf[len] := NUL;
    }

    method Delete()
      requires Valid()
      modifies this, buf, folds, folds.start, folds.end
      ensures Valid() && history == old(history) && buflen == old(buflen)
      ensures View() == LineOps.Delete(old(View()))
    {
      hide Ok, LineOps.NextPos, LineOps.Cut;
      if len > 0 && pos < len {
        var n := NextLen(pos);
        RemoveRange(pos, n);
      }
    }

    method Backspace()
      requires Valid()
      modifies this, buf, folds, folds.start, folds.end
      ensures Valid() && history == old(history) && buflen == old(buflen)
      ensures View() == LineOps.Backspace(old(View()))
    {
      hide Ok, LineOps.PrevPos, LineOps.Cut;
      if pos > 0 && len > 0 {
        var n := PrevLen(pos);
        RemoveRange(pos - n, n);
      }
    }

    method SkipBack(p: nat, spaces: bool) returns (q: nat)
      requires Valid() && p <= len
      ensures q == LineOps.SkipBack(View(), p, spaces)
    {
      hide Ok, LineOps.PrevPos;
      q := p;
      while q > 0 && (buf[q - 1] == SPACE) == spaces
        invariant q <= len && LineOps.SkipBack(View(), p, spaces) == LineOps.SkipBack(View(), q, spaces)
        decreases q
      {
        var n := PrevLen(q);
        q := q - n;
      }
    }

    method DeletePrevWord()
      requires Valid()
      modifies this, buf, folds, folds.start, folds.end
      ensures Valid() && history == old(history) && buflen == old(buflen)
      ensures View() == LineOps.DeletePrevWord(old(View()))
    {
      hide Ok, LineOps.SkipBack, LineOps.Cut;
      var q := SkipBack(pos, true);
      q := SkipBack(q, false);
      RemoveRange(q, pos - q);
    }

    method KillEnd()
      requires Valid()
      modifies this, buf, folds, folds.start, folds.end
      ensures Valid() && history == old(history) && buflen == old(buflen)
      ensures View() == LineOps.KillEnd(old(View()))
    {
      hide Ok, LineOps.KillEnd, LineOps.Cut;
      LineOps.KillEndIsCut(View());
      RemoveRange(pos, len - pos);
    }

    method KillLine()
      requires Valid()
      modifies this, buf, folds, folds.start, folds.end
      ensures Valid() && history == old(history) && buflen == old(buflen)
      ensures View() == LineOps.KillLine(old(View()))
    {
      buf[0] := NUL;
      pos, len := 0, 0;
      folds.Clear();
    }

    /** Exchanges the clusters around the cursor. */
    method Swap()
      requires Valid()
      modifies this, buf, folds, folds.start, folds.end
      ensures Valid() && history == old(history) && buflen == old(buflen)
      ensures View() == LineOps.Swap(old(View()))
    {
      hide Splice, Ok, LineOps.PrevPos, LineOps.NextPos, LineOps.Overlaps;
      if pos > 0 && pos < len {
        var prev := PrevLen(pos);
        var curr := NextLen(pos);
        var start := pos - prev;
        if prev > LineOps.SWAP_MAX || curr > LineOps.SWAP_MAX {
          return;
        }
        var overlaps := folds.OverlapsRange(start, start + (prev + curr));
        if overlaps {
          return;
        }
        LineOps.SwapOk(View());
        Exchange(start, pos + curr);
      }
    }

    /** Exchanges the bytes before the cursor from s on with those after it up to e. */
    method Exchange(s: nat, e: nat)
      requires Valid() && s <= pos <= e <= len
      requires Ok(View().(text := Exchanged(View().text, s, pos, e), pos := e))
      modifies this, buf
      ensures Valid() && history == old(history) && buflen == old(buflen) && folds.View() == old(folds.View())
      ensures View() == old(View()).(text := Exchanged(old(View()).text, s, old(pos), e), pos := e)
    {
      hide Splice, Ok, Exchanged;
      ghost var b := buf[..];
      assert b[..len] == View().text;
      SwapBytes(b, s, pos, e);
      ExchangedFront(b, len, s, pos, e);
      var tmp := buf[pos..e];
      assert tmp == b[pos..e] && buf[s..pos] == b[s..pos];
      Store(buf, s + (e - pos), buf[s..pos]);
      Store(buf, s, tmp);
      EndKept(b, s, pos, e, len);
      pos := e;
      assert buf[..][..len] == buf[..len] && buf[..][len] == buf[len];
    }

    // ---- History -----------------------------------------------------------------------------

    /** Shows the previous or next entry, cut to what the buffer can hold. */
    method HistoryMove(back: bool)
      requires Valid()
      modifies this, buf, folds, folds.start, folds.end
      ensures Valid()
      ensures !CanMove(old(history), back) ==> buflen == old(buflen)
      ensures |old(history).entries| <= 1 ==> history == old(history) && View() == old(View())
      ensures |old(history).entries| > 1 && !CanMove(old(history), back) ==>
                history == Stored(old(history), old(View()).text) && View() == old(View())
      ensures CanMove(old(history), back) ==>
                history == Moved(old(history), old(View()).text, back) &&
                buflen == GrownTo(old(buflen), |Entry(history)|, buflenMax) &&
                View() == LineOps.Recall(old(View()), Fitting(Entry(history), old(Limit()), old(buflen)))
    {
      hide Ok, LineOps.Recall, CString, LineOps.HistoryFold;
      if |history.entries| > 1 {
        var h, n := history, |history.entries|;
        history := Stored(h, buf[..len]);
        if !CanMove(h, back) {
          return;
        }
        history := Moved(h, buf[..len], back);
        ShowEntry(Entry(history));
      }
    }

    method ShowEntry(entry: seq<Byte>)
      requires Valid()
      modifies this, buf, folds, folds.start, folds.end
      ensures Valid() && history == old(history) && buflen == GrownTo(old(buflen), |entry|, buflenMax)
      ensures View() == LineOps.Recall(old(View()), Fitting(entry, old(Limit()), old(buflen)))
    {
      hide Ok, LineOps.HistoryFold, GrownTo;
      var n := |entry|;
      var ok := Grow(n);
      if !ok && n > buflen {
        n := buflen;
      }
      var text := entry[..n];
      assert text == Fitting(entry, old(Limit()), old(buflen));
      ghost var l := View();
      LineOps.RecallOk(l, text);
      SetText(text);
      if n > 0 && !masked && NEWLINE in text {
        var f := BuildHistoryFold(text);
        OneFold(f);
        folds.Add(f.start, f.end);
      }
      assert Line(buf[..len], pos, folds.View(), masked) == LineOps.Recall(l, text);
    }

    /** What a key does: the whole state afterwards is that of the session. */
    method Perform(act: Act)
      requires Valid() && IsAct(act)
      modifies this, buf, folds, folds.start, folds.end
      ensures Valid() && State() == Performed(old(State()), act)
    {
      hide Ok, FoldsOk, LineOps.Insert, LineOps.Paste, LineOps.MoveLeft, LineOps.MoveRight, LineOps.Delete,
           LineOps.Backspace, LineOps.DeletePrevWord, LineOps.Swap, LineOps.KillLine, LineOps.KillEnd,
           LineOps.Recall, GrownTo, CString;
      match act {
        case Move(back) => HistoryMove(back);
        case Edit(op) => PerformEdit(op);
      }
    }

    method PerformEdit(op: LineOps.Op)
      requires Valid() && !op.FromHistory?
      modifies this, buf, folds, folds.start, folds.end
      ensures Valid() && State() == Edited(old(State()), op)
    {
      hide Ok, FoldsOk, LineOps.Step, GrownTo;
      if op.Type? || op.PasteText? {
        PerformText(op);
      } else if op.Left? || op.Right? || op.Home? || op.End? {
        PerformCursor(op);
      } else {
        PerformChange(op);
      }
    }

    method PerformText(op: LineOps.Op)
      requires Valid() && (op.Type? || op.PasteText?)
      modifies this, buf, folds, folds.start, folds.end
      ensures Valid() && State() == Edited(old(State()), op)
    {
      hide Ok, FoldsOk, LineOps.Insert, LineOps.Paste, GrownTo;
      match op {
        case Type(c) => var _ := Insert(c);
        case PasteText(c) => var _ := Paste(c);
      }
    }

    method PerformCursor(op: LineOps.Op)
      requires Valid() && (op.Left? || op.Right? || op.Home? || op.End?)
      modifies `pos
      ensures Valid() && View() == LineOps.Step(old(View()), op)
    {
      hide Ok, FoldsOk, LineOps.MoveLeft, LineOps.MoveRight;
      match op {
        case Left => MoveLeft();
        case Right => MoveRight();
        case Home => MoveHome();
        case End => MoveEnd();
      }
    }

    method PerformChange(op: LineOps.Op)
      requires Valid()
      requires op.Del? || op.Back? || op.BackWord? || op.Transpose? || op.Clear? || op.ClearToEnd?
      modifies this, buf, folds, folds.start, folds.end
      ensures Valid() && history == old(history) && buflen == old(buflen)
      ensures View() == LineOps.Step(old(View()), op)
    {
      hide Ok, FoldsOk, LineOps.Delete, LineOps.Backspace, LineOps.DeletePrevWord, LineOps.Swap, LineOps.KillLine,
           LineOps.KillEnd;
      match op {
        case Del => Delete();
        case Back => Backspace();
        case BackWord => DeletePrevWord();
        case Transpose => Swap();
        case Clear => KillLine();
        case ClearToEnd => KillEnd();
      }
    }

    /** Puts an unfolded text in the buffer, with the cursor at its end. */
    method SetText(text: seq<Byte>)
      requires Valid() && |text| <= buflen
      modifies this, buf, folds, folds.start, folds.end
      ensures Valid() && history == old(history) && buflen == old(buflen) && View() == Line(text, |text|, [], masked)
    {
      hide Splice;
      SpliceParts(buf[..], 0, text);
      Store(buf, 0, text);
      assert buf[..][0..|text|] == buf[..|text|];
      buf[|text|] := NUL;
      pos, len := |text|, |text|;
      folds.Clear();
    }
  }

  lemma OneFold(f: Fold)
    requires f.start < f.end
    ensures FoldAdd([], f.start, f.end) == [f]
  {
  }

  lemma EndKept(b: seq<Byte>, s: nat, p: nat, e: nat, len: nat)
    requires s <= p <= e <= len < |b|
    ensures Exchanged(b, s, p, e)[len] == b[len]
  {
  }

  method BuildHistoryFold(text: seq<Byte>) returns (f: Fold)
    requires text != []
    ensures f == LineOps.HistoryFold(text)
  {
    hide LineOps.ContextAfter, LineOps.ContextBefore;
    if |text| <= 2 * LineOps.CONTEXT {
      return Fold(0, |text|);
    }
    var start := ContextFront(text);
    var end := ContextBack(text);
    f := if start >= end then Fold(0, |text|) else Fold(start, end);
  }

  /** Where the context before the fold ends; at the start if there is a newline in it. */
  method ContextFront(text: seq<Byte>) returns (start: nat)
    ensures var a := LineOps.ContextAfter(text, LineOps.Context(0, false), LineOps.CONTEXT);
            start == if a.newline then 0 else a.pos
  {
    hide NextEnd;
    var p: nat, chars: nat, nl := 0, 0, false;
    while p < |text| && chars < LineOps.CONTEXT
      invariant p <= |text| && chars <= LineOps.CONTEXT
      invariant LineOps.ContextAfter(text, LineOps.Context(0, false), LineOps.CONTEXT) ==
                LineOps.ContextAfter(text, LineOps.Context(p, nl), LineOps.CONTEXT - chars)
      decreases LineOps.CONTEXT - chars
    {
      var n := NextCharLen(text, p);
      nl := nl || text[p] == NEWLINE;
      p, chars := p + n, chars + 1;
    }
    start := if nl then 0 else p;
  }

  method ContextBack(text: seq<Byte>) returns (end: nat)
    ensures var b := LineOps.ContextBefore(text, LineOps.Context(|text|, false), LineOps.CONTEXT);
            end == if b.newline then |text| else b.pos
  {
    hide PrevStart;
    var p: nat, chars: nat, nl := |text|, 0, false;
    while p > 0 && chars < LineOps.CONTEXT
      invariant p <= |text| && chars <= LineOps.CONTEXT
      invariant LineOps.ContextBefore(text, LineOps.Context(|text|, false), LineOps.CONTEXT) ==
                LineOps.ContextBefore(text, LineOps.Context(p, nl), LineOps.CONTEXT - chars)
      decreases LineOps.CONTEXT - chars
    {
      var n := PrevCharLen(text, p);
      p := p - n;
      nl := nl || text[p] == NEWLINE;
      chars := chars + 1;
    }
    end := if nl then |text| else p;
  }
}
