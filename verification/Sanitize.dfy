/**
 What the line editor shows instead of the bytes it edits: control characters become visible
 escapes, everything else is copied.
 */
module Sanitize {
  import opened Utf8

  const CARET: Byte := 0x5E
  const BACKSLASH: Byte := 0x5C
  const QUESTION: Byte := 0x3F
  const LOWER_X: Byte := 0x78

  predicate IsControl(cp: nat) {
    cp < 0x20 || cp == 0x7F || 0x80 <= cp <= 0x9F
  }

  function HexDigit(d: nat): (b: Byte)
    requires d < 16
    ensures 0x30 <= b < 0x47
  {
    if d < 10 then 0x30 + d else 0x41 + d - 10
  }

  /** A backslash, an x and two upper-case hexadecimal digits. */
  function Escape(cp: nat): (s: seq<Byte>)
    requires IsControl(cp)
    ensures |s| == 4
  {
    [BACKSLASH, LOWER_X, HexDigit(cp / 16), HexDigit(cp % 16)]
  }

  /** What the first character of a non-empty text is shown as. */
  function Shown(s: seq<Byte>): (r: seq<Byte>)
    requires s != []
    ensures r != []
  {
    if s[0] < 0x20 then [CARET, s[0] + 0x40]
    else if s[0] == 0x7F then [CARET, QUESTION]
    else if IsControl(Decode(s).cp) then Escape(Decode(s).cp)
    else s[..Decode(s).len]
  }

  function Sanitized(s: seq<Byte>): seq<Byte> {
    if s == [] then [] else Shown(s) + Sanitized(s[Decode(s).len..])
  }

  /** No character of the text, read in order, is a control character. */
  predicate IsClean(s: seq<Byte>) {
    s == [] || (!IsControl(Decode(s).cp) && IsClean(s[Decode(s).len..]))
  }

  // ---- The output is clean, and clean text is left alone ---------------------------------------

  /** Bytes that read as themselves: printable ASCII. */
  predicate IsPlain(s: seq<Byte>) {
    forall i :: 0 <= i < |s| ==> 0x20 <= s[i] < 0x7F
  }

  lemma {:induction false} PlainThenClean(s: seq<Byte>, t: seq<Byte>)
    requires IsPlain(s) && IsClean(t)
    ensures IsClean(s + t)
    decreases |s|
  {
    hide Decode, IsControl;
    if s == [] {
      assert s + t == t;
    } else {
      PlainThenClean(s[1..], t);
      assert (s + t)[1..] == s[1..] + t && (s + t)[0] == s[0];
      PlainDecodes(s + t);
    }
  }

  lemma PlainDecodes(s: seq<Byte>)
    requires s != [] && 0x20 <= s[0] < 0x7F
    ensures Decode(s) == Char(s[0], 1) && !IsControl(s[0])
  {
  }

  /** Output that begins with a continuation byte begins with an input byte of that kind. */
  lemma ContComesFromInput(t: seq<Byte>)
    requires Sanitized(t) != [] && IsCont(Sanitized(t)[0])
    ensures t != [] && IsCont(t[0]) && Sanitized(t) == [t[0]] + Sanitized(t[1..])
  {
    hide Shown, Decode;
    SanitizedStep(t);
    assert Sanitized(t)[0] == Shown(t)[0];
    ContShown(t);
  }

  lemma ContShown(t: seq<Byte>)
    requires t != [] && IsCont(Shown(t)[0])
    ensures IsCont(t[0]) && Decode(t).len == 1 && Shown(t) == [t[0]]
  {
  }

  /** Output never completes a sequence that the input did not complete. */
  lemma {:induction false} ContsComeFromInput(t: seq<Byte>, n: nat)
    requires n <= |Sanitized(t)| && forall i :: 0 <= i < n ==> IsCont(Sanitized(t)[i])
    ensures n <= |t| && forall i :: 0 <= i < n ==> IsCont(t[i])
  {
    hide Shown;
    if n > 0 {
      ContComesFromInput(t);
      assert Sanitized(t)[1..] == Sanitized(t[1..]);
      ContsComeFromInput(t[1..], n - 1);
    }
  }

  lemma DecodeSingle(s: seq<Byte>)
    requires s != [] && Decode(s).len == 1
    ensures Decode(s).cp == s[0] && (Announced(s[0]) == 1 || !Continues(s, Announced(s[0])))
  {
  }

  lemma DecodeCopied(s: seq<Byte>, rest: seq<Byte>)
    requires s != [] && Decode(s).len > 1
    ensures Decode(s[..Decode(s).len] + rest) == Decode(s)
  {
  }

  /** A byte that stood alone in the input stands alone in the output. */
  lemma StaysSingle(s: seq<Byte>)
    requires s != [] && Decode(s).len == 1
    ensures Decode([s[0]] + Sanitized(s[1..])) == Char(s[0], 1)
  {
    hide Sanitized;
    DecodeSingle(s);
    var n, t := Announced(s[0]), [s[0]] + Sanitized(s[1..]);
    if n > 1 && Continues(t, n) {
      forall i | 0 <= i < n - 1 ensures IsCont(Sanitized(s[1..])[i]) {
        assert t[i + 1] == Sanitized(s[1..])[i];
      }
      ContsComeFromInput(s[1..], n - 1);
    }
  }

  lemma {:induction false} OutputIsClean(s: seq<Byte>)
    ensures IsClean(Sanitized(s))
  {
    if s != [] {
      var c := Decode(s);
      var rest := Sanitized(s[c.len..]);
      OutputIsClean(s[c.len..]);
      if s[0] < 0x20 || s[0] == 0x7F || IsControl(c.cp) {
        PlainThenClean(Shown(s), rest);
      } else if c.len == 1 {
        StaysSingle(s);
        assert Shown(s) == [s[0]];
        assert ([s[0]] + rest)[1..] == rest;
      } else {
        DecodeCopied(s, rest);
        assert (s[..c.len] + rest)[c.len..] == rest;
      }
    }
  }

  lemma {:induction false} CleanIsKept(s: seq<Byte>)
    requires IsClean(s)
    ensures Sanitized(s) == s
  {
    if s != [] {
      CleanIsKept(s[Decode(s).len..]);
      assert s == s[..Decode(s).len] + s[Decode(s).len..];
    }
  }

  /** Exactly the clean texts are shown as they are. */
  lemma {:induction false} FixedPoints(s: seq<Byte>)
    ensures Sanitized(s) == s <==> IsClean(s)
  {
    OutputIsClean(s);
    if IsClean(s) {
      CleanIsKept(s);
    }
  }

  lemma Idempotent(s: seq<Byte>)
    ensures Sanitized(Sanitized(s)) == Sanitized(s)
  {
    OutputIsClean(s);
    CleanIsKept(Sanitized(s));
  }

  /** No byte of the output is a control byte. */
  lemma {:induction false} NoControlBytes(s: seq<Byte>, i: nat)
    requires i < |Sanitized(s)|
    ensures 0x20 <= Sanitized(s)[i] && Sanitized(s)[i] != 0x7F
    decreases |s|
  {
    var n := |Shown(s)|;
    if i < n {
      ShownBytes(s, i);
    } else {
      NoControlBytes(s[Decode(s).len..], i - n);
    }
  }

  lemma ShownBytes(s: seq<Byte>, i: nat)
    requires s != [] && i < |Shown(s)|
    ensures 0x20 <= Shown(s)[i] && Shown(s)[i] != 0x7F
  {
  }

  // ---- Splitting at a character boundary -----------------------------------------------------------

  /** Position p is where some character begins when the text is read from its start. */
  predicate IsBoundary(s: seq<Byte>, p: nat) {
    p == 0 || (s != [] && Decode(s).len <= p && IsBoundary(s[Decode(s).len..], p - Decode(s).len))
  }

  lemma DecodeCut(s: seq<Byte>, p: nat)
    requires s != [] && Decode(s).len <= p <= |s|
    ensures Decode(s[..p]) == Decode(s)
  {
  }

  lemma SanitizedStep(s: seq<Byte>)
    requires s != []
    ensures Sanitized(s) == Shown(s) + Sanitized(s[Decode(s).len..])
  {
  }

  lemma NoneShown(s: seq<Byte>)
    requires s == []
    ensures Sanitized(s) == []
  {
  }

  lemma ShownCut(s: seq<Byte>, p: nat)
    requires s != [] && Decode(s).len <= p <= |s| && p > 0
    ensures Shown(s[..p]) == Shown(s)
  {
    hide Decode;
    DecodeCut(s, p);
    assert s[..p][..Decode(s).len] == s[..Decode(s).len];
  }

  lemma {:induction false} SplitsAtBoundary(s: seq<Byte>, p: nat)
    requires p <= |s| && IsBoundary(s, p)
    ensures Sanitized(s) == Sanitized(s[..p]) + Sanitized(s[p..])
    decreases |s|
  {
    hide Decode, Shown, Sanitized;
    if p > 0 {
      var n := Decode(s).len;
      DecodeCut(s, p);
      ShownCut(s, p);
      SanitizedStep(s);
      SanitizedStep(s[..p]);
      SplitsAtBoundary(s[n..], p - n);
      assert s[..p][n..] == s[n..][..p - n] && s[n..][p - n..] == s[p..];
    } else {
      assert s[..0] == [] && s[0..] == s;
      assert Sanitized(s[..0]) == [] by { NoneShown(s[..0]); }
    }
  }

  // ---- Two passes -------------------------------------------------------------------------------

  function Splice(base: seq<Byte>, at: nat, w: seq<Byte>): (r: seq<Byte>)
    requires at + |w| <= |base|
    ensures |r| == |base|
  {
    base[..at] + w + base[at + |w|..]
  }

  lemma SpliceMore(base: seq<Byte>, at: nat, w: seq<Byte>, r: seq<Byte>)
    requires at + |w| + |r| <= |base|
    ensures Splice(Splice(base, at, w), at + |w|, r) == Splice(base, at, w + r)
  {
  }

  /** Writes the shown form of s into out from index at on; with no out it only measures it. */
  method SanitizeForDisplay(s: seq<Byte>, out: array?<Byte>, at: nat) returns (o: nat)
    requires out != null ==> at + |Sanitized(s)| <= out.Length
    modifies out
    ensures o == |Sanitized(s)|
    ensures out != null ==> out[..] == Splice(old(out[..]), at, Sanitized(s))
  {
    hide *;
    var i := 0;
    o := 0;
    WrittenNone(s);
    if out != null {
      assert out[..] == Splice(old(out[..]), at, Sanitized(s)[..0]) by { NoSplice(out[..], at, Sanitized(s)[..0]); }
    }
    while i < |s|
      invariant i <= |s| && o <= |Sanitized(s)| && Written(s, i, o)
      invariant out != null ==> out[..] == Splice(old(out[..]), at, Sanitized(s)[..o])
      decreases |s| - i
    {
      var r, n := ShowChar(s, i);
      WrittenNext(s, i, o);
      if out != null {
        Store(out, at + o, r);
        SpliceMore(old(out[..]), at, Sanitized(s)[..o], r);
        assert Sanitized(s)[..o] + r == Sanitized(s)[..o + |r|];
      }
      i, o := i + n, o + |r|;
    }
    WrittenAll(s, o);
    assert Sanitized(s)[..o] == Sanitized(s);
  }

  /** One character of the text: what it is shown as and how many bytes it takes up. */
  method ShowChar(s: seq<Byte>, i: nat) returns (r: seq<Byte>, n: nat)
    requires i < |s|
    ensures r == Shown(s[i..]) && n == Decode(s[i..]).len && n > 0
  {
    hide Escape, Decode;
    var c := s[i];
    if c < 0x20 || c == 0x7F {
      PlainControl(s[i..]);
      return [CARET, if c == 0x7F then QUESTION else c + 0x40], 1;
    }
    var d := Decode(s[i..]);
    n := d.len;
    r := if IsControl(d.cp) then Escape(d.cp) else s[i..i + d.len];
    assert s[i..][..d.len] == s[i..i + d.len];
  }

  lemma SpliceIs(base: seq<Byte>, at: nat, w: seq<Byte>)
    requires at + |w| <= |base|
    ensures Splice(base, at, w) == base[..at] + w + base[at + |w|..]
  {
  }

  lemma NoSplice(base: seq<Byte>, at: nat, w: seq<Byte>)
    requires w == [] && at <= |base|
    ensures Splice(base, at, w) == base
  {
  }

  /** The first o bytes of the shown form show the first i bytes of the text. */
  ghost predicate Written(s: seq<Byte>, i: nat, o: nat) {
    i <= |s| && o <= |Sanitized(s)| && Sanitized(s)[o..] == Sanitized(s[i..])
  }

  lemma WrittenNone(s: seq<Byte>)
    ensures Written(s, 0, 0)
  {
    assert s[0..] == s && Sanitized(s)[0..] == Sanitized(s);
  }

  lemma PlainControl(s: seq<Byte>)
    requires s != [] && (s[0] < 0x20 || s[0] == 0x7F)
    ensures Decode(s).len == 1
  {
  }

  lemma WrittenNext(s: seq<Byte>, i: nat, o: nat)
    requires Written(s, i, o) && i < |s|
    ensures i + Decode(s[i..]).len <= |s|
    ensures o + |Shown(s[i..])| <= |Sanitized(s)| && Sanitized(s)[o..o + |Shown(s[i..])|] == Shown(s[i..])
    ensures Written(s, i + Decode(s[i..]).len, o + |Shown(s[i..])|)
  {
    hide Shown, Decode, Sanitized;
    var n, k := Decode(s[i..]).len, |Shown(s[i..])|;
    SanitizedStep(s[i..]);
    assert s[i..][n..] == s[i + n..];
    assert Sanitized(s)[o..] == Shown(s[i..]) + Sanitized(s[i + n..]);
    assert Sanitized(s)[o..][k..] == Sanitized(s)[o + k..];
    assert Sanitized(s)[o..][..k] == Sanitized(s)[o..o + k];
  }

  lemma WrittenAll(s: seq<Byte>, o: nat)
    requires Written(s, |s|, o)
    ensures o == |Sanitized(s)|
  {
    assert s[|s|..] == [];
  }

  method Store(out: array<Byte>, at: nat, r: seq<Byte>)
    requires at + |r| <= out.Length
    modifies out
    ensures out[..] == Splice(old(out[..]), at, r)
  {
    hide Splice;
    for k := 0 to |r|
      invariant out[..] == old(out[..at]) + r[..k] + old(out[at + k..])
    {
      out[at + k] := r[k];
    }
    SpliceIs(old(out[..]), at, r);
    assert r[..|r|] == r;
    assert old(out[..])[..at] == old(out[..at]) && old(out[..])[at + |r|..] == old(out[at + |r|..]);
  }

  // ---- What control characters look like -------------------------------------------------------------

  /** A control byte is shown as a caret and the letter 64 places up, a delete byte as a caret and a question mark. */
  lemma ControlShown(c: Byte, rest: seq<Byte>)
    requires c < 0x20 || c == 0x7F
    ensures Sanitized([c] + rest) == [0x5E, if c == 0x7F then 0x3F else c + 0x40] + Sanitized(rest)
  {
    var s: seq<Byte> := [c] + rest;
    assert s[0] == c && s[1..] == rest;
    assert Decode(s) == Char(c, 1);
    hide Sanitized, Decode;
    SanitizedStep(s);
  }

  function HexValue(b: Byte): nat {
    if 0x30 <= b <= 0x39 then b - 0x30 else if 0x41 <= b <= 0x46 then b - 0x41 + 10 else 16
  }

  /** A control character of two bytes is shown as an escape that writes its number in hexadecimal. */
  lemma HighControlShown(b: Byte, rest: seq<Byte>) returns (high: Byte, low: Byte)
    requires 0x80 <= b <= 0x9F
    ensures Sanitized([0xC2, b] + rest) == [0x5C, 0x78, high, low] + Sanitized(rest)
    ensures HexValue(high) < 16 && HexValue(low) < 16 && HexValue(high) * 16 + HexValue(low) == b
  {
    var s: seq<Byte> := [0xC2, b] + rest;
    assert s[0] == 0xC2 && s[1] == b && s[2..] == rest;
    assert Decode(s) == Char(b, 2);
    high, low := HexDigit(b / 16), HexDigit(b % 16);
    hide Sanitized, Decode;
    SanitizedStep(s);
  }
}
