/**
 Log messages are rewritten in place before they are dispatched: every character in its shortest
 UTF-8 form, control characters other than tab, line feed and carriage return as question marks.
 */
module LogSanitizer {
  import opened Options
  import opened Utf8

  const MAX_POINT := 0x10FFFF

  /** Length the first byte announces, or 0 for a byte that starts no character. */
  function Lead(b: Byte): (n: nat)
    ensures n <= 4
  {
    if b < 0x80 then 1
    else if b < 0xC0 then 0
    else if b < 0xE0 then 2
    else if b < 0xF0 then 3
    else if b < 0xF8 then 4
    else 0
  }

  /** The first character; only the first byte and the number of bytes are checked. */
  function Read(s: seq<Byte>): (c: Option<Char>)
    ensures c.Some? ==> 0 < c.value.len <= 4 && c.value.len <= |s|
  {
    if s == [] || Lead(s[0]) == 0 || |s| < Lead(s[0]) then None
    else
      match Lead(s[0])
      case 1 => Some(Char(s[0], 1))
      case 2 => Some(Char((s[0] % 0x20) * 0x40 + Low(s[1]), 2))
      case 3 => Some(Char((s[0] % 0x10) * 0x1000 + Low(s[1]) * 0x40 + Low(s[2]), 3))
      case _ => Some(Char((s[0] % 8) * 0x40000 + Low(s[1]) * 0x1000 + Low(s[2]) * 0x40 + Low(s[3]), 4))
  }

  function Size(cp: nat): (n: nat)
    ensures 1 <= n <= 4
  {
    if cp <= 0x7F then 1 else if cp <= 0x7FF then 2 else if cp <= 0xFFFF then 3 else 4
  }

  /** The shortest encoding of a code point, section 3 of RFC 3629. */
  function Encode(cp: nat): (s: seq<Byte>)
    requires cp <= MAX_POINT
    ensures |s| == Size(cp)
  {
    if cp <= 0x7F then [cp]
    else if cp <= 0x7FF then [0xC0 + cp / 0x40, 0x80 + cp % 0x40]
    else if cp <= 0xFFFF then [0xE0 + cp / 0x1000, 0x80 + cp / 0x40 % 0x40, 0x80 + cp % 0x40]
    else [0xF0 + cp / 0x40000, 0x80 + cp / 0x1000 % 0x40, 0x80 + cp / 0x40 % 0x40, 0x80 + cp % 0x40]
  }

  /** What a code point is replaced with. */
  function Replacement(cp: nat): (r: nat)
    ensures r == cp || r == 0x3F
  {
    if cp == 9 || cp == 10 || cp == 13 then cp
    else if cp < 0x20 || cp == 0x7F || 0x80 <= cp <= 0x9F then 0x3F
    else cp
  }

  /** The rewritten text, or none for bytes that cannot be read or a code point beyond Unicode. */
  function Canonical(s: seq<Byte>): Option<seq<Byte>> {
    if s == [] then Some([])
    else
      match Read(s)
      case None => None
      case Some(c) =>
        if Replacement(c.cp) > MAX_POINT then None
        else
          match Canonical(s[c.len..])
          case None => None
          case Some(rest) => Some(Encode(Replacement(c.cp)) + rest)
  }

  // ---- Reading and writing characters ------------------------------------------------------------

  lemma Strip(q: nat, m: nat)
    requires m < 0x40
    ensures q < 0x20 ==> (0xC0 + q) % 0x20 == q
    ensures q < 0x10 ==> (0xE0 + q) % 0x10 == q
    ensures q < 8 ==> (0xF0 + q) % 8 == q
    ensures (0x80 + m) % 0x40 == m
  {
  }

  lemma ReadTwo(q: nat, m: nat, rest: seq<Byte>)
    requires q < 0x20 && m < 0x40
    ensures Read([0xC0 + q, 0x80 + m] + rest) == Some(Char(q * 0x40 + m, 2))
  {
    var s: seq<Byte> := [0xC0 + q, 0x80 + m] + rest;
    assert s[0] == 0xC0 + q && s[1] == 0x80 + m;
    Strip(q, m);
  }

  lemma ReadThree(q: nat, n: nat, m: nat, rest: seq<Byte>)
    requires q < 0x10 && n < 0x40 && m < 0x40
    ensures Read([0xE0 + q, 0x80 + n, 0x80 + m] + rest) == Some(Char(q * 0x1000 + n * 0x40 + m, 3))
  {
    var s: seq<Byte> := [0xE0 + q, 0x80 + n, 0x80 + m] + rest;
    assert s[0] == 0xE0 + q && s[1] == 0x80 + n && s[2] == 0x80 + m;
    Strip(q, m);
    Strip(q, n);
  }

  lemma ReadFour(q: nat, p: nat, n: nat, m: nat, rest: seq<Byte>)
    requires q < 8 && p < 0x40 && n < 0x40 && m < 0x40
    ensures Read([0xF0 + q, 0x80 + p, 0x80 + n, 0x80 + m] + rest) ==
            Some(Char(q * 0x40000 + p * 0x1000 + n * 0x40 + m, 4))
  {
    var s: seq<Byte> := [0xF0 + q, 0x80 + p, 0x80 + n, 0x80 + m] + rest;
    assert s[0] == 0xF0 + q && s[1] == 0x80 + p && s[2] == 0x80 + n && s[3] == 0x80 + m;
    Strip(q, m);
    Strip(q, n);
    Strip(q, p);
  }

  lemma ReadEncoded(cp: nat, rest: seq<Byte>)
    requires cp <= MAX_POINT
    ensures Read(Encode(cp) + rest) == Some(Char(cp, Size(cp)))
  {
    hide Read;
    Parts(cp);
    if cp <= 0x7F {
      ReadOne(cp, rest);
    } else if cp <= 0x7FF {
      ReadTwo(cp / 0x40, cp % 0x40, rest);
    } else if cp <= 0xFFFF {
      ReadThree(cp / 0x1000, cp / 0x40 % 0x40, cp % 0x40, rest);
    } else {
      ReadFour(cp / 0x40000, cp / 0x1000 % 0x40, cp / 0x40 % 0x40, cp % 0x40, rest);
    }
  }

  lemma ReadOne(cp: nat, rest: seq<Byte>)
    requires cp <= 0x7F
    ensures Read([cp] + rest) == Some(Char(cp, 1))
  {
    var s: seq<Byte> := [cp] + rest;
    assert s[0] == cp;
  }

  /** A number put together again from its groups of six bits. */
  lemma Parts(cp: nat)
    ensures cp / 0x40 * 0x40 + cp % 0x40 == cp
    ensures cp / 0x1000 * 0x1000 + cp / 0x40 % 0x40 * 0x40 + cp % 0x40 == cp
    ensures cp / 0x40000 * 0x40000 + cp / 0x1000 % 0x40 * 0x1000 + cp / 0x40 % 0x40 * 0x40 + cp % 0x40 == cp
  {
    assert cp / 0x40 / 0x40 == cp / 0x1000 && cp / 0x1000 / 0x40 == cp / 0x40000;
  }

  /** A replaced code point never takes more bytes than were read for it. */
  lemma FitsInPlace(s: seq<Byte>)
    requires Read(s).Some?
    ensures Size(Replacement(Read(s).value.cp)) <= Read(s).value.len
  {
  }

  // ---- What the result says ----------------------------------------------------------------------

  /** The code points of a text, if it can be read to its end. */
  function Points(s: seq<Byte>): Option<seq<nat>> {
    if s == [] then Some([])
    else
      match Read(s)
      case None => None
      case Some(c) =>
        match Points(s[c.len..])
        case None => None
        case Some(rest) => Some([c.cp] + rest)
  }

  function Replaced(points: seq<nat>): (r: seq<nat>)
    ensures |r| == |points|
  {
    seq(|points|, i requires 0 <= i < |points| => Replacement(points[i]))
  }

  ghost predicate InUnicode(points: seq<nat>) {
    forall i :: 0 <= i < |points| ==> points[i] <= MAX_POINT
  }

  /** Rewriting succeeds exactly on texts that can be read and stay within Unicode. */
  lemma {:induction false} SucceedsExactly(s: seq<Byte>)
    ensures Canonical(s).Some? <==> Points(s).Some? && InUnicode(Points(s).value)
  {
    hide Read, Encode;
    if s != [] && Read(s).Some? {
      var c := Read(s).value;
      SucceedsExactly(s[c.len..]);
      if Points(s).Some? {
        var rest := Points(s[c.len..]).value;
        assert Points(s).value == [c.cp] + rest;
        assert Points(s).value[0] == c.cp;
        forall i | 0 <= i < |rest| ensures rest[i] == Points(s).value[i + 1] {}
      }
    }
  }

  /** Code points one after the other, each in its shortest form. */
  ghost function EncodeAll(points: seq<nat>): seq<Byte>
    requires InUnicode(points)
  {
    if points == [] then [] else Encode(points[0]) + EncodeAll(points[1..])
  }

  /** The result is the replaced code points in their shortest forms, and reads as them. */
  lemma {:induction false} ReadsAsReplaced(s: seq<Byte>)
    requires Canonical(s).Some?
    ensures Points(s).Some? && Points(Canonical(s).value) == Some(Replaced(Points(s).value))
    ensures InUnicode(Replaced(Points(s).value))
    ensures Canonical(s).value == EncodeAll(Replaced(Points(s).value))
    ensures |Canonical(s).value| <= |s|
  {
    hide Read, Encode, Replacement, EncodeAll;
    if s == [] {
      NothingEncoded();
    } else {
      var c := Read(s).value;
      var r := Replacement(c.cp);
      var rest := Canonical(s[c.len..]).value;
      ReadsAsReplaced(s[c.len..]);
      ReadEncoded(r, rest);
      FitsInPlace(s);
      assert (Encode(r) + rest)[Size(r)..] == rest;
      var later := Replaced(Points(s[c.len..]).value);
      assert Replaced(Points(s).value) == [r] + later;
      EncodeFirst(r, later);
    }
  }

  lemma NothingEncoded()
    ensures EncodeAll([]) == []
  {
  }

  lemma EncodeFirst(cp: nat, later: seq<nat>)
    requires cp <= MAX_POINT && InUnicode(later)
    ensures InUnicode([cp] + later) && EncodeAll([cp] + later) == Encode(cp) + EncodeAll(later)
  {
    hide Encode;
    assert ([cp] + later)[1..] == later;
  }

  /** A code point is never read from fewer bytes than its shortest form has. */
  lemma ReadAtLeast(s: seq<Byte>)
    requires Read(s).Some?
    ensures Size(Read(s).value.cp) <= Read(s).value.len
  {
  }

  /** No text that reads as the same code points is shorter. */
  lemma {:induction false} ShortestForm(t: seq<Byte>)
    requires Points(t).Some? && InUnicode(Points(t).value)
    ensures |EncodeAll(Points(t).value)| <= |t|
  {
    hide Read, Encode;
    if t != [] {
      var c := Read(t).value;
      var later := Points(t[c.len..]).value;
      assert Points(t).value == [c.cp] + later && Points(t).value[0] == c.cp;
      assert forall i :: 0 <= i < |later| ==> later[i] == Points(t).value[i + 1];
      EncodeFirst(c.cp, later);
      ShortestForm(t[c.len..]);
      ReadAtLeast(t);
    }
  }

  /** The result is as short as any text that reads as the replaced code points. */
  lemma ResultIsShortest(s: seq<Byte>, t: seq<Byte>)
    requires Canonical(s).Some? && Points(s).Some? && Points(t) == Some(Replaced(Points(s).value))
    ensures |Canonical(s).value| <= |t|
  {
    hide Canonical, Points, Replaced, EncodeAll;
    ReadsAsReplaced(s);
    ShortestForm(t);
  }

  /** Control characters other than tab, line feed and carriage return. */
  predicate IsUnwanted(cp: nat) {
    (cp < 0x20 || cp == 0x7F || 0x80 <= cp <= 0x9F) && cp != 9 && cp != 10 && cp != 13
  }

  /** Code point by code point: an unwanted one becomes a question mark, every other one stays. */
  lemma PointByPoint(s: seq<Byte>, i: nat)
    requires Canonical(s).Some? && Points(s).Some? && i < |Points(s).value|
    ensures var r := Points(Canonical(s).value);
            && r.Some? && |r.value| == |Points(s).value|
            && r.value[i] == if IsUnwanted(Points(s).value[i]) then 0x3F else Points(s).value[i]
  {
    hide Canonical, Points;
    ReadsAsReplaced(s);
  }

  /** A text is left as it is exactly when every character is in its shortest form and none is unwanted. */
  lemma UnchangedExactly(s: seq<Byte>)
    ensures Canonical(s) == Some(s) <==>
            Points(s).Some? && InUnicode(Points(s).value) && s == EncodeAll(Points(s).value) &&
            forall i :: 0 <= i < |Points(s).value| ==> !IsUnwanted(Points(s).value[i])
  {
    hide Canonical, Points, EncodeAll;
    SucceedsExactly(s);
    if Canonical(s).Some? {
      ReadsAsReplaced(s);
      var points := Points(s).value;
      if forall i :: 0 <= i < |points| ==> !IsUnwanted(points[i]) {
        assert Replaced(points) == points;
      }
      if Canonical(s) == Some(s) {
        assert points == Replaced(points);
        forall i | 0 <= i < |points| ensures !IsUnwanted(points[i]) {
          assert points[i] == Replacement(points[i]);
        }
      }
    }
  }

  /** The line editor's decoder reads the shortest forms as the same code points. */
  lemma EditorReadsEncoded(cp: nat, rest: seq<Byte>)
    requires cp <= MAX_POINT
    ensures Decode(Encode(cp) + rest) == Char(cp, Size(cp))
  {
    hide Decode;
    Parts(cp);
    if cp <= 0x7F {
      DecodeOne(cp, rest);
    } else if cp <= 0x7FF {
      DecodeTwo(cp / 0x40, cp % 0x40, rest);
    } else if cp <= 0xFFFF {
      DecodeThree(cp / 0x1000, cp / 0x40 % 0x40, cp % 0x40, rest);
    } else {
      DecodeFour(cp / 0x40000, cp / 0x1000 % 0x40, cp / 0x40 % 0x40, cp % 0x40, rest);
    }
  }

  lemma DecodeOne(cp: nat, rest: seq<Byte>)
    requires cp <= 0x7F
    ensures Decode([cp] + rest) == Char(cp, 1)
  {
    var s: seq<Byte> := [cp] + rest;
    assert s[0] == cp;
  }

  lemma DecodeTwo(q: nat, m: nat, rest: seq<Byte>)
    requires q < 0x20 && m < 0x40
    ensures Decode([0xC0 + q, 0x80 + m] + rest) == Char(q * 0x40 + m, 2)
  {
    var s: seq<Byte> := [0xC0 + q, 0x80 + m] + rest;
    assert s[0] == 0xC0 + q && s[1] == 0x80 + m;
    Strip(q, m);
  }

  lemma DecodeThree(q: nat, n: nat, m: nat, rest: seq<Byte>)
    requires q < 0x10 && n < 0x40 && m < 0x40
    ensures Decode([0xE0 + q, 0x80 + n, 0x80 + m] + rest) == Char(q * 0x1000 + n * 0x40 + m, 3)
  {
    var s: seq<Byte> := [0xE0 + q, 0x80 + n, 0x80 + m] + rest;
    assert s[0] == 0xE0 + q && s[1] == 0x80 + n && s[2] == 0x80 + m;
    Strip(q, m);
    Strip(q, n);
  }

  lemma DecodeFour(q: nat, p: nat, n: nat, m: nat, rest: seq<Byte>)
    requires q < 8 && p < 0x40 && n < 0x40 && m < 0x40
    ensures Decode([0xF0 + q, 0x80 + p, 0x80 + n, 0x80 + m] + rest) ==
            Char(q * 0x40000 + p * 0x1000 + n * 0x40 + m, 4)
  {
    var s: seq<Byte> := [0xF0 + q, 0x80 + p, 0x80 + n, 0x80 + m] + rest;
    assert s[0] == 0xF0 + q && s[1] == 0x80 + p && s[2] == 0x80 + n && s[3] == 0x80 + m;
    Strip(q, m);
    Strip(q, n);
    Strip(q, p);
  }

  /** No unwanted control character is left, however it was encoded. */
  lemma NoneLeft(s: seq<Byte>, i: nat)
    requires Canonical(s).Some? && Points(Canonical(s).value).Some? && i < |Points(Canonical(s).value).value|
    ensures !IsUnwanted(Points(Canonical(s).value).value[i])
  {
    hide Canonical, Points;
    ReadsAsReplaced(s);
  }

  /** Rewriting a second time changes nothing. */
  lemma {:induction false} SecondTimeSame(s: seq<Byte>)
    requires Canonical(s).Some?
    ensures Canonical(Canonical(s).value) == Canonical(s)
  {
    hide Read, Encode, Replacement;
    if s != [] {
      var c := Read(s).value;
      var r := Replacement(c.cp);
      var rest := Canonical(s[c.len..]).value;
      SecondTimeSame(s[c.len..]);
      ReadEncoded(r, rest);
      ReplacedOnce(c.cp);
      assert (Encode(r) + rest)[Size(r)..] == rest;
    }
  }

  lemma ReplacedOnce(cp: nat)
    ensures Replacement(Replacement(cp)) == Replacement(cp)
  {
  }

  // ---- In place ------------------------------------------------------------------------------------

  /** What is written so far and what is still to be read make up the whole result. */
  ghost predicate Progress(s: seq<Byte>, r: nat, written: seq<Byte>) {
    r <= |s| && Canonical(s) == match Canonical(s[r..]) { case Some(rest) => Some(written + rest) case None => None }
  }

  lemma ProgressStep(s: seq<Byte>, r: nat, written: seq<Byte>)
    requires Progress(s, r, written) && r < |s|
    ensures Read(s[r..]).None? ==> Canonical(s).None?
    ensures Read(s[r..]).Some? ==>
              var c := Read(s[r..]).value;
              if Replacement(c.cp) > MAX_POINT then Canonical(s).None?
              else r + c.len <= |s| && Progress(s, r + c.len, written + Encode(Replacement(c.cp)))
  {
    hide Read, Encode, Replacement;
    if Read(s[r..]).Some? && Replacement(Read(s[r..]).value.cp) <= MAX_POINT {
      var c := Read(s[r..]).value;
      assert s[r..][c.len..] == s[r + c.len..];
      if Canonical(s[r + c.len..]).Some? {
        var rest := Canonical(s[r + c.len..]).value;
        assert written + (Encode(Replacement(c.cp)) + rest) == written + Encode(Replacement(c.cp)) + rest;
      }
    }
  }

  /** Writes the character at w, where there is room before the next character to be read. */
  method Put(a: array<Byte>, w: nat, bytes: seq<Byte>)
    requires w + |bytes| <= a.Length
    modifies a
    ensures a[..w + |bytes|] == old(a[..w]) + bytes && a[w + |bytes|..] == old(a[w + |bytes|..])
  {
    for k := 0 to |bytes|
      invariant a[..w + k] == old(a[..w]) + bytes[..k] && a[w + k..] == old(a[w + k..])
    {
      a[w + k] := bytes[k];
    }
    assert bytes[..|bytes|] == bytes;
  }

  /** Rewrites the array in place; the first len bytes are the result.  Room is never short. */
  method SanitizeInPlace(a: array<Byte>) returns (ok: bool, len: nat)
    modifies a
    ensures ok == Canonical(old(a[..])).Some?
    ensures ok ==> len <= a.Length && Canonical(old(a[..])) == Some(a[..len])
  {
    hide Read, Encode, Replacement, Canonical, Size;
    ghost var s := a[..];
    var r: nat, w: nat := 0, 0;
    ProgressStart(s);
    assert a[..0] == [];
    while r < a.Length
      invariant w <= r <= a.Length && Progress(s, r, a[..w]) && a[r..] == s[r..]
      decreases a.Length - r
    {
      var c := Read(a[r..]);
      ProgressStep(s, r, a[..w]);
      if c.None? {
        return false, w;
      }
      var cp := Replacement(c.value.cp);
      if cp > MAX_POINT {
        return false, w;
      }
      var bytes := Encode(cp);
      FitsInPlace(a[r..]);
      ghost var next := r + c.value.len;
      SameRest(a[..], s, r, next);
      ghost var before := a[..];
      Put(a, w, bytes);
      SameRest(a[..], before, w + |bytes|, next);
      r, w := r + c.value.len, w + |bytes|;
    }
    ProgressDone(s, a[..w]);
    ok, len := true, w;
  }

  lemma SameRest(x: seq<Byte>, y: seq<Byte>, i: nat, j: nat)
    requires i <= j <= |x| == |y| && x[i..] == y[i..]
    ensures x[j..] == y[j..]
  {
    assert x[j..] == x[i..][j - i..] && y[j..] == y[i..][j - i..];
  }

  lemma ProgressStart(s: seq<Byte>)
    ensures Progress(s, 0, [])
  {
    assert s[0..] == s;
    if Canonical(s).Some? {
      assert [] + Canonical(s).value == Canonical(s).value;
    }
  }

  lemma ProgressDone(s: seq<Byte>, written: seq<Byte>)
    requires Progress(s, |s|, written)
    ensures Canonical(s) == Some(written)
  {
    assert s[|s|..] == [] && written + [] == written;
  }
}
