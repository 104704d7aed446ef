/**
 UTF-8 as the line editor sees it: decoding one character with a fallback for malformed bytes,
 and the length of the character cluster before or after a position.
 */
module Utf8 {

  type Byte = b: int | 0 <= b < 256

  datatype Char = Char(cp: nat, len: nat)

  predicate IsCont(b: Byte) {
    0x80 <= b < 0xC0
  }

  /** The sequence length a lead byte announces; 1 for anything that is no lead byte. */
  function Announced(b: Byte): (n: nat)
    ensures 1 <= n <= 4
  {
    if 0xC0 <= b < 0xE0 then 2 else if 0xE0 <= b < 0xF0 then 3 else if 0xF0 <= b < 0xF8 then 4 else 1
  }

  /** The low six bits. */
  function Low(b: Byte): nat {
    b % 0x40
  }

  predicate Continues(s: seq<Byte>, n: nat) {
    n <= |s| && forall i :: 1 <= i < n ==> IsCont(s[i])
  }

  /** The character at the start of the bytes: a malformed or cut sequence reads as its first byte. */
  function Decode(s: seq<Byte>): (c: Char)
    ensures c.len <= |s| && (s != [] ==> c.len > 0)
  {
    if s == [] then Char(0, 0)
    else
      var n := Announced(s[0]);
      if n == 2 && Continues(s, 2) then Char((s[0] as int - 0xC0) * 0x40 + Low(s[1]), 2)
      else if n == 3 && Continues(s, 3) then
        Char((s[0] as int - 0xE0) * 0x1000 + Low(s[1]) * 0x40 + Low(s[2]), 3)
      else if n == 4 && Continues(s, 4) then
        Char((s[0] as int - 0xF0) * 0x40000 + Low(s[1]) * 0x1000 + Low(s[2]) * 0x40 + Low(s[3]), 4)
      else Char(s[0], 1)
  }

  // ---- Clusters ------------------------------------------------------------------------------

  predicate IsZwj(cp: nat) {
    cp == 0x200D
  }

  predicate IsRegional(cp: nat) {
    0x1F1E6 <= cp <= 0x1F1FF
  }

  predicate IsCombining(cp: nat) {
    || 0x0300 <= cp <= 0x036F || 0x1AB0 <= cp <= 0x1AFF || 0x1DC0 <= cp <= 0x1DFF
    || 0x20D0 <= cp <= 0x20FF || 0xFE20 <= cp <= 0xFE2F
  }

  predicate IsExtend(cp: nat) {
    cp == 0xFE0E || cp == 0xFE0F || 0x1F3FB <= cp <= 0x1F3FF || IsZwj(cp) || IsCombining(cp)
  }

  /** Where the scan for the first byte of the character that ends at pos stops. */
  function ScanBack(text: seq<Byte>, pos: nat, i: nat): (start: nat)
    requires i < pos <= |text| && pos - i <= 4
    ensures start <= i && pos - start <= 4
  {
    if i > 0 && pos - i < 4 && IsCont(text[i]) then ScanBack(text, pos, i - 1) else i
  }

  function DecodePrev(text: seq<Byte>, pos: nat): (c: Char)
    requires pos <= |text|
    ensures c.len <= pos && (pos > 0 ==> c.len > 0)
  {
    if pos == 0 then Char(0, 0)
    else
      var start := ScanBack(text, pos, pos - 1);
      Char(Decode(text[start..pos]).cp, pos - start)
  }

  /** The start of the cluster, when what begins at cur with code point cp belongs to it. */
  function PrevFrom(text: seq<Byte>, cur: nat, cp: nat): (start: nat)
    requires cur <= |text|
    ensures start <= cur
    decreases cur
  {
    if cur == 0 then 0
    else
      var c := DecodePrev(text, cur);
      if IsZwj(c.cp) then
        var d := DecodePrev(text, cur - c.len);
        if d.len == 0 then cur - c.len else PrevFrom(text, cur - c.len - d.len, d.cp)
      else if IsExtend(cp) then PrevFrom(text, cur - c.len, c.cp)
      else if IsRegional(cp) && IsRegional(c.cp) then cur - c.len
      else cur
  }

  function PrevStart(text: seq<Byte>, pos: nat): (start: nat)
    requires pos <= |text|
    ensures start <= pos && (pos > 0 ==> start < pos)
  {
    if pos == 0 then 0
    else
      var c := DecodePrev(text, pos);
      PrevFrom(text, pos - c.len, c.cp)
  }

  /** The end of the cluster, when everything up to cur belongs to it. */
  function NextFrom(text: seq<Byte>, cur: nat, regional: bool): (end: nat)
    requires cur <= |text|
    ensures cur <= end <= |text|
    decreases |text| - cur
  {
    if cur == |text| then cur
    else
      var c := Decode(text[cur..]);
      if IsZwj(c.cp) && cur + c.len < |text| then
        NextFrom(text, cur + c.len + Decode(text[cur + c.len..]).len, regional)
      else if IsExtend(c.cp) then NextFrom(text, cur + c.len, regional)
      else if regional && IsRegional(c.cp) then NextFrom(text, cur + c.len, false)
      else cur
  }

  function NextEnd(text: seq<Byte>, pos: nat): (end: nat)
    requires pos <= |text|
    ensures pos <= end <= |text| && (pos < |text| ==> pos < end)
  {
    if pos == |text| then pos
    else
      var c := Decode(text[pos..]);
      NextFrom(text, pos + c.len, IsRegional(c.cp))
  }

  method PrevCharLen(text: seq<Byte>, pos: nat) returns (total: nat)
    requires pos <= |text|
    ensures total == pos - PrevStart(text, pos)
  {
    hide DecodePrev, IsExtend;
    if pos == 0 {
      return 0;
    }
    var c := DecodePrev(text, pos);
    var cp: nat, cur: nat := c.cp, pos - c.len;
    total := c.len;
    while cur > 0
      invariant cur <= |text| && total + cur == pos && PrevStart(text, pos) == PrevFrom(text, cur, cp)
      decreases cur
    {
      var p := DecodePrev(text, cur);
      if IsZwj(p.cp) {
        total, cur := total + p.len, cur - p.len;
        p := DecodePrev(text, cur);
        if p.len == 0 {
          break;
        }
        total, cur, cp := total + p.len, cur - p.len, p.cp;
      } else if IsExtend(cp) {
        total, cur, cp := total + p.len, cur - p.len, p.cp;
      } else if IsRegional(cp) && IsRegional(p.cp) {
        total, cur := total + p.len, cur - p.len;
        return;
      } else {
        return;
      }
    }
  }

  method NextCharLen(text: seq<Byte>, pos: nat) returns (total: nat)
    requires pos <= |text|
    ensures total == NextEnd(text, pos) - pos
  {
    hide Decode, IsExtend;
    if pos >= |text| {
      return 0;
    }
    var c := Decode(text[pos..]);
    var cur := pos + c.len;
    total := c.len;
    var regional := IsRegional(c.cp);
    while cur < |text|
      invariant cur <= |text| && total == cur - pos && NextEnd(text, pos) == NextFrom(text, cur, regional)
      decreases |text| - cur
    {
      var n := Decode(text[cur..]);
      if IsZwj(n.cp) && cur + n.len < |text| {
        total, cur := total + n.len, cur + n.len;
        n := Decode(text[cur..]);
        total, cur := total + n.len, cur + n.len;
      } else if IsExtend(n.cp) {
        total, cur := total + n.len, cur + n.len;
      } else if regional && IsRegional(n.cp) {
        total, cur, regional := total + n.len, cur + n.len, false;
      } else {
        return;
      }
    }
  }
}
