/**
 The chunk region of a bootstrap file: each chunk is a 32-bit little-endian length followed
 by that many bytes.  The functions here say what a file of chunks is and what a torn one is.
 */
module ChunkLog {

  newtype byte = b: int | 0 <= b < 256

  const BUFFER_SIZE := 2 * 1024 * 1024
  const TWO32 := 0x1_0000_0000

  /** A chunk the scanner accepts. */
  type Chunk = c: seq<byte> | 1 <= |c| <= BUFFER_SIZE witness [0]

  /** dump_binary of a uint32. */
  function Le32(n: nat): (s: seq<byte>)
    requires n < TWO32
    ensures |s| == 4
  {
    [(n % 256) as byte, (n / 256 % 256) as byte, (n / 65536 % 256) as byte, (n / 16777216) as byte]
  }

  /** parse_binary of a uint32. */
  function U32(s: seq<byte>): nat
    requires |s| == 4
  {
    s[0] as int + 256 * s[1] as int + 65536 * s[2] as int + 16777216 * s[3] as int
  }

  lemma U32OfLe32(n: nat)
    requires n < TWO32
    ensures U32(Le32(n)) == n
  {
    var a, b, c := n / 256, n / 65536, n / 16777216;
    assert b == a / 256 && c == b / 256;
    assert n == 256 * a + n % 256 && a == 256 * b + a % 256 && b == 256 * c + b % 256;
  }

  function Framed(c: seq<byte>): (s: seq<byte>)
    requires |c| < TWO32
    ensures |s| == 4 + |c|
  {
    Le32(|c|) + c
  }

  /** The first four bytes are the size, lowest byte first, and the chunk follows. */
  lemma FrameBytes(c: seq<byte>)
    requires |c| < TWO32
    ensures var f := Framed(c);
            && |c| == f[0] as int + 0x100 * f[1] as int + 0x10000 * f[2] as int + 0x1000000 * f[3] as int
            && f[4..] == c
  {
    U32OfLe32(|c|);
    assert Framed(c)[..4] == Le32(|c|);
  }

  function Log(cs: seq<Chunk>): seq<byte> {
    if cs == [] then [] else Log(cs[..|cs| - 1]) + Framed(cs[|cs| - 1])
  }

  lemma {:induction false} LogAppend(a: seq<Chunk>, b: seq<Chunk>)
    ensures Log(a + b) == Log(a) + Log(b)
  {
    hide Framed, Log;
    if b == [] {
      assert a + b == a;
      EmptyLog(b);
    } else {
      var n := |b| - 1;
      LogAppend(a, b[..n]);
      assert (a + b)[..|a| + n] == a + b[..n] && (a + b)[|a| + n] == b[n];
      LogLast(a + b);
      LogLast(b);
      assert Log(a) + Log(b[..n]) + Framed(b[n]) == Log(a) + (Log(b[..n]) + Framed(b[n]));
    }
  }

  lemma EmptyLog(cs: seq<Chunk>)
    requires cs == []
    ensures Log(cs) == []
  {
  }

  lemma LogLast(cs: seq<Chunk>)
    requires cs != []
    ensures Log(cs) == Log(cs[..|cs| - 1]) + Framed(cs[|cs| - 1])
  {
    hide Framed;
  }

  // ---- One step of a scan --------------------------------------------------------------------

  /** What stands at an offset of a file of known size. */
  datatype Next = End | Torn | Bad | Whole(size: nat)

  function NextAt(file: seq<byte>, offset: nat): (n: Next)
    ensures n.Whole? ==> 1 <= n.size <= BUFFER_SIZE && offset + 4 + n.size <= |file|
  {
    if offset == |file| then End
    else if offset > |file| || |file| - offset < 4 then Torn
    else
      var size := U32(file[offset..offset + 4]);
      if size > BUFFER_SIZE || size == 0 then Bad
      else if size > |file| - offset - 4 then Torn
      else Whole(size)
  }

  /** What an interrupted write can leave after the chunks before chunk k. */
  ghost predicate IsTail(cs: seq<Chunk>, k: nat, tail: seq<byte>) {
    if k < |cs| then |tail| < |Framed(cs[k])| && tail == Framed(cs[k])[..|tail|] else k == |cs| && tail == []
  }

  /** Whatever was flushed, the scanner takes it exactly when it is neither empty nor larger than its buffer. */
  lemma WholeChunkAhead(before: seq<byte>, c: seq<byte>, after: seq<byte>)
    requires |c| < TWO32
    ensures NextAt(before + Framed(c) + after, |before|) == if 1 <= |c| <= BUFFER_SIZE then Whole(|c|) else Bad
  {
    var file := before + Framed(c) + after;
    assert file[|before|..|before| + 4] == Le32(|c|);
    U32OfLe32(|c|);
  }

  lemma TailAhead(before: seq<byte>, cs: seq<Chunk>, k: nat, tail: seq<byte>)
    requires IsTail(cs, k, tail)
    ensures NextAt(before + tail, |before|) == if tail == [] then End else Torn
  {
    if |tail| >= 4 {
      var file := before + tail;
      assert file[|before|..|before| + 4] == Framed(cs[k])[..4] == Le32(|cs[k]|);
      U32OfLe32(|cs[k]|);
    }
  }

  /** Every cut of a log keeps the longest prefix of whole chunks and a tail of the next one. */
  lemma {:induction false} CutLog(cs: seq<Chunk>, cut: nat) returns (k: nat, tail: seq<byte>)
    requires cut <= |Log(cs)|
    ensures k <= |cs| && IsTail(cs, k, tail)
    ensures Log(cs)[..cut] == Log(cs[..k]) + tail
  {
    hide Framed;
    if cs == [] || cut == |Log(cs)| {
      k, tail := |cs|, [];
      assert cs[..k] == cs;
    } else {
      var n := |cs| - 1;
      var init := cs[..n];
      if cut >= |Log(init)| {
        k, tail := n, Framed(cs[n])[..cut - |Log(init)|];
      } else {
        k, tail := CutLog(init, cut);
        assert init[..k] == cs[..k];
        assert Log(cs)[..cut] == Log(init)[..cut];
        if k == n {
          assert init[..n] == init;
        }
      }
    }
  }
}
