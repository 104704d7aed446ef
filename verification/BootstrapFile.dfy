/**
 The bootstrap file writer and scanner: exporting blocks as chunks, scanning an existing file
 in batches, cutting off a torn tail and resuming.  A file is its parsed header and the bytes
 after it; offsets count from the end of the header.
 */
module BootstrapFile {
  import opened ChunkLog
  import opened Options

  const NUM_BLOCKS_PER_CHUNK := 1
  const PROGRESS_INTERVAL := 10

  // ---- count_bytes ----------------------------------------------------------------------------

  /** What count_bytes sees next; without a file size it stops only where a length cannot be read. */
  function Ahead(body: seq<byte>, offset: nat, sized: bool): Next {
    if sized then NextAt(body, offset)
    else if offset + 4 > |body| then End
    else
      var size := U32(body[offset..offset + 4]);
      if size > BUFFER_SIZE || size == 0 then Bad else Whole(size)
  }

  datatype Walked = Walked(chunks: nat, offset: nat)

  /** The offset reached after at most limit chunks. */
  function Walk(body: seq<byte>, offset: nat, limit: nat, sized: bool): (w: Walked)
    ensures w.chunks <= limit && w.offset >= offset
    ensures w.chunks < limit ==> !Ahead(body, w.offset, sized).Whole?
    decreases limit
  {
    if limit == 0 then Walked(0, offset)
    else
      match Ahead(body, offset, sized)
      case Whole(size) =>
        var w := Walk(body, offset + 4 + size, limit - 1, sized);
        Walked(w.chunks + 1, w.offset)
      case _ => Walked(0, offset)
  }

  datatype Count = Counted(offset: nat, bytesRead: nat, h: nat, quit: bool) | Incomplete(at: nat, blocks: nat) | Aborted

  /** How a walk that was asked for limit chunks ends. */
  function Outcome(body: seq<byte>, start: nat, limit: nat, sized: bool): Count {
    var w := Walk(body, start, limit, sized);
    if w.chunks == limit && limit > 0 then Counted(w.offset, w.offset - start, w.chunks, false)
    else
      match Ahead(body, w.offset, sized)
      case Torn => Incomplete(w.offset, w.chunks)
      case Bad => Aborted
      case _ => Counted(w.offset, w.offset - start, w.chunks, true)
  }

  /** At least one chunk is consumed, even when none is asked for. */
  function Asked(blocks: nat): nat {
    if blocks == 0 then 1 else blocks
  }

  lemma {:induction false} WalkOneMore(body: seq<byte>, offset: nat, n: nat, sized: bool)
    requires Walk(body, offset, n, sized).chunks == n
    ensures var w := Walk(body, offset, n, sized);
            Walk(body, offset, n + 1, sized) ==
              match Ahead(body, w.offset, sized) case Whole(size) => Walked(n + 1, w.offset + 4 + size) case _ => w
    decreases n
  {
    if n > 0 {
      var size := Ahead(body, offset, sized).size;
      WalkOneMore(body, offset + 4 + size, n - 1, sized);
    }
  }

  lemma {:induction false} WalkStuck(body: seq<byte>, offset: nat, n: nat, limit: nat, sized: bool)
    requires n <= limit && Walk(body, offset, n, sized).chunks == n
    requires !Ahead(body, Walk(body, offset, n, sized).offset, sized).Whole?
    ensures Walk(body, offset, limit, sized) == Walk(body, offset, n, sized)
    decreases n
  {
    hide Ahead;
    if n > 0 {
      var next := offset + 4 + Ahead(body, offset, sized).size;
      assert Walk(body, next, n - 1, sized).chunks == n - 1;
      WalkStuck(body, next, n - 1, limit - 1, sized);
    }
  }

  /** count_bytes. */
  method CountBytes(body: seq<byte>, start: nat, blocks: nat, sized: bool) returns (r: Count)
    ensures r == Outcome(body, start, Asked(blocks), sized)
  {
    hide Ahead;
    var h: nat, bytesRead: nat, offset: nat := 0, 0, start;
    while true
      invariant Walk(body, start, h, sized) == Walked(h, offset)
      invariant h < Asked(blocks) && bytesRead == offset - start && offset >= start
      decreases Asked(blocks) - h
    {
      WalkOneMore(body, start, h, sized);
      match Ahead(body, offset, sized)
      case Whole(size) =>
        bytesRead := bytesRead + 4 + size;
        offset := offset + 4 + size;
        h := h + NUM_BLOCKS_PER_CHUNK;
        if h >= blocks {
          return Counted(offset, bytesRead, h, false);
        }
      case End =>
        WalkStuck(body, start, h, Asked(blocks), sized);
        return Counted(offset, bytesRead, h, true);
      case Torn =>
        WalkStuck(body, start, h, Asked(blocks), sized);
        return Incomplete(offset, h);
      case Bad =>
        WalkStuck(body, start, h, Asked(blocks), sized);
        return Aborted;
    }
  }

  // ---- count_blocks -------------------------------------------------------------------------------

  lemma {:induction false} WalkSplit(body: seq<byte>, offset: nat, a: nat, b: nat, sized: bool)
    requires Walk(body, offset, a, sized).chunks == a
    ensures var w := Walk(body, Walk(body, offset, a, sized).offset, b, sized);
            Walk(body, offset, a + b, sized) == Walked(a + w.chunks, w.offset)
    decreases a
  {
    hide Ahead;
    if a > 0 {
      WalkSplit(body, offset + 4 + Ahead(body, offset, sized).size, a - 1, b, sized);
    }
  }

  lemma {:induction false} WalkBounded(body: seq<byte>, offset: nat, limit: nat)
    requires offset <= |body|
    ensures var w := Walk(body, offset, limit, true);
            w.offset <= |body| && 5 * w.chunks <= w.offset - offset
    decreases limit
  {
    hide NextAt;
    if limit > 0 && NextAt(body, offset).Whole? {
      WalkBounded(body, offset + 4 + NextAt(body, offset).size, limit - 1);
    }
  }

  /** A walk to the first place that is not a whole chunk. */
  function WalkAll(body: seq<byte>): (w: Walked)
    ensures !NextAt(body, w.offset).Whole?
  {
    WalkBounded(body, 0, |body| + 1);
    Walk(body, 0, |body| + 1, true)
  }

  const TWO64 := 0x1_0000_0000_0000_0000

  function U64(x: int): nat {
    x % TWO64
  }

  /** Whether a batch starting after h blocks is close enough to the height sought. */
  predicate NearEnough(h: nat, blockFirst: nat, sought: nat) {
    U64(h + blockFirst + PROGRESS_INTERVAL) >= U64(sought - 1)
  }

  /** The first batch, from batch k on, that is close enough among those the scan starts. */
  function FirstNear(k: nat, batches: nat, blockFirst: nat, sought: nat): (r: Option<nat>)
    requires k <= batches
    ensures r.Some? ==> k <= r.value < batches && NearEnough(PROGRESS_INTERVAL * r.value, blockFirst, sought)
    ensures r.Some? ==> forall j :: k <= j < r.value ==> !NearEnough(PROGRESS_INTERVAL * j, blockFirst, sought)
    ensures r.None? ==> forall j :: k <= j < batches ==> !NearEnough(PROGRESS_INTERVAL * j, blockFirst, sought)
    decreases batches - k
  {
    if k == batches then None
    else if NearEnough(PROGRESS_INTERVAL * k, blockFirst, sought) then Some(k)
    else FirstNear(k + 1, batches, blockFirst, sought)
  }

  /** Result of count_blocks; startPos is None where the caller's stream position is left alone. */
  datatype Scanned =
    | Blocks(h: nat, startPos: Option<nat>, seekHeight: nat)
    | TornTail(at: nat, blocks: nat)
    | ScanAborted

  /** A scan of a file with the given number of chunks starts this many batches. */
  function Batches(chunks: nat): nat {
    chunks / PROGRESS_INTERVAL + 1
  }

  /** What count_blocks returns. */
  function ScanResult(body: seq<byte>, blockFirst: nat, sought: nat): Scanned {
    var w := WalkAll(body);
    match NextAt(body, w.offset)
    case Torn => TornTail(w.offset, w.chunks)
    case Bad => ScanAborted
    case Whole(_) => ScanAborted
    case End =>
      match if sought == 0 then None else FirstNear(0, Batches(w.chunks), blockFirst, sought)
      case None => Blocks(w.chunks, None, sought)
      case Some(k) =>
        var h := PROGRESS_INTERVAL * k;
        Blocks(w.chunks, Some(Walk(body, 0, h, true).offset), U64(h + blockFirst))
  }

  /** How one more batch extends a walk, or finds where the whole chunks end. */
  lemma BatchStep(body: seq<byte>, h: nat, offset: nat)
    requires Walk(body, 0, h, true) == Walked(h, offset)
    ensures offset <= |body|
    ensures match Outcome(body, offset, PROGRESS_INTERVAL, true)
            case Counted(o, _, n, quit) =>
              && o <= |body|
              && (!quit ==> n == PROGRESS_INTERVAL && o > offset && Walk(body, 0, h + n, true) == Walked(h + n, o))
              && (quit ==> n < PROGRESS_INTERVAL && WalkAll(body) == Walked(h + n, o) && NextAt(body, o) == End)
            case Incomplete(at, n) => WalkAll(body) == Walked(h + n, at) && NextAt(body, at) == Torn
            case Aborted => NextAt(body, WalkAll(body).offset) == Bad
  {
    hide NextAt, Walk;
    var w := Walk(body, offset, PROGRESS_INTERVAL, true);
    WalkBounded(body, 0, h);
    WalkBounded(body, offset, PROGRESS_INTERVAL);
    WalkSplit(body, 0, h, w.chunks, true);
    if w.chunks < PROGRESS_INTERVAL {
      WalkPrefix(body, offset, w.chunks, PROGRESS_INTERVAL, true);
      WalkBounded(body, 0, h + w.chunks);
      WalkStuck(body, 0, h + w.chunks, |body| + 1, true);
    }
  }

  lemma {:induction false} WalkPrefix(body: seq<byte>, offset: nat, n: nat, limit: nat, sized: bool)
    requires n == Walk(body, offset, limit, sized).chunks
    ensures Walk(body, offset, n, sized) == Walk(body, offset, limit, sized)
    decreases limit
  {
    hide Ahead;
    if limit > 0 && Ahead(body, offset, sized).Whole? {
      WalkPrefix(body, offset + 4 + Ahead(body, offset, sized).size, n - 1, limit - 1, sized);
    }
  }

  /** The seek variables of count_blocks after k batches have started. */
  ghost predicate SeekState(body: seq<byte>, blockFirst: nat, sought: nat, k: nat, startHeight: nat,
                            startPos: Option<nat>, seekHeight: nat)
  {
    match if sought == 0 then None else FirstNear(0, k, blockFirst, sought)
    case None => startHeight == sought && startPos == None && seekHeight == sought
    case Some(j) =>
      && startHeight == 0
      && startPos == Some(Walk(body, 0, PROGRESS_INTERVAL * j, true).offset)
      && seekHeight == U64(PROGRESS_INTERVAL * j + blockFirst)
  }

  lemma {:induction false} FirstNearNext(k: nat, batches: nat, blockFirst: nat, sought: nat)
    requires k <= batches
    ensures FirstNear(k, batches + 1, blockFirst, sought) ==
              match FirstNear(k, batches, blockFirst, sought)
              case Some(j) => Some(j)
              case None => if NearEnough(PROGRESS_INTERVAL * batches, blockFirst, sought) then Some(batches) else None
    decreases batches - k
  {
    hide NearEnough;
    if k < batches {
      FirstNearNext(k + 1, batches, blockFirst, sought);
    }
  }

  /** The test at the head of the batch loop of count_blocks. */
  method SeekTest(body: seq<byte>, blockFirst: nat, ghost sought: nat, ghost k: nat, h: nat, offset: nat,
                  startHeight0: nat, startPos0: Option<nat>, seekHeight0: nat)
    returns (startHeight: nat, startPos: Option<nat>, seekHeight: nat)
    requires h == PROGRESS_INTERVAL * k && Walk(body, 0, h, true) == Walked(h, offset)
    requires SeekState(body, blockFirst, sought, k, startHeight0, startPos0, seekHeight0)
    ensures SeekState(body, blockFirst, sought, k + 1, startHeight, startPos, seekHeight)
  {
    hide Walk, SeekState, U64, NearEnough;
    SeekNext(body, blockFirst, sought, k, startHeight0, startPos0, seekHeight0);
    startHeight, startPos, seekHeight := startHeight0, startPos0, seekHeight0;
    if startHeight != 0 && NearEnough(h, blockFirst, startHeight) {
      startHeight := 0;
      startPos := Some(offset);
      seekHeight := U64(h + blockFirst);
    }
  }

  /** count_blocks: the nested, batched scan. */
  method CountBlocks(body: seq<byte>, blockFirst: nat, sought: nat) returns (r: Scanned)
    ensures r == ScanResult(body, blockFirst, sought)
  {
    var h: nat, offset: nat, quit := 0, 0, false;
    var startHeight: nat, startPos: Option<nat>, seekHeight: nat := sought, None, sought;
    ghost var k := 0;
    SeekStart(body, blockFirst, sought);
    hide *;
    while !quit
      invariant SeekState(body, blockFirst, sought, k, startHeight, startPos, seekHeight)
      invariant !quit ==> h == PROGRESS_INTERVAL * k && Walk(body, 0, h, true) == Walked(h, offset)
      invariant quit ==> k == Batches(h) && WalkAll(body) == Walked(h, offset) && NextAt(body, offset) == End
      decreases if quit then -1 else |body| - offset
    {
      startHeight, startPos, seekHeight :=
        SeekTest(body, blockFirst, sought, k, h, offset, startHeight, startPos, seekHeight);
      var count := CountBatch(body, h, offset, k);
      if count.Counted? {
        h, offset, quit := h + count.h, count.offset, count.quit;
        k := k + 1;
      } else {
        ScanFails(body, blockFirst, sought);
        return if count.Incomplete? then TornTail(count.at, h + count.blocks) else ScanAborted;
      }
    }
    SeekEnd(body, blockFirst, sought, startHeight, startPos, seekHeight);
    r := Blocks(h, startPos, seekHeight);
  }

  /** One call of count_bytes inside the batch loop. */
  method CountBatch(body: seq<byte>, h: nat, offset: nat, ghost k: nat) returns (count: Count)
    requires h == PROGRESS_INTERVAL * k && Walk(body, 0, h, true) == Walked(h, offset)
    ensures offset <= |body|
    ensures count.Counted? && !count.quit ==>
              && count.h == PROGRESS_INTERVAL && offset < count.offset <= |body|
              && Walk(body, 0, h + count.h, true) == Walked(h + count.h, count.offset)
    ensures count.Counted? && count.quit ==>
              && Batches(h + count.h) == k + 1 && WalkAll(body) == Walked(h + count.h, count.offset)
              && NextAt(body, count.offset) == End
    ensures count.Incomplete? ==> WalkAll(body) == Walked(h + count.blocks, count.at) && NextAt(body, count.at) == Torn
    ensures count.Aborted? ==> NextAt(body, WalkAll(body).offset) == Bad
  {
    hide NextAt, WalkAll, Outcome, Walk, Batches;
    BatchStep(body, h, offset);
    count := CountBytes(body, offset, PROGRESS_INTERVAL, true);
    if count.Counted? && count.quit {
      BatchCount(k, count.h);
    }
  }

  lemma BatchCount(k: nat, blocks: nat)
    requires blocks < PROGRESS_INTERVAL
    ensures Batches(PROGRESS_INTERVAL * k + blocks) == k + 1
  {
  }

  lemma SeekStart(body: seq<byte>, blockFirst: nat, sought: nat)
    ensures SeekState(body, blockFirst, sought, 0, sought, None, sought)
    ensures Walk(body, 0, 0, true) == Walked(0, 0)
  {
  }

  /** The test at the head of a batch keeps the seek variables in step. */
  lemma SeekNext(body: seq<byte>, blockFirst: nat, sought: nat, k: nat, startHeight: nat, startPos: Option<nat>,
                 seekHeight: nat)
    requires SeekState(body, blockFirst, sought, k, startHeight, startPos, seekHeight)
    ensures var h := PROGRESS_INTERVAL * k;
            if startHeight != 0 && NearEnough(h, blockFirst, startHeight)
            then SeekState(body, blockFirst, sought, k + 1, 0, Some(Walk(body, 0, h, true).offset), U64(h + blockFirst))
            else SeekState(body, blockFirst, sought, k + 1, startHeight, startPos, seekHeight)
  {
    hide NearEnough, Walk, U64, FirstNear;
    FirstNearNext(0, k, blockFirst, sought);
  }

  lemma SeekEnd(body: seq<byte>, blockFirst: nat, sought: nat, startHeight: nat, startPos: Option<nat>, seekHeight: nat)
    requires NextAt(body, WalkAll(body).offset) == End
    requires SeekState(body, blockFirst, sought, Batches(WalkAll(body).chunks), startHeight, startPos, seekHeight)
    ensures ScanResult(body, blockFirst, sought) == Blocks(WalkAll(body).chunks, startPos, seekHeight)
  {
    hide NextAt, NearEnough, WalkAll, Walk, U64, FirstNear;
  }

  lemma ScanFails(body: seq<byte>, blockFirst: nat, sought: nat)
    ensures var w := WalkAll(body);
            && (NextAt(body, w.offset) == Torn ==> ScanResult(body, blockFirst, sought) == TornTail(w.offset, w.chunks))
            && (NextAt(body, w.offset) == Bad ==> ScanResult(body, blockFirst, sought) == ScanAborted)
  {
    hide NextAt, WalkAll, FirstNear;
  }

  // ---- Scanning a file of chunks -------------------------------------------------------------------

  lemma {:induction false} AheadInLog(cs: seq<Chunk>, tail: seq<byte>, n: nat, sized: bool)
    requires n < |cs|
    ensures Ahead(Log(cs) + tail, |Log(cs[..n])|, sized) == Whole(|cs[n]|)
    ensures |Log(cs[..n + 1])| == |Log(cs[..n])| + 4 + |cs[n]|
  {
    assert cs[..n + 1][..n] == cs[..n];
    hide Framed;
    SplitLog(cs, n);
    var before, after := Log(cs[..n]), Log(cs[n + 1..]) + tail;
    hide Log;
    assert Log(cs) + tail == before + Framed(cs[n]) + after;
    WholeChunkAhead(before, cs[n], after);
  }

  /** A walk over whole chunks counts them one by one, whatever follows. */
  lemma {:induction false} WalkLog(cs: seq<Chunk>, tail: seq<byte>, n: nat, sized: bool)
    requires n <= |cs|
    ensures Walk(Log(cs) + tail, 0, n, sized) == Walked(n, |Log(cs[..n])|)
  {
    if n == 0 {
      assert cs[..0] == [];
    } else {
      hide Log, Ahead;
      WalkLog(cs, tail, n - 1, sized);
      hide Walk;
      WalkOneMore(Log(cs) + tail, 0, n - 1, sized);
      AheadInLog(cs, tail, n - 1, sized);
    }
  }

  lemma {:induction false} SplitLog(cs: seq<Chunk>, n: nat)
    requires n < |cs|
    ensures Log(cs) == Log(cs[..n]) + Framed(cs[n]) + Log(cs[n + 1..])
  {
    var front, back := cs[..n + 1], cs[n + 1..];
    assert front[..n] == cs[..n] && front[n] == cs[n];
    assert Log(front) == Log(cs[..n]) + Framed(cs[n]);
    assert front + back == cs;
    hide Log, Framed;
    LogAppend(front, back);
  }

  /** After any cut of a log, the scan finds exactly the whole chunks and what follows them. */
  lemma ScanCutLog(cs: seq<Chunk>, k: nat, tail: seq<byte>)
    requires k <= |cs| && IsTail(cs, k, tail)
    ensures var body := Log(cs[..k]) + tail;
            && WalkAll(body) == Walked(k, |Log(cs[..k])|)
            && NextAt(body, |Log(cs[..k])|) == if tail == [] then End else Torn
  {
    hide NextAt, Framed;
    var whole := cs[..k];
    var body := Log(whole) + tail;
    WalkLog(whole, tail, k, true);
    assert whole[..k] == whole;
    TailAhead(Log(whole), cs, k, tail);
    WalkBounded(body, 0, k);
    WalkStuck(body, 0, k, |body| + 1, true);
  }

  // ---- Exporting -----------------------------------------------------------------------------------------

  /** The chunks of blocks first .. first + n - 1. */
  function ChunksOf(payload: nat -> Chunk, first: nat, n: nat): (cs: seq<Chunk>)
    ensures |cs| == n
  {
    seq(n, i requires 0 <= i < n => payload(first + i))
  }

  /** Blocks still to write from next up to and including stop. */
  function Remaining(next: nat, stop: nat): nat {
    if next <= stop then stop + 1 - next else 0
  }

  /** No length field of the file is out of range before its whole chunks end. */
  predicate Scannable(body: seq<byte>) {
    NextAt(body, WalkAll(body).offset) != Bad
  }

  /** The whole chunks of a file and, after them, the blocks up to stop that it lacks. */
  function Resumed(body: seq<byte>, payload: nat -> Chunk, first: nat, stop: nat): seq<byte> {
    var w := WalkAll(body);
    WalkBounded(body, 0, |body| + 1);
    body[..w.offset] + Log(ChunksOf(payload, w.chunks + first, Remaining(w.chunks + first, stop)))
  }

  datatype OpenResult = Opened(nextBlock: nat) | OpenFailed

  class Exporter {
    var present: bool
    var blockFirst: nat
    var body: seq<byte>
    var buffer: seq<byte>
    var curHeight: nat

    /** open_writer: a torn tail is cut off, then the export continues after the last whole chunk. */
    method OpenWriter(startBlock: nat) returns (r: OpenResult)
      modifies this
      ensures present && buffer == []
      ensures !old(present) ==> r == Opened(startBlock) && blockFirst == startBlock && body == []
      ensures old(present) ==> blockFirst == old(blockFirst)
      ensures old(present) && !Scannable(old(body)) ==> r == OpenFailed && body == old(body)
      ensures old(present) && Scannable(old(body)) ==> WalkAll(old(body)).offset <= |old(body)|
      ensures old(present) && Scannable(old(body)) ==> r == Opened(WalkAll(old(body)).chunks + blockFirst)
      ensures old(present) && Scannable(old(body)) ==> body == old(body)[..WalkAll(old(body)).offset]
    {
      buffer := [];
      if !present {
        present, blockFirst, body := true, startBlock, [];
        return Opened(startBlock);
      }
      hide NextAt, Walk;
      WalkBounded(body, 0, |body| + 1);
      EndIsLength(body, WalkAll(body).offset);
      var scanned := CountBlocks(body, blockFirst, 0);
      match scanned
      case Blocks(h, _, _) =>
        assert body == body[..|body|];
        r := Opened(h + blockFirst);
      case TornTail(at, blocks) =>
        body := body[..at];
        r := Opened(blocks + blockFirst);
      case ScanAborted =>
        r := OpenFailed;
    }

    method WriteBlock(data: Chunk)
      modifies this`buffer
      ensures buffer == old(buffer) + data
    {
      buffer := buffer + data;
    }

    /** flush_chunk: a chunk of any size is written; only one whose size has no 32-bit form is reported. */
    method FlushChunk() returns (ok: bool)
      modifies this`body, this`buffer
      ensures ok == (|old(buffer)| < TWO32)
      ensures ok ==> buffer == [] && body == old(body) + Framed(old(buffer))
      ensures !ok ==> buffer == old(buffer) && body == old(body) + Le32(|old(buffer)| % TWO32) + old(buffer)
    {
      var chunkSize := |buffer| % TWO32;
      body := body + Le32(chunkSize);
      var before := |body|;
      body := body + buffer;
      if |body| - before != chunkSize {
        return false;
      }
      buffer := [];
      ok := true;
    }

    /** store_blockchain_raw, with each block's package a fixed function of its height. */
    method StoreBlockchainRaw(payload: nat -> Chunk, startBlock: nat, blockStop: nat) returns (ok: bool)
      modifies this
      ensures !old(present) ==> ok && blockFirst == startBlock
      ensures !old(present) ==> body == Log(ChunksOf(payload, startBlock, Remaining(startBlock, blockStop)))
      ensures old(present) ==> blockFirst == old(blockFirst) && ok == Scannable(old(body))
      ensures old(present) ==> body == if ok then Resumed(old(body), payload, blockFirst, blockStop) else old(body)
    {
      hide WalkAll, Framed, Scannable, Log, ChunksOf;
      var start := OpenWriter(startBlock);
      if start.OpenFailed? {
        return false;
      }
      ghost var kept := body;
      var next := start.nextBlock;
      curHeight := next;
      NoChunks(payload, next);
      while curHeight <= blockStop
        invariant buffer == [] && next <= curHeight && (next <= blockStop ==> curHeight <= blockStop + 1)
        invariant next > blockStop ==> curHeight == next
        invariant blockFirst == (if old(present) then old(blockFirst) else startBlock)
        invariant body == kept + Log(ChunksOf(payload, next, curHeight - next))
        decreases blockStop + 1 - curHeight
      {
        ghost var n := curHeight - next;
        var data := payload(curHeight);
        WriteBlock(data);
        assert buffer == data;
        if curHeight % NUM_BLOCKS_PER_CHUNK == 0 {
          var flushed := FlushChunk();
        }
        OneChunkMore(payload, next, n);
        ghost var written := Log(ChunksOf(payload, next, n));
        assert kept + (written + Framed(data)) == kept + written + Framed(data);
        curHeight := curHeight + 1;
      }
      ok := true;
    }
  }

  lemma NoChunks(payload: nat -> Chunk, first: nat)
    ensures Log(ChunksOf(payload, first, 0)) == []
  {
  }

  lemma OneChunkMore(payload: nat -> Chunk, first: nat, n: nat)
    ensures Log(ChunksOf(payload, first, n + 1)) == Log(ChunksOf(payload, first, n)) + Framed(payload(first + n))
  {
    hide Framed;
    assert ChunksOf(payload, first, n + 1)[..n] == ChunksOf(payload, first, n);
  }

  lemma EndIsLength(body: seq<byte>, offset: nat)
    ensures NextAt(body, offset) == End <==> offset == |body|
  {
  }

  /** The uninterrupted export of blocks first .. stop. */
  function Exported(payload: nat -> Chunk, first: nat, stop: nat): seq<byte>
    requires first <= stop
  {
    Log(ChunksOf(payload, first, stop + 1 - first))
  }

  /** For every cut of an export, reopening keeps exactly the k whole chunks that survive, and
      exporting again, up to the same block or a later one, gives the uninterrupted file. */
  lemma ResumeAfterCut(payload: nat -> Chunk, first: nat, stop: nat, cut: nat, stop': nat) returns (k: nat)
    requires first <= stop <= stop' && cut <= |Exported(payload, first, stop)|
    ensures var body := Exported(payload, first, stop)[..cut];
            var w := WalkAll(body);
            && Scannable(body)
            && w.chunks == k <= stop + 1 - first && w.offset <= cut
            && body[..w.offset] == Log(ChunksOf(payload, first, k))
            && (k < stop + 1 - first ==> cut < |Log(ChunksOf(payload, first, k + 1))|)
            && Resumed(body, payload, first, stop') == Exported(payload, first, stop')
  {
    hide NextAt, WalkAll, Log, Framed, ChunksOf;
    var n := stop + 1 - first;
    var cs := ChunksOf(payload, first, n);
    var tail;
    k, tail := CutLog(cs, cut);
    var kept := Log(cs[..k]);
    assert |kept| + |tail| == cut;
    ScanCutLog(cs, k, tail);
    ChunksFront(payload, first, n, k);
    assert (kept + tail)[..|kept|] == kept;
    if k < n {
      NextChunkLonger(payload, first, k);
      ChunkAt(payload, first, n, k);
    }
    LogOfAll(payload, first, k, stop' + 1 - first);
  }

  lemma ChunksFront(payload: nat -> Chunk, first: nat, n: nat, k: nat)
    requires k <= n
    ensures ChunksOf(payload, first, n)[..k] == ChunksOf(payload, first, k)
  {
  }

  lemma ChunkAt(payload: nat -> Chunk, first: nat, n: nat, k: nat)
    requires k < n
    ensures ChunksOf(payload, first, n)[k] == payload(first + k)
  {
  }

  lemma LogOfAll(payload: nat -> Chunk, first: nat, k: nat, n: nat)
    requires k <= n
    ensures Log(ChunksOf(payload, first, n)) ==
            Log(ChunksOf(payload, first, k)) + Log(ChunksOf(payload, first + k, n - k))
  {
    hide Log;
    LogAppend(ChunksOf(payload, first, k), ChunksOf(payload, first + k, n - k));
    assert ChunksOf(payload, first, k) + ChunksOf(payload, first + k, n - k) == ChunksOf(payload, first, n);
  }

  lemma {:induction false} NextChunkLonger(payload: nat -> Chunk, first: nat, k: nat)
    ensures |Log(ChunksOf(payload, first, k + 1))| == |Log(ChunksOf(payload, first, k))| + |Framed(payload(first + k))|
  {
    assert ChunksOf(payload, first, k + 1)[..k] == ChunksOf(payload, first, k);
  }
}
