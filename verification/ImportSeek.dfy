/**
 How import_from_file finds the chunk of the first height it still needs: count_blocks leaves
 a position at or before it, and a second, unsized count skips the rest of the way.
 */
module ImportSeek {
  import opened BootstrapFile
  import opened ChunkLog
  import opened Options

  /** The head of import_from_file up to the block loop. */
  datatype Seek =
    | Exception                  // the scan threw
    | EarlyReturn                // nothing new in the file
    | UnsetPosition              // the stream is sent to a position that was never set
    | SkipQuit                   // the skip ran into the end of the file
    | SkipAborted                // the skip met a bad length
    | Landed(offset: nat)        // the block loop starts reading here, counting from start_height

  function SeekFrom(body: seq<byte>, blockFirst: nat, startHeight: nat): Seek {
    match ScanResult(body, blockFirst, startHeight)
    case TornTail(_, _) => Exception
    case ScanAborted => Exception
    case Blocks(total, startPos, seekHeight) =>
      if U64(total + blockFirst - 1) <= startHeight then EarlyReturn
      else
        match startPos
        case None => UnsetPosition
        case Some(pos) => SkipResult(Outcome(body, pos, Asked(U64(startHeight - seekHeight)), false))
  }

  function SkipResult(count: Count): Seek {
    match count
    case Incomplete(_, _) => SkipAborted
    case Aborted => SkipAborted
    case Counted(offset, _, _, quit) => if quit then SkipQuit else Landed(offset)
  }

  method Find(body: seq<byte>, blockFirst: nat, startHeight: nat) returns (r: Seek)
    ensures r == SeekFrom(body, blockFirst, startHeight)
  {
    hide ScanResult, Outcome;
    var scanned := CountBlocks(body, blockFirst, startHeight);
    if !scanned.Blocks? {
      return Exception;
    }
    if U64(scanned.h + blockFirst - 1) <= startHeight {
      return EarlyReturn;
    }
    if scanned.startPos.None? {
      return UnsetPosition;
    }
    var skipped := CountBytes(body, scanned.startPos.value, U64(startHeight - scanned.seekHeight), false);
    r := SkipResult(skipped);
  }

  /** Heights are far from the top of the 64-bit range. */
  predicate SmallHeights(total: nat, blockFirst: nat, startHeight: nat) {
    1 <= startHeight < TWO64 - 1 && blockFirst + total + PROGRESS_INTERVAL < TWO64
  }

  lemma SmallU64(x: int)
    requires 0 <= x < TWO64
    ensures U64(x) == x
  {
  }

  lemma TailOfWhole(cs: seq<Chunk>)
    ensures IsTail(cs, |cs|, [])
  {
  }

  /** On whole files the scan reports every chunk, and its seek position if a batch was near. */
  lemma ScanWhole(cs: seq<Chunk>, blockFirst: nat, sought: nat)
    requires sought > 0
    ensures WalkAll(Log(cs)).chunks == |cs|
    ensures ScanResult(Log(cs), blockFirst, sought) ==
              match FirstNear(0, Batches(|cs|), blockFirst, sought)
              case None => Blocks(|cs|, None, sought)
              case Some(k) =>
                var h := PROGRESS_INTERVAL * k;
                Blocks(|cs|, Some(Walk(Log(cs), 0, h, true).offset), U64(h + blockFirst))
  {
    hide NextAt, WalkAll, Walk, FirstNear, U64, Log;
    TailOfWhole(cs);
    ScanCutLog(cs, |cs|, []);
    assert cs[..|cs|] == cs && Log(cs) + [] == Log(cs);
  }

  /** Past the early return, unless the file is empty and starts at block 0, some batch is near;
      the first one starts below the height sought whenever the file does. */
  lemma NearBatch(total: nat, blockFirst: nat, startHeight: nat) returns (k: nat)
    requires SmallHeights(total, blockFirst, startHeight) && total + blockFirst >= startHeight + 2
    ensures FirstNear(0, Batches(total), blockFirst, startHeight) == Some(k)
    ensures PROGRESS_INTERVAL * k <= total
    ensures blockFirst < startHeight ==> PROGRESS_INTERVAL * k + blockFirst < startHeight
    ensures blockFirst >= startHeight ==> k == 0
  {
    var last := total / PROGRESS_INTERVAL;
    SmallU64(PROGRESS_INTERVAL * last + blockFirst + PROGRESS_INTERVAL);
    SmallU64(startHeight - 1);
    assert NearEnough(PROGRESS_INTERVAL * last, blockFirst, startHeight);
    var found := FirstNear(0, Batches(total), blockFirst, startHeight);
    assert found.Some?;
    k := found.value;
    if k > 0 {
      assert !NearEnough(PROGRESS_INTERVAL * (k - 1), blockFirst, startHeight);
      SmallU64(PROGRESS_INTERVAL * (k - 1) + blockFirst + PROGRESS_INTERVAL);
    }
  }

  lemma {:induction false} SkipInLog(cs: seq<Chunk>, from: nat, n: nat)
    requires from + n <= |cs|
    ensures Walk(Log(cs), |Log(cs[..from])|, n, false) == Walked(n, |Log(cs[..from + n])|)
  {
    assert Log(cs) + [] == Log(cs);
    hide Log, Walk;
    WalkLog(cs, [], from, false);
    WalkLog(cs, [], from + n, false);
    WalkSplit(Log(cs), 0, from, n, false);
  }

  /** The number of chunks is reported for every height sought, zero too. */
  lemma ScanTotal(cs: seq<Chunk>, blockFirst: nat, sought: nat)
    ensures ScanResult(Log(cs), blockFirst, sought).Blocks? && ScanResult(Log(cs), blockFirst, sought).h == |cs|
  {
    hide NextAt, WalkAll, Walk, FirstNear, U64, Log;
    TailOfWhole(cs);
    ScanCutLog(cs, |cs|, []);
    assert cs[..|cs|] == cs && Log(cs) + [] == Log(cs);
  }

  lemma U64Of(x: int)
    requires -1 <= x < 2 * TWO64
    ensures U64(x) == if x < 0 then TWO64 - 1 else if x < TWO64 then x else x - TWO64
  {
    assert x >= TWO64 ==> x % TWO64 == (x - TWO64) % TWO64;
    assert x < 0 ==> x % TWO64 == (x + TWO64) % TWO64;
  }

  /** The early return is taken exactly when the file ends at or before start_height + 1 --
      except that an empty file starting at block 0 slips past it and one that ends beyond the
      64-bit range is taken for one that ends near zero, because the sum wraps. */
  lemma EarlyReturnExactly(cs: seq<Chunk>, blockFirst: nat, startHeight: nat)
    requires |cs| < TWO64 && blockFirst < TWO64 && startHeight < TWO64
    ensures var end := |cs| + blockFirst;
            SeekFrom(Log(cs), blockFirst, startHeight) == EarlyReturn <==>
            if end == 0 then startHeight == TWO64 - 1
            else if end <= TWO64 then end <= startHeight + 1
            else end - TWO64 <= startHeight + 1
  {
    hide Outcome, FirstNear, Walk, Log, ScanResult, U64;
    ScanTotal(cs, blockFirst, startHeight);
    U64Of(|cs| + blockFirst - 1);
    NotEarly(cs, blockFirst, startHeight);
  }

  /** What follows the early return is never mistaken for it. */
  lemma NotEarly(cs: seq<Chunk>, blockFirst: nat, startHeight: nat)
    ensures ScanResult(Log(cs), blockFirst, startHeight).Blocks? ==>
              (SeekFrom(Log(cs), blockFirst, startHeight) == EarlyReturn <==>
               U64(ScanResult(Log(cs), blockFirst, startHeight).h + blockFirst - 1) <= startHeight)
  {
    hide Outcome, ScanResult, Log, U64;
  }

  /** Past the early return of a file that is not empty at block 0, the position is that of the
      chunk for the height count_blocks reports. */
  lemma PositionIsOfSeekHeight(cs: seq<Chunk>, blockFirst: nat, startHeight: nat) returns (skipped: nat)
    requires SmallHeights(|cs|, blockFirst, startHeight)
    requires |cs| + blockFirst >= startHeight + 2
    ensures skipped <= |cs|
    ensures ScanResult(Log(cs), blockFirst, startHeight) ==
              Blocks(|cs|, Some(|Log(cs[..skipped])|), skipped + blockFirst)
    ensures blockFirst < startHeight ==> skipped + blockFirst < startHeight
    ensures blockFirst >= startHeight ==> skipped == 0
  {
    hide FirstNear, Log, Walk;
    ScanWhole(cs, blockFirst, startHeight);
    var k := NearBatch(|cs|, blockFirst, startHeight);
    skipped := PROGRESS_INTERVAL * k;
    SmallU64(skipped + blockFirst);
    WalkLog(cs, [], skipped, true);
    assert Log(cs) + [] == Log(cs);
  }

  lemma SeekPastEarlyReturn(cs: seq<Chunk>, blockFirst: nat, startHeight: nat) returns (skipped: nat)
    requires SmallHeights(|cs|, blockFirst, startHeight) && |cs| + blockFirst >= startHeight + 2
    ensures skipped <= |cs|
    ensures blockFirst < startHeight ==> skipped + blockFirst < startHeight
    ensures blockFirst >= startHeight ==> skipped == 0
    ensures SeekFrom(Log(cs), blockFirst, startHeight) ==
              SkipResult(Outcome(Log(cs), |Log(cs[..skipped])|,
                                 Asked(U64(startHeight - (skipped + blockFirst))), false))
  {
    hide Log, ScanResult, Walk, Outcome;
    skipped := PositionIsOfSeekHeight(cs, blockFirst, startHeight);
    SmallU64(|cs| + blockFirst - 1);
  }

  /** Past the early return, the block loop starts on the chunk of start_height if and only if
      the file's first block lies below start_height. */
  lemma LandsOnStartHeight(cs: seq<Chunk>, blockFirst: nat, startHeight: nat)
    requires SmallHeights(|cs|, blockFirst, startHeight) && |cs| + blockFirst >= startHeight + 2
    ensures blockFirst < startHeight ==>
              SeekFrom(Log(cs), blockFirst, startHeight) == Landed(|Log(cs[..startHeight - blockFirst])|)
    ensures blockFirst == startHeight ==> SeekFrom(Log(cs), blockFirst, startHeight) == Landed(|Log(cs[..1])|)
    ensures blockFirst > startHeight ==> SeekFrom(Log(cs), blockFirst, startHeight) == SkipQuit
    ensures startHeight >= blockFirst &&
            SeekFrom(Log(cs), blockFirst, startHeight) == Landed(|Log(cs[..startHeight - blockFirst])|)
            <==> blockFirst < startHeight
  {
    hide Log, ScanResult, Walk, SeekFrom, U64;
    var skipped := SeekPastEarlyReturn(cs, blockFirst, startHeight);
    if blockFirst <= startHeight {
      AheadInLog(cs, [], 0, false);
      var n := startHeight - (skipped + blockFirst);
      SmallU64(n);
      SkipInLog(cs, skipped, Asked(n));
    } else {
      WrapsToHuge(startHeight, blockFirst);
      hide Outcome;
      SkipRunsOut(cs, U64(startHeight - blockFirst));
    }
  }

  lemma WrapsToHuge(a: nat, b: nat)
    requires a < b < TWO64
    ensures U64(a - b) == TWO64 + a - b
  {
    assert (a - b) % TWO64 == (a - b + TWO64) % TWO64;
  }

  /** Asked for more chunks than there are, the unsized count runs into the end of the file. */
  lemma SkipRunsOut(cs: seq<Chunk>, n: nat)
    requires n > |cs|
    ensures Outcome(Log(cs), |Log(cs[..0])|, Asked(n), false).Counted?
    ensures Outcome(Log(cs), |Log(cs[..0])|, Asked(n), false).quit
  {
    var body := Log(cs);
    SkipInLog(cs, 0, |cs|);
    assert cs[..|cs|] == cs;
    hide Log;
    WalkStuck(body, |Log(cs[..0])|, |cs|, n, false);
  }

  /** The position is left unset exactly for the empty file at block 0 and heights from 12 on. */
  lemma UnsetExactly(cs: seq<Chunk>, blockFirst: nat, startHeight: nat)
    requires SmallHeights(|cs|, blockFirst, startHeight)
    ensures SeekFrom(Log(cs), blockFirst, startHeight) == UnsetPosition <==> |cs| + blockFirst == 0 && startHeight >= 12
  {
    hide Log, Walk, Outcome, ScanResult;
    if |cs| + blockFirst >= startHeight + 2 {
      var skipped := SeekPastEarlyReturn(cs, blockFirst, startHeight);
    } else if |cs| + blockFirst > 0 {
      EarlyReturnExactly(cs, blockFirst, startHeight);
    } else {
      ScanWhole(cs, blockFirst, startHeight);
      assert FirstNear(0, 1, 0, startHeight) == if startHeight >= 12 then None else Some(0);
    }
  }
}
