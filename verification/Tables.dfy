/**
 Capacity tables of the QR encoder, and the block layout they give each version and level.
 */
module Tables {
  import opened Masking
  import opened Interleave

  const MIN_VERSION := 1
  const MAX_VERSION := 40

  // ECC_CODEWORDS_PER_BLOCK, one function a row; entry 0 is the source's illegal padding value.

  function EccLow(ver: nat): int {
    match ver
    case 0 => -1 case 1 => 7 case 2 => 10 case 3 => 15 case 4 => 20 case 5 => 26 case 6 => 18 case 7 => 20
    case 8 => 24 case 9 => 30 case 10 => 18 case 11 => 20 case 12 => 24 case 13 => 26 case 14 => 30 case 15 => 22
    case 16 => 24 case 17 => 28 case 18 => 30 case 19 => 28 case 20 => 28 case 21 => 28 case 22 => 28 case 23 => 30
    case 24 => 30 case 25 => 26 case 26 => 28 case 27 => 30 case 28 => 30 case 29 => 30 case 30 => 30 case 31 => 30
    case 32 => 30 case 33 => 30 case 34 => 30 case 35 => 30 case 36 => 30 case 37 => 30 case 38 => 30 case 39 => 30
    case _ => 30
  }

  function EccMedium(ver: nat): int {
    match ver
    case 0 => -1 case 1 => 10 case 2 => 16 case 3 => 26 case 4 => 18 case 5 => 24 case 6 => 16 case 7 => 18
    case 8 => 22 case 9 => 22 case 10 => 26 case 11 => 30 case 12 => 22 case 13 => 22 case 14 => 24 case 15 => 24
    case 16 => 28 case 17 => 28 case 18 => 26 case 19 => 26 case 20 => 26 case 21 => 26 case 22 => 28 case 23 => 28
    case 24 => 28 case 25 => 28 case 26 => 28 case 27 => 28 case 28 => 28 case 29 => 28 case 30 => 28 case 31 => 28
    case 32 => 28 case 33 => 28 case 34 => 28 case 35 => 28 case 36 => 28 case 37 => 28 case 38 => 28 case 39 => 28
    case _ => 28
  }

  function EccQuartile(ver: nat): int {
    match ver
    case 0 => -1 case 1 => 13 case 2 => 22 case 3 => 18 case 4 => 26 case 5 => 18 case 6 => 24 case 7 => 18
    case 8 => 22 case 9 => 20 case 10 => 24 case 11 => 28 case 12 => 26 case 13 => 24 case 14 => 20 case 15 => 30
    case 16 => 24 case 17 => 28 case 18 => 28 case 19 => 26 case 20 => 30 case 21 => 28 case 22 => 30 case 23 => 30
    case 24 => 30 case 25 => 30 case 26 => 28 case 27 => 30 case 28 => 30 case 29 => 30 case 30 => 30 case 31 => 30
    case 32 => 30 case 33 => 30 case 34 => 30 case 35 => 30 case 36 => 30 case 37 => 30 case 38 => 30 case 39 => 30
    case _ => 30
  }

  function EccHigh(ver: nat): int {
    match ver
    case 0 => -1 case 1 => 17 case 2 => 28 case 3 => 22 case 4 => 16 case 5 => 22 case 6 => 28 case 7 => 26
    case 8 => 26 case 9 => 24 case 10 => 28 case 11 => 24 case 12 => 28 case 13 => 22 case 14 => 24 case 15 => 24
    case 16 => 30 case 17 => 28 case 18 => 28 case 19 => 26 case 20 => 28 case 21 => 30 case 22 => 24 case 23 => 30
    case 24 => 30 case 25 => 30 case 26 => 30 case 27 => 30 case 28 => 30 case 29 => 30 case 30 => 30 case 31 => 30
    case 32 => 30 case 33 => 30 case 34 => 30 case 35 => 30 case 36 => 30 case 37 => 30 case 38 => 30 case 39 => 30
    case _ => 30
  }

  // NUM_ERROR_CORRECTION_BLOCKS, one function a row; entry 0 is the source's illegal padding value.

  function BlocksLow(ver: nat): int {
    match ver
    case 0 => -1 case 1 => 1 case 2 => 1 case 3 => 1 case 4 => 1 case 5 => 1 case 6 => 2 case 7 => 2 case 8 => 2
    case 9 => 2 case 10 => 4 case 11 => 4 case 12 => 4 case 13 => 4 case 14 => 4 case 15 => 6 case 16 => 6
    case 17 => 6 case 18 => 6 case 19 => 7 case 20 => 8 case 21 => 8 case 22 => 9 case 23 => 9 case 24 => 10
    case 25 => 12 case 26 => 12 case 27 => 12 case 28 => 13 case 29 => 14 case 30 => 15 case 31 => 16 case 32 => 17
    case 33 => 18 case 34 => 19 case 35 => 19 case 36 => 20 case 37 => 21 case 38 => 22 case 39 => 24 case _ => 25
  }

  function BlocksMedium(ver: nat): int {
    match ver
    case 0 => -1 case 1 => 1 case 2 => 1 case 3 => 1 case 4 => 2 case 5 => 2 case 6 => 4 case 7 => 4 case 8 => 4
    case 9 => 5 case 10 => 5 case 11 => 5 case 12 => 8 case 13 => 9 case 14 => 9 case 15 => 10 case 16 => 10
    case 17 => 11 case 18 => 13 case 19 => 14 case 20 => 16 case 21 => 17 case 22 => 17 case 23 => 18 case 24 => 20
    case 25 => 21 case 26 => 23 case 27 => 25 case 28 => 26 case 29 => 28 case 30 => 29 case 31 => 31 case 32 => 33
    case 33 => 35 case 34 => 37 case 35 => 38 case 36 => 40 case 37 => 43 case 38 => 45 case 39 => 47 case _ => 49
  }

  function BlocksQuartile(ver: nat): int {
    match ver
    case 0 => -1 case 1 => 1 case 2 => 1 case 3 => 2 case 4 => 2 case 5 => 4 case 6 => 4 case 7 => 6 case 8 => 6
    case 9 => 8 case 10 => 8 case 11 => 8 case 12 => 10 case 13 => 12 case 14 => 16 case 15 => 12 case 16 => 17
    case 17 => 16 case 18 => 18 case 19 => 21 case 20 => 20 case 21 => 23 case 22 => 23 case 23 => 25 case 24 => 27
    case 25 => 29 case 26 => 34 case 27 => 34 case 28 => 35 case 29 => 38 case 30 => 40 case 31 => 43 case 32 => 45
    case 33 => 48 case 34 => 51 case 35 => 53 case 36 => 56 case 37 => 59 case 38 => 62 case 39 => 65 case _ => 68
  }

  function BlocksHigh(ver: nat): int {
    match ver
    case 0 => -1 case 1 => 1 case 2 => 1 case 3 => 2 case 4 => 4 case 5 => 4 case 6 => 4 case 7 => 5 case 8 => 6
    case 9 => 8 case 10 => 8 case 11 => 11 case 12 => 11 case 13 => 16 case 14 => 16 case 15 => 18 case 16 => 16
    case 17 => 19 case 18 => 21 case 19 => 25 case 20 => 25 case 21 => 25 case 22 => 34 case 23 => 30 case 24 => 32
    case 25 => 35 case 26 => 37 case 27 => 40 case 28 => 42 case 29 => 45 case 30 => 48 case 31 => 51 case 32 => 54
    case 33 => 57 case 34 => 60 case 35 => 63 case 36 => 66 case 37 => 70 case 38 => 74 case 39 => 77 case _ => 81
  }

  function EccCodewordsPerBlock(ecl: Ecc, ver: nat): int {
    match ecl
    case LOW => EccLow(ver)
    case MEDIUM => EccMedium(ver)
    case QUARTILE => EccQuartile(ver)
    case HIGH => EccHigh(ver)
  }

  function NumErrorCorrectionBlocks(ecl: Ecc, ver: nat): int {
    match ecl
    case LOW => BlocksLow(ver)
    case MEDIUM => BlocksMedium(ver)
    case QUARTILE => BlocksQuartile(ver)
    case HIGH => BlocksHigh(ver)
  }

  /** getNumRawDataModules, before its range assertion. */
  function RawDataModules(ver: nat): int {
    var result := (16 * ver + 128) * ver + 64;
    if ver >= 2 then
      var numAlign := ver / 7 + 2;
      result - ((25 * numAlign - 10) * numAlign - 55) - (if ver >= 7 then 36 else 0)
    else result
  }

  /** Raw codewords of each version. */
  function RawCodewords(ver: nat): nat {
    match ver
    case 1 => 26 case 2 => 44 case 3 => 70 case 4 => 100 case 5 => 134 case 6 => 172 case 7 => 196 case 8 => 242
    case 9 => 292 case 10 => 346 case 11 => 404 case 12 => 466 case 13 => 532 case 14 => 581 case 15 => 655
    case 16 => 733 case 17 => 815 case 18 => 901 case 19 => 991 case 20 => 1085 case 21 => 1156 case 22 => 1258
    case 23 => 1364 case 24 => 1474 case 25 => 1588 case 26 => 1706 case 27 => 1828 case 28 => 1921 case 29 => 2051
    case 30 => 2185 case 31 => 2323 case 32 => 2465 case 33 => 2611 case 34 => 2761 case 35 => 2876 case 36 => 3034
    case 37 => 3196 case 38 => 3362 case 39 => 3532 case _ => 3706
  }

  lemma RawDataModulesAre()
    ensures RawDataModules(1) == 208 && RawDataModules(2) == 359 && RawDataModules(3) == 567 && RawDataModules(4) == 807
    ensures RawDataModules(5) == 1079 && RawDataModules(6) == 1383
    ensures RawDataModules(7) == 1568 && RawDataModules(8) == 1936
    ensures RawDataModules(9) == 2336 && RawDataModules(10) == 2768
    ensures RawDataModules(11) == 3232 && RawDataModules(12) == 3728
    ensures RawDataModules(13) == 4256 && RawDataModules(14) == 4651
    ensures RawDataModules(15) == 5243 && RawDataModules(16) == 5867
    ensures RawDataModules(17) == 6523 && RawDataModules(18) == 7211
    ensures RawDataModules(19) == 7931 && RawDataModules(20) == 8683
    ensures RawDataModules(21) == 9252 && RawDataModules(22) == 10068
    ensures RawDataModules(23) == 10916 && RawDataModules(24) == 11796
    ensures RawDataModules(25) == 12708 && RawDataModules(26) == 13652
    ensures RawDataModules(27) == 14628 && RawDataModules(28) == 15371
    ensures RawDataModules(29) == 16411 && RawDataModules(30) == 17483
    ensures RawDataModules(31) == 18587 && RawDataModules(32) == 19723
    ensures RawDataModules(33) == 20891 && RawDataModules(34) == 22091
    ensures RawDataModules(35) == 23008 && RawDataModules(36) == 24272
    ensures RawDataModules(37) == 25568 && RawDataModules(38) == 26896
    ensures RawDataModules(39) == 28256 && RawDataModules(40) == 29648
  {
  }

  lemma {:induction false} RawCodewordsAre(ver: nat)
    requires 1 <= ver <= 40
    ensures RawDataModules(ver) / 8 == RawCodewords(ver) && 208 <= RawDataModules(ver) <= 29648
  {
    hide RawDataModules;
    RawDataModulesAre();
    match ver {
      case 1 => case 2 => case 3 => case 4 => case 5 => case 6 => case 7 => case 8 =>
      case 9 => case 10 => case 11 => case 12 => case 13 => case 14 => case 15 =>
      case 16 => case 17 => case 18 => case 19 => case 20 => case 21 => case 22 => case 23 =>
      case 24 => case 25 => case 26 => case 27 => case 28 => case 29 => case 30 =>
      case 31 => case 32 => case 33 => case 34 => case 35 => case 36 => case 37 => case 38 => case 39 => case _ =>
    }
  }

  predicate EntryOk(raw: int, blocks: int, ecc: int) {
    blocks >= 1 && 1 <= ecc <= 30 && (ecc + 1) * blocks <= raw < 255 * blocks
  }

  lemma {:induction false} LowOk(ver: nat)
    requires 1 <= ver <= 40
    ensures EntryOk(RawCodewords(ver), BlocksLow(ver), EccLow(ver))
  {
    match ver {
      case 1 => case 2 => case 3 => case 4 => case 5 => case 6 => case 7 => case 8 =>
      case 9 => case 10 => case 11 => case 12 => case 13 => case 14 => case 15 =>
      case 16 => case 17 => case 18 => case 19 => case 20 => case 21 => case 22 => case 23 =>
      case 24 => case 25 => case 26 => case 27 => case 28 => case 29 => case 30 =>
      case 31 => case 32 => case 33 => case 34 => case 35 => case 36 => case 37 => case 38 => case 39 => case _ =>
    }
  }

  lemma {:induction false} MediumOk(ver: nat)
    requires 1 <= ver <= 40
    ensures EntryOk(RawCodewords(ver), BlocksMedium(ver), EccMedium(ver))
  {
    match ver {
      case 1 => case 2 => case 3 => case 4 => case 5 => case 6 => case 7 => case 8 =>
      case 9 => case 10 => case 11 => case 12 => case 13 => case 14 => case 15 =>
      case 16 => case 17 => case 18 => case 19 => case 20 => case 21 => case 22 => case 23 =>
      case 24 => case 25 => case 26 => case 27 => case 28 => case 29 => case 30 =>
      case 31 => case 32 => case 33 => case 34 => case 35 => case 36 => case 37 => case 38 => case 39 => case _ =>
    }
  }

  lemma {:induction false} QuartileOk(ver: nat)
    requires 1 <= ver <= 40
    ensures EntryOk(RawCodewords(ver), BlocksQuartile(ver), EccQuartile(ver))
  {
    match ver {
      case 1 => case 2 => case 3 => case 4 => case 5 => case 6 => case 7 => case 8 =>
      case 9 => case 10 => case 11 => case 12 => case 13 => case 14 => case 15 =>
      case 16 => case 17 => case 18 => case 19 => case 20 => case 21 => case 22 => case 23 =>
      case 24 => case 25 => case 26 => case 27 => case 28 => case 29 => case 30 =>
      case 31 => case 32 => case 33 => case 34 => case 35 => case 36 => case 37 => case 38 => case 39 => case _ =>
    }
  }

  lemma {:induction false} HighOk(ver: nat)
    requires 1 <= ver <= 40
    ensures EntryOk(RawCodewords(ver), BlocksHigh(ver), EccHigh(ver))
  {
    match ver {
      case 1 => case 2 => case 3 => case 4 => case 5 => case 6 => case 7 => case 8 =>
      case 9 => case 10 => case 11 => case 12 => case 13 => case 14 => case 15 =>
      case 16 => case 17 => case 18 => case 19 => case 20 => case 21 => case 22 => case 23 =>
      case 24 => case 25 => case 26 => case 27 => case 28 => case 29 => case 30 =>
      case 31 => case 32 => case 33 => case 34 => case 35 => case 36 => case 37 => case 38 => case 39 => case _ =>
    }
  }

  /** No table entry trips the range assertion, and each describes a usable layout. */
  lemma TablesOk(ecl: Ecc, ver: nat)
    requires 1 <= ver <= 40
    ensures EntryOk(RawCodewords(ver), NumErrorCorrectionBlocks(ecl, ver), EccCodewordsPerBlock(ecl, ver))
  {
    match ecl
    case LOW => LowOk(ver);
    case MEDIUM => MediumOk(ver);
    case QUARTILE => QuartileOk(ver);
    case HIGH => HighOk(ver);
  }

  /** getNumDataCodewords. */
  function NumDataCodewords(ver: nat, ecl: Ecc): int {
    RawDataModules(ver) / 8 - EccCodewordsPerBlock(ecl, ver) * NumErrorCorrectionBlocks(ecl, ver)
  }

  lemma QuotientBounds(raw: nat, blocks: nat, ecc: nat)
    requires blocks >= 1 && (ecc + 1) * blocks <= raw < 255 * blocks
    ensures ecc < raw / blocks < 255
  {
    var q := raw / blocks;
    assert raw < (q + 1) * blocks;
    assert q > ecc by { OrderByProduct(ecc + 1, q + 1, blocks); }
    assert q < 255 by { OrderByProduct(q, 255, blocks); }
  }

  lemma OrderByProduct(a: nat, b: nat, c: nat)
    requires a * c < b * c
    ensures a < b
  {
  }

  /** The layout addEccAndInterleave derives for a version and level. */
  function LayoutOf(ecl: Ecc, ver: nat): (l: Layout)
    requires 1 <= ver <= 40
    ensures l.Valid() && l.shortBlockLen < 255
    ensures l.RawCodewords() == RawDataModules(ver) / 8
    ensures l.NumDataCodewords() == NumDataCodewords(ver, ecl) > 0
  {
    hide RawDataModules, NumErrorCorrectionBlocks, EccCodewordsPerBlock;
    TablesOk(ecl, ver);
    RawCodewordsAre(ver);
    var raw, blocks, ecc := RawDataModules(ver) / 8, NumErrorCorrectionBlocks(ecl, ver), EccCodewordsPerBlock(ecl, ver);
    DerivedOk(blocks, ecc, raw);
    Derive(blocks, ecc, raw)
  }

  lemma DerivedOk(blocks: nat, ecc: nat, raw: nat)
    requires EntryOk(raw, blocks, ecc)
    ensures var l := Derive(blocks, ecc, raw);
            l.Valid() && l.shortBlockLen < 255 && l.NumDataCodewords() == raw - ecc * blocks > 0
  {
    hide Layout.RawCodewords;
    QuotientBounds(raw, blocks, ecc);
    assert (ecc + 1) * blocks == ecc * blocks + blocks;
  }
}
