/**
 Runs of the block store: after any adding and popping, the store is the one built from the
 blocks that are left.
 */
module BlockRuns {
  import opened BlockExact
  import opened BlockStore
  import opened BlockUndo
  import opened Options

  datatype Entry = Entry(block: Block, txs: seq<Tx>)

  function AllTxs(e: Entry): seq<Tx> {
    [e.block.minerTx] + e.txs
  }

  /** The store built by adding blocks in order. */
  function Build(chain: seq<Entry>): Option<Store> {
    if chain == [] then Some(EMPTY)
    else
      match Build(chain[..|chain| - 1])
      case None => None
      case Some(s) => AddBlock(s, chain[|chain| - 1].block, chain[|chain| - 1].txs)
  }

  datatype Op = Add(entry: Entry) | Pop

  function Step(s: Store, op: Op): Option<Store> {
    match op
    case Add(e) => AddBlock(s, e.block, e.txs)
    case Pop => PopBlock(s)
  }

  /** The store after a run of operations none of which fails. */
  function Run(ops: seq<Op>): Option<Store> {
    if ops == [] then Some(EMPTY)
    else
      match Run(ops[..|ops| - 1])
      case None => None
      case Some(s) => Step(s, ops[|ops| - 1])
  }

  /** The blocks left after a run. */
  function Left(ops: seq<Op>): seq<Entry> {
    if ops == [] then []
    else
      var before := Left(ops[..|ops| - 1]);
      match ops[|ops| - 1]
      case Add(e) => before + [e]
      case Pop => if before == [] then [] else before[..|before| - 1]
  }

  lemma BuildStep(chain: seq<Entry>)
    requires chain != [] && Build(chain).Some?
    ensures var s := Build(chain[..|chain| - 1]);
            s.Some? && AddBlock(s.value, chain[|chain| - 1].block, chain[|chain| - 1].txs) == Build(chain)
  {
  }

  lemma {:induction false} BuiltIsNeat(chain: seq<Entry>)
    requires Build(chain).Some?
    ensures Neat(Build(chain).value)
    decreases |chain|
  {
    hide AddBlock;
    if chain != [] {
      BuildStep(chain);
      BuiltIsNeat(chain[..|chain| - 1]);
      PopUndoesAdd(Build(chain[..|chain| - 1]).value, chain[|chain| - 1].block, chain[|chain| - 1].txs);
    }
  }

  lemma NothingToPop()
    ensures PopBlock(EMPTY).None?
  {
  }

  /** The top block of a built store is popped exactly when the parser lets its transactions through. */
  lemma PopBuilt(chain: seq<Entry>)
    requires Build(chain).Some?
    ensures PopBlock(Build(chain).value) ==
            if chain != [] && AllParse(AllTxs(chain[|chain| - 1])) then Build(chain[..|chain| - 1]) else None
  {
    hide AddBlock, PopBlock, Parses;
    if chain == [] {
      NothingToPop();
    } else {
      var front, e := chain[..|chain| - 1], chain[|chain| - 1];
      BuildStep(chain);
      BuiltIsNeat(front);
      PopUndoesAdd(Build(front).value, e.block, e.txs);
      AllTxsParse(e);
    }
  }

  lemma AllTxsParse(e: Entry)
    ensures AllParse(AllTxs(e)) <==> Parses(e.block.minerTx) && AllParse(e.txs)
  {
    hide Parses;
    assert AllTxs(e)[0] == e.block.minerTx;
    assert forall i :: 0 <= i < |e.txs| ==> AllTxs(e)[i + 1] == e.txs[i];
    forall i | 0 <= i < |AllTxs(e)| && Parses(e.block.minerTx) && AllParse(e.txs) ensures Parses(AllTxs(e)[i]) {
      assert i > 0 ==> AllTxs(e)[i] == e.txs[i - 1];
    }
  }

  /** Every run without a failure leaves the store that adding just the remaining blocks builds. */
  lemma {:induction false} RunIsBuild(ops: seq<Op>)
    requires Run(ops).Some?
    ensures Build(Left(ops)) == Run(ops)
    decreases |ops|
  {
    hide AddBlock, PopBlock, AllParse;
    if ops != [] {
      var front, op := ops[..|ops| - 1], ops[|ops| - 1];
      RunIsBuild(front);
      var before := Left(front);
      match op {
        case Add(e) => assert (before + [e])[..|before|] == before;
        case Pop => PopBuilt(before);
      }
    }
  }

  /** After a run, another pop fails only on an empty chain or a top block with a transaction the parser refuses. */
  lemma PopFailsExactly(ops: seq<Op>)
    requires Run(ops).Some?
    ensures Run(ops + [Pop]).None? <==> Left(ops) == [] || !AllParse(AllTxs(Left(ops)[|Left(ops)| - 1]))
  {
    hide AddBlock, PopBlock, AllParse, Left;
    assert (ops + [Pop])[..|ops|] == ops;
    RunIsBuild(ops);
    var chain := Left(ops);
    PopBuilt(chain);
    if chain != [] {
      BuildStep(chain);
    }
  }

  // ---- What a built store holds --------------------------------------------------------------------

  function ImagesOfAll(txs: seq<Tx>): set<Key> {
    if txs == [] then {} else ImagesOfAll(txs[..|txs| - 1]) + Images(txs[|txs| - 1].vin)
  }

  function ChainImages(chain: seq<Entry>): set<Key> {
    if chain == [] then {}
    else
      var e := chain[|chain| - 1];
      ChainImages(chain[..|chain| - 1]) + Images(e.block.minerTx.vin) + ImagesOfAll(e.txs)
  }

  /** Keys run from zero without gaps. */
  ghost predicate Contiguous<T(!new)>(t: Table<T>) {
    forall i :: 0 <= i < |t| ==> t[i].key == i
  }

  /** All tables are numbered without gaps, those of each amount included. */
  ghost predicate Numbered(s: Store) {
    && Contiguous(s.txs) && Contiguous(s.txOutputs) && Contiguous(s.outputTxs) && |s.txOutputs| == |s.txs|
    && forall a :: a in s.outputs ==> Contiguous(s.outputs[a])
  }

  lemma OutputNumbered(s: Store, hash: Hash, amount: nat, out: Output, local: nat, unlockTime: nat, c: Commitment)
    requires Numbered(s) && AddOutput(s, hash, amount, out, local, unlockTime, c).Some?
    ensures Numbered(AddOutput(s, hash, amount, out, local, unlockTime, c).value)
  {
  }

  lemma {:induction false} OutputsNumbered(s: Store, hash: Hash, tx: Tx, n: nat)
    requires n <= |tx.vout| && Numbered(s) && AddOutputs(s, hash, tx, n).Some?
    ensures Numbered(AddOutputs(s, hash, tx, n).value.0)
    decreases n
  {
    hide AddOutput, Numbered, AmountStored, CommitmentStored;
    if n > 0 {
      OutputsNumbered(s, hash, tx, n - 1);
      OutputNumbered(AddOutputs(s, hash, tx, n - 1).value.0, hash, AmountStored(tx, n - 1), tx.vout[n - 1], n - 1,
                     tx.unlockTime, CommitmentStored(tx, n - 1));
    }
  }

  /** Adding a transaction: its key images join the spent ones, it is stored, and numbering stays without gaps. */
  lemma TxAdded(s: Store, hash: Hash, tx: Tx)
    requires AddTx(s, hash, tx).Some?
    ensures var s' := AddTx(s, hash, tx).value;
            && s'.spent == s.spent + Images(tx.vin) && Images(tx.vin) !! s.spent
            && s'.blocks == s.blocks && s'.heights == s.heights
            && |Under(s', 0)| == |Under(s, 0)| + StoredCount(tx, 0, |tx.vout|)
  {
    hide AddSpent, AddOutputs, Append, Images, StoredCount;
    var s1 := AddSpent(s, tx.vin).value;
    SpentAdded(s, tx.vin);
    var s2 := AddTxData(s1, hash, tx).value;
    OutputsFrame(s2, hash, tx, |tx.vout|);
    AddedUnder(s2, hash, tx, |tx.vout|, 0);
  }

  /** Room for the new row is already counted while the outputs are added. */
  lemma TxNumbered(s: Store, hash: Hash, tx: Tx)
    requires AddTx(s, hash, tx).Some? && Numbered(s)
    ensures Numbered(AddTx(s, hash, tx).value)
  {
    hide AddSpent, AddOutputs, Images, Append;
    var s1 := AddSpent(s, tx.vin).value;
    SpentAdded(s, tx.vin);
    var s2 := AddTxData(s1, hash, tx).value;
    var n := |tx.vout|;
    OutputsFrame(s2, hash, tx, n);
    var (s3, indices) := AddOutputs(s2, hash, tx, n).value;
    AppendIs(s.txs, |s.txs|, tx);
    AppendIs(s.txOutputs, |s.txs|, indices);
    var bare := s2.(txs := s.txs);
    OutputsMove(s2, bare, hash, tx, n);
    OutputsNumbered(bare, hash, tx, n);
  }

  lemma AppendIs<T>(t: Table<T>, key: nat, value: T)
    requires Append(t, key, value).Some?
    ensures Append(t, key, value).value == t + [Row(key, value)]
  {
  }

  lemma OutputMoves(s: Store, t: Store, hash: Hash, amount: nat, out: Output, local: nat, unlockTime: nat,
                    c: Commitment)
    requires SameOutputs(s, t) && s.blocks == t.blocks
    ensures var x := AddOutput(s, hash, amount, out, local, unlockTime, c);
            var y := AddOutput(t, hash, amount, out, local, unlockTime, c);
            (x.Some? <==> y.Some?) && (x.Some? ==> SameOutputs(x.value, y.value) && x.value.blocks == y.value.blocks)
    ensures Under(s, amount) == Under(t, amount)
  {
    hide Append;
  }

  /** Adding outputs looks at no more than the output tables and the height. */
  lemma {:induction false} OutputsMove(s: Store, t: Store, hash: Hash, tx: Tx, n: nat)
    requires n <= |tx.vout| && AddOutputs(s, hash, tx, n).Some? && SameOutputs(s, t) && s.blocks == t.blocks
    ensures AddOutputs(t, hash, tx, n).Some?
    ensures SameOutputs(AddOutputs(s, hash, tx, n).value.0, AddOutputs(t, hash, tx, n).value.0)
    ensures AddOutputs(s, hash, tx, n).value.0.blocks == AddOutputs(t, hash, tx, n).value.0.blocks
    ensures AddOutputs(s, hash, tx, n).value.1 == AddOutputs(t, hash, tx, n).value.1
    decreases n
  {
    hide AddOutput, AmountStored, CommitmentStored;
    if n > 0 {
      OutputsMove(s, t, hash, tx, n - 1);
      OutputMoves(AddOutputs(s, hash, tx, n - 1).value.0, AddOutputs(t, hash, tx, n - 1).value.0, hash,
                  AmountStored(tx, n - 1), tx.vout[n - 1], n - 1, tx.unlockTime, CommitmentStored(tx, n - 1));
    }
  }

  function StoredUnderZero(txs: seq<Tx>): nat {
    if txs == [] then 0
    else StoredUnderZero(txs[..|txs| - 1]) + StoredCount(txs[|txs| - 1], 0, |txs[|txs| - 1].vout|)
  }

  lemma {:induction false} TxsAdded(s: Store, hashes: seq<Hash>, txs: seq<Tx>)
    requires |hashes| == |txs| && AddTxs(s, hashes, txs).Some?
    ensures var s' := AddTxs(s, hashes, txs).value;
            && s'.spent == s.spent + ImagesOfAll(txs) && s'.blocks == s.blocks && s'.heights == s.heights
            && |Under(s', 0)| == |Under(s, 0)| + StoredUnderZero(txs)
            && (Numbered(s) ==> Numbered(s'))
    decreases |hashes|
  {
    hide AddTx, Images, Numbered, StoredCount, Under;
    if hashes != [] {
      var n := |hashes| - 1;
      TxsAdded(s, hashes[..n], txs[..n]);
      var before := AddTxs(s, hashes[..n], txs[..n]).value;
      TxAdded(before, hashes[n], txs[n]);
      if Numbered(s) {
        TxNumbered(before, hashes[n], txs[n]);
      }
    }
  }

  lemma BlockAdded(s: Store, b: Block, txs: seq<Tx>)
    requires AddBlock(s, b, txs).Some?
    ensures var s' := AddBlock(s, b, txs).value;
            && s'.spent == s.spent + Images(b.minerTx.vin) + ImagesOfAll(txs)
            && |Under(s', 0)| == |Under(s, 0)| + StoredCount(b.minerTx, 0, |b.minerTx.vout|) + StoredUnderZero(txs)
            && (Numbered(s) ==> Numbered(s'))
            && |s'.blocks| == |s.blocks| + 1 && s'.blocks[..|s.blocks|] == s.blocks && s'.blocks[|s.blocks|].block == b
            && s'.blocks[|s.blocks|].cumRct ==
               NumRctOuts(b, txs) +
               (if b.majorVersion >= 4 && s.blocks != [] then s.blocks[|s.blocks| - 1].cumRct else 0)
  {
    hide AddTx, AddTxs, Images, ImagesOfAll, StoredCount, StoredUnderZero, NumRctOuts;
    TxAdded(s, b.minerHash, b.minerTx);
    var s1 := AddTx(s, b.minerHash, b.minerTx).value;
    TxsAdded(s1, b.txHashes, txs);
    if Numbered(s) {
      TxNumbered(s, b.minerHash, b.minerTx);
    }
  }

  /** The spent keys are exactly the key images on the chain, and all numbering is without gaps. */
  lemma {:induction false} BuiltStore(chain: seq<Entry>)
    requires Build(chain).Some?
    ensures var s := Build(chain).value;
            && s.spent == ChainImages(chain) && Numbered(s) && |s.blocks| == |chain|
            && forall i :: 0 <= i < |chain| ==> s.blocks[i].block == chain[i].block
    decreases |chain|
  {
    hide AddBlock, Images, ImagesOfAll;
    if chain != [] {
      hide Numbered;
      var n := |chain| - 1;
      BuildStep(chain);
      BuiltStore(chain[..n]);
      BlockAdded(Build(chain[..n]).value, chain[n].block, chain[n].txs);
    } else {
      NothingNumbered();
    }
  }

  lemma NothingNumbered()
    ensures Numbered(EMPTY)
  {
  }

  // ---- Counting outputs under amount zero ----------------------------------------------------------

  lemma {:induction false} ZeroesOf(tx: Tx, n: nat)
    requires n <= |tx.vout|
    ensures !StoredAsZero(tx) ==> StoredCount(tx, 0, n) == ZeroAmounts(tx.vout[..n])
    ensures StoredAsZero(tx) ==> StoredCount(tx, 0, n) == n
    decreases n
  {
    hide HasGen;
    if n > 0 {
      ZeroesOf(tx, n - 1);
      assert tx.vout[..n][..n - 1] == tx.vout[..n - 1];
    }
  }

  lemma ZeroesStored(tx: Tx)
    ensures StoredCount(tx, 0, |tx.vout|) == if StoredAsZero(tx) then |tx.vout| else ZeroAmounts(tx.vout)
  {
    ZeroesOf(tx, |tx.vout|);
    assert tx.vout[..|tx.vout|] == tx.vout;
  }

  lemma {:induction false} ZeroesOfAll(txs: seq<Tx>)
    requires forall i :: 0 <= i < |txs| ==> !HasGen(txs[i])
    ensures StoredUnderZero(txs) == ZeroAmountsOfAll(txs)
    decreases |txs|
  {
    hide HasGen, StoredCount, ZeroAmounts;
    if txs != [] {
      ZeroesOfAll(txs[..|txs| - 1]);
      ZeroesStored(txs[|txs| - 1]);
    }
  }

  /** The block's own transaction alone generates coins. */
  ghost predicate UsualBlock(e: Entry) {
    HasGen(e.block.minerTx) && forall i :: 0 <= i < |e.txs| ==> !HasGen(e.txs[i])
  }

  /** The count is exact just when the block's own transaction is of version 2 or has no output of amount zero. */
  lemma RctCountExactly(e: Entry)
    requires UsualBlock(e)
    ensures NumRctOuts(e.block, e.txs) ==
            StoredCount(e.block.minerTx, 0, |e.block.minerTx.vout|) + StoredUnderZero(e.txs)
            <==> (e.block.minerTx.version == 2 || ZeroAmounts(e.block.minerTx.vout) == 0)
  {
    hide HasGen, StoredCount, StoredUnderZero, ZeroAmounts;
    ZeroesStored(e.block.minerTx);
    ZeroesOfAll(e.txs);
  }

  /** Outputs of version 1 carry no commitment, so none of them has amount zero. */
  lemma {:induction false} NoZeroAmounts(s: Store, hash: Hash, tx: Tx, n: nat)
    requires n <= |tx.vout| && tx.version == 1 && AddOutputs(s, hash, tx, n).Some?
    ensures ZeroAmounts(tx.vout[..n]) == 0
    decreases n
  {
    hide Append, HasGen;
    if n > 0 {
      NoZeroAmounts(s, hash, tx, n - 1);
      assert tx.vout[..n][..n - 1] == tx.vout[..n - 1];
    }
  }

  lemma AcceptedAmounts(s: Store, hash: Hash, tx: Tx)
    requires AddTx(s, hash, tx).Some?
    ensures tx.version == 2 || ZeroAmounts(tx.vout) == 0
  {
    hide AddSpent, AddOutputs, Append, ZeroAmounts;
    if tx.version == 1 {
      NoZeroAmounts(AddTxData(AddSpent(s, tx.vin).value, hash, tx).value, hash, tx, |tx.vout|);
      assert tx.vout[..|tx.vout|] == tx.vout;
    }
  }

  /** For every block that is taken in, the count it reports is the number of outputs it stores under amount zero. */
  lemma AcceptedCount(s: Store, e: Entry)
    requires UsualBlock(e) && AddBlock(s, e.block, e.txs).Some?
    ensures NumRctOuts(e.block, e.txs) ==
            StoredCount(e.block.minerTx, 0, |e.block.minerTx.vout|) + StoredUnderZero(e.txs)
  {
    hide UsualBlock, StoredCount, StoredUnderZero, ZeroAmounts, NumRctOuts, AddTx, AddTxs;
    AcceptedAmounts(s, e.block.minerHash, e.block.minerTx);
    RctCountExactly(e);
  }

  /** The last block that starts the running count anew: one below major version 4, or else the first. */
  function LastReset(chain: seq<Entry>): (r: nat)
    requires chain != []
    ensures r < |chain| && (r == 0 || chain[r].block.majorVersion < 4)
    ensures forall i :: r < i < |chain| ==> chain[i].block.majorVersion >= 4
  {
    var n := |chain| - 1;
    if n == 0 || chain[n].block.majorVersion < 4 then n else LastReset(chain[..n])
  }

  /** The running count of the top block is the number of outputs stored under amount zero since the last reset. */
  lemma {:induction false} CountSinceReset(chain: seq<Entry>)
    requires Build(chain).Some? && chain != [] && forall i :: 0 <= i < |chain| ==> UsualBlock(chain[i])
    ensures Build(chain[..LastReset(chain)]).Some?
    ensures var s, before := Build(chain).value, Build(chain[..LastReset(chain)]).value;
            |s.blocks| == |chain| && s.blocks[|s.blocks| - 1].cumRct + |Under(before, 0)| == |Under(s, 0)|
    decreases |chain|
  {
    hide AddBlock, UsualBlock, StoredCount, StoredUnderZero, NumRctOuts, Numbered, ChainImages, Images,
         ImagesOfAll, Under;
    var n := |chain| - 1;
    BuildStep(chain);
    BuiltStore(chain[..n]);
    var s := Build(chain[..n]).value;
    BlockAdded(s, chain[n].block, chain[n].txs);
    AcceptedCount(s, chain[n]);
    if n > 0 && chain[n].block.majorVersion >= 4 {
      CountSinceReset(chain[..n]);
      assert chain[..n][..LastReset(chain[..n])] == chain[..LastReset(chain)];
    }
  }

  /** It is the number of all of them exactly when nothing was stored under amount zero before the last reset. */
  lemma CumulativeIsExact(chain: seq<Entry>)
    requires Build(chain).Some? && chain != [] && forall i :: 0 <= i < |chain| ==> UsualBlock(chain[i])
    ensures Build(chain[..LastReset(chain)]).Some?
    ensures var s, before := Build(chain).value, Build(chain[..LastReset(chain)]).value;
            && |s.blocks| == |chain|
            && (s.blocks[|s.blocks| - 1].cumRct == |Under(s, 0)| <==> Under(before, 0) == [])
    ensures LastReset(chain) == 0 ==> Build(chain).value.blocks[|chain| - 1].cumRct == |Under(Build(chain).value, 0)|
  {
    hide UsualBlock, Under, AddBlock;
    CountSinceReset(chain);
    if LastReset(chain) == 0 {
      NoneUnderZero();
      assert chain[..0] == [];
    }
  }

  lemma {:induction false} OldTxsStoreNone(s: Store, hashes: seq<Hash>, txs: seq<Tx>)
    requires |hashes| == |txs| && AddTxs(s, hashes, txs).Some?
    requires forall i :: 0 <= i < |txs| ==> txs[i].version == 1
    ensures StoredUnderZero(txs) == 0
    decreases |txs|
  {
    hide AddTx, StoredCount;
    if txs != [] {
      var n := |txs| - 1;
      OldTxsStoreNone(s, hashes[..n], txs[..n]);
      OldTxStoresNone(AddTxs(s, hashes[..n], txs[..n]).value, hashes[n], txs[n]);
    }
  }

  lemma OldTxStoresNone(s: Store, hash: Hash, tx: Tx)
    requires AddTx(s, hash, tx).Some? && tx.version == 1
    ensures StoredCount(tx, 0, |tx.vout|) == 0
  {
    hide AddTx, StoredCount, ZeroAmounts;
    AcceptedAmounts(s, hash, tx);
    ZeroesStored(tx);
  }

  ghost predicate AllOld(e: Entry) {
    e.block.minerTx.version == 1 && forall i :: 0 <= i < |e.txs| ==> e.txs[i].version == 1
  }

  /** Transactions of version 1 store nothing under amount zero. */
  lemma {:induction false} OldChainStoresNone(chain: seq<Entry>)
    requires Build(chain).Some? && forall i :: 0 <= i < |chain| ==> AllOld(chain[i])
    ensures Under(Build(chain).value, 0) == []
    decreases |chain|
  {
    hide AddTx, AddTxs, StoredCount, StoredUnderZero, Images, ImagesOfAll, Numbered, NumRctOuts, Under;
    if chain == [] {
      NoneUnderZero();
    } else {
      var n := |chain| - 1;
      var e := chain[n];
      OldChainStoresNone(chain[..n]);
      var s := Build(chain[..n]).value;
      BlockAdded(s, e.block, e.txs);
      OldTxStoresNone(s, e.block.minerHash, e.block.minerTx);
      OldTxsStoreNone(AddTx(s, e.block.minerHash, e.block.minerTx).value, e.block.txHashes, e.txs);
    }
  }

  /** So the running count is exact where version 2 transactions came only with or after the last reset. */
  lemma ExactAfterOldBlocks(chain: seq<Entry>)
    requires Build(chain).Some? && chain != [] && forall i :: 0 <= i < |chain| ==> UsualBlock(chain[i])
    requires forall i :: 0 <= i < LastReset(chain) ==> AllOld(chain[i])
    ensures var s := Build(chain).value; |s.blocks| == |chain| && s.blocks[|s.blocks| - 1].cumRct == |Under(s, 0)|
  {
    hide UsualBlock, AllOld, Under, AddBlock;
    CumulativeIsExact(chain);
    OldChainStoresNone(chain[..LastReset(chain)]);
  }

  lemma NoneUnderZero()
    ensures Under(EMPTY, 0) == []
  {
  }

  // ---- When a transaction is accepted ----------------------------------------------------------------

  /** Known input types only, and key images that are new and different from each other. */
  ghost predicate FreshSpends(spent: set<Key>, vin: seq<Input>) {
    && (forall i :: 0 <= i < |vin| ==> !vin[i].OtherInput? && (vin[i].Spend? ==> vin[i].image !in spent))
    && forall i, j :: 0 <= i < j < |vin| && vin[i].Spend? && vin[j].Spend? ==> vin[i].image != vin[j].image
  }

  lemma {:induction false} SpentExactly(s: Store, vin: seq<Input>)
    ensures AddSpent(s, vin).Some? <==> FreshSpends(s.spent, vin)
    decreases |vin|
  {
    if vin != [] {
      var front, last := vin[..|vin| - 1], vin[|vin| - 1];
      SpentExactly(s, front);
      if AddSpent(s, front).Some? {
        SpentAdded(s, front);
        if AddSpent(s, vin).None? && last.Spend? {
          assert last.image in s.spent + Images(front);
        }
      }
    }
  }

  /** Every output that goes under amount zero comes with a commitment. */
  ghost predicate Committed(tx: Tx, n: nat)
    requires n <= |tx.vout|
  {
    forall i :: 0 <= i < n ==> AmountStored(tx, i) == 0 ==> !CommitmentStored(tx, i).Absent?
  }

  lemma OutputExactly(s: Store, hash: Hash, amount: nat, out: Output, local: nat, unlockTime: nat, c: Commitment)
    requires Numbered(s)
    ensures AddOutput(s, hash, amount, out, local, unlockTime, c).Some? <==> !(amount == 0 && c.Absent?)
  {
  }

  lemma {:induction false} OutputsExactly(s: Store, hash: Hash, tx: Tx, n: nat)
    requires n <= |tx.vout| && Numbered(s)
    ensures AddOutputs(s, hash, tx, n).Some? <==> Committed(tx, n)
    decreases n
  {
    hide AddOutput, Numbered, AmountStored, CommitmentStored;
    if n > 0 {
      OutputsExactly(s, hash, tx, n - 1);
      if AddOutputs(s, hash, tx, n - 1).Some? {
        OutputsNumbered(s, hash, tx, n - 1);
        OutputExactly(AddOutputs(s, hash, tx, n - 1).value.0, hash, AmountStored(tx, n - 1), tx.vout[n - 1], n - 1,
                      tx.unlockTime, CommitmentStored(tx, n - 1));
      }
    }
  }

  /**
   A transaction is taken in exactly when its version is known, its hash and key images are new and
   its zero amounts are committed to.
   */
  lemma AcceptedExactly(s: Store, hash: Hash, tx: Tx)
    requires Numbered(s)
    ensures AddTx(s, hash, tx).Some? <==>
            KnownVersion(tx) && FreshSpends(s.spent, tx.vin) && hash !in s.txIndices && Committed(tx, |tx.vout|)
  {
    hide AddOutputs, FreshSpends, Committed;
    SpentExactly(s, tx.vin);
    if AddSpent(s, tx.vin).Some? {
      SpentAdded(s, tx.vin);
      var s1 := AddSpent(s, tx.vin).value;
      if AddTxData(s1, hash, tx).Some? {
        var s2 := AddTxData(s1, hash, tx).value;
        OutputsExactly(s1, hash, tx, |tx.vout|);
        SameSuccess(s1, s2, hash, tx);
        if AddOutputs(s2, hash, tx, |tx.vout|).Some? {
          OutputsFrame(s2, hash, tx, |tx.vout|);
        }
      }
    }
  }

  lemma SameSuccess(s: Store, t: Store, hash: Hash, tx: Tx)
    requires SameOutputs(s, t) && s.blocks == t.blocks
    ensures AddOutputs(s, hash, tx, |tx.vout|).Some? <==> AddOutputs(t, hash, tx, |tx.vout|).Some?
  {
    hide AddOutputs;
    if AddOutputs(s, hash, tx, |tx.vout|).Some? {
      OutputsMove(s, t, hash, tx, |tx.vout|);
    }
    if AddOutputs(t, hash, tx, |tx.vout|).Some? {
      OutputsMove(t, s, hash, tx, |tx.vout|);
    }
  }
}
