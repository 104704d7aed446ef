/**
 What can be looked up in a store built from a chain: every transaction by its hash, every output
 by amount and index and back again, every block by its hash; and the blocks are linked.
 */
module BlockLookup {
  import opened BlockRuns
  import opened BlockStore
  import opened BlockUndo
  import opened Options

  // ---- A stored transaction ------------------------------------------------------------------------

  /** A transaction of version 2 with a generation input. */
  ghost predicate MinedV2(tx: Tx) {
    tx.version == 2 && exists i :: 0 <= i < |tx.vin| && tx.vin[i].Gen?
  }

  /**
   Output k is found at the given index, and its record leads back to the transaction.  Outputs of a
   version 2 coinbase are found under amount zero with a commitment to their amount, others under
   their own amount, and those of amount zero with the commitment the transaction carries for them.
   */
  ghost predicate OutputStored(s: Store, hash: Hash, tx: Tx, height: nat, k: nat, index: nat)
    requires k < |tx.vout|
  {
    var out := tx.vout[k];
    var t := Under(s, if MinedV2(tx) then 0 else out.amount);
    index < |t| &&
    var r := t[index].value;
    && t[index].key == index && r.key == out.key && r.height == height && r.unlockTime == tx.unlockTime
    && r.commitment == (if MinedV2(tx) then ZeroCommit(out.amount)
                        else if out.amount == 0 then Mask(out.mask) else Absent)
    && r.id < |s.outputTxs| && s.outputTxs[r.id].value == OutTx(hash, k)
  }

  ghost predicate OutputsStored(s: Store, hash: Hash, tx: Tx, height: nat, n: nat, indices: seq<nat>)
    requires n <= |tx.vout|
  {
    n <= |indices| && forall k :: 0 <= k < n ==> OutputStored(s, hash, tx, height, k, indices[k])
  }

  /** The transaction is found by its hash, with its height, and its outputs by the indices kept for it. */
  ghost predicate TxStored(s: Store, hash: Hash, tx: Tx, height: nat) {
    && hash in s.txIndices && s.txIndices[hash].height == height && s.txIndices[hash].unlockTime == tx.unlockTime
    && s.txIndices[hash].id < |s.txs| && s.txIndices[hash].id < |s.txOutputs|
    && s.txs[s.txIndices[hash].id].value == tx
    && |s.txOutputs[s.txIndices[hash].id].value| == |tx.vout|
    && OutputsStored(s, hash, tx, height, |tx.vout|, s.txOutputs[s.txIndices[hash].id].value)
  }

  // ---- Later additions keep it stored ----------------------------------------------------------------

  /** The later store has every row of the earlier one, in the same place. */
  ghost predicate Grows(s: Store, t: Store) {
    && s.txs <= t.txs && s.txOutputs <= t.txOutputs && s.outputTxs <= t.outputTxs
    && (forall h :: h in s.txIndices ==> h in t.txIndices && t.txIndices[h] == s.txIndices[h])
    && forall a :: Under(s, a) <= Under(t, a)
  }

  lemma GrowsThrough(s: Store, t: Store, u: Store)
    requires Grows(s, t) && Grows(t, u)
    ensures Grows(s, u)
  {
    hide Under;
    forall a ensures Under(s, a) <= Under(u, a) {
      assert Under(s, a) <= Under(t, a) && Under(t, a) <= Under(u, a);
    }
  }

  lemma OutputStays(s: Store, t: Store, hash: Hash, tx: Tx, height: nat, k: nat, index: nat)
    requires Grows(s, t) && k < |tx.vout| && OutputStored(s, hash, tx, height, k, index)
    ensures OutputStored(t, hash, tx, height, k, index)
  {
    hide Under, MinedV2;
    var amount := if MinedV2(tx) then 0 else tx.vout[k].amount;
    assert Under(s, amount) <= Under(t, amount);
  }

  lemma TxStays(s: Store, t: Store, hash: Hash, tx: Tx, height: nat)
    requires Grows(s, t) && TxStored(s, hash, tx, height)
    ensures TxStored(t, hash, tx, height)
  {
    hide OutputStored;
    forall k | 0 <= k < |tx.vout|
      ensures OutputStored(t, hash, tx, height, k, s.txOutputs[s.txIndices[hash].id].value[k])
    {
      OutputStays(s, t, hash, tx, height, k, s.txOutputs[s.txIndices[hash].id].value[k]);
    }
  }

  // ---- Adding a transaction stores it ----------------------------------------------------------------

  lemma OutputAdded(s: Store, hash: Hash, tx: Tx, k: nat)
    requires Numbered(s) && k < |tx.vout|
    requires AddOutput(s, hash, AmountStored(tx, k), tx.vout[k], k, tx.unlockTime, CommitmentStored(tx, k)).Some?
    ensures var amount, c := AmountStored(tx, k), CommitmentStored(tx, k);
            var t := AddOutput(s, hash, amount, tx.vout[k], k, tx.unlockTime, c).value;
            Grows(s, t) && t.blocks == s.blocks && OutputStored(t, hash, tx, |s.blocks|, k, |Under(s, amount)|)
  {
    assert MinedV2(tx) <==> StoredAsZero(tx);
    hide MinedV2, HasGen;
  }

  lemma {:induction false} OutputsAdded(s: Store, hash: Hash, tx: Tx, n: nat)
    requires Numbered(s) && n <= |tx.vout| && AddOutputs(s, hash, tx, n).Some?
    ensures var (t, indices) := AddOutputs(s, hash, tx, n).value;
            Grows(s, t) && t.blocks == s.blocks && |indices| == n && OutputsStored(t, hash, tx, |s.blocks|, n, indices)
    decreases n
  {
    hide AddOutput, Numbered, OutputStored, AmountStored, CommitmentStored, Under, Grows;
    if n == 0 {
      GrowsFromItself(s);
    } else {
      OutputsAdded(s, hash, tx, n - 1);
      OutputsNumbered(s, hash, tx, n - 1);
      var (before, front) := AddOutputs(s, hash, tx, n - 1).value;
      var (after, indices) := AddOutputs(s, hash, tx, n).value;
      OutputAdded(before, hash, tx, n - 1);
      GrowsThrough(s, before, after);
      forall k | 0 <= k < n ensures OutputStored(after, hash, tx, |s.blocks|, k, indices[k]) {
        if k < n - 1 {
          OutputStays(before, after, hash, tx, |s.blocks|, k, front[k]);
        }
      }
    }
  }

  lemma GrowsFromItself(s: Store)
    ensures Grows(s, s)
  {
  }

  /** A transaction just added can be looked up, and so can all that was stored before. */
  lemma AddedIsStored(s: Store, hash: Hash, tx: Tx)
    requires Numbered(s) && AddTx(s, hash, tx).Some?
    ensures var t := AddTx(s, hash, tx).value; Grows(s, t) && TxStored(t, hash, tx, |s.blocks|)
  {
    hide AddSpent, AddOutputs, OutputsStored, Images, Append;
    var t := AddTx(s, hash, tx).value;
    var s1 := AddSpent(s, tx.vin).value;
    SpentAdded(s, tx.vin);
    var s2 := AddTxData(s1, hash, tx).value;
    AppendIs(s.txs, |s.txs|, tx);
    var bare := s2.(txs := s.txs);
    var n := |tx.vout|;
    OutputsFrame(s2, hash, tx, n);
    OutputsMove(s2, bare, hash, tx, n);
    var (s3, indices) := AddOutputs(s2, hash, tx, n).value;
    AppendIs(s.txOutputs, |s.txs|, indices);
    OutputsAdded(bare, hash, tx, n);
    StoredFrame(AddOutputs(bare, hash, tx, n).value.0, t, hash, tx, |s.blocks|, n, indices);
    forall a ensures Under(s, a) <= Under(t, a) {
      assert Under(bare, a) <= Under(AddOutputs(bare, hash, tx, n).value.0, a);
    }
  }

  lemma StoredFrame(s: Store, t: Store, hash: Hash, tx: Tx, height: nat, n: nat, indices: seq<nat>)
    requires SameOutputs(s, t) && n <= |tx.vout| && OutputsStored(s, hash, tx, height, n, indices)
    ensures OutputsStored(t, hash, tx, height, n, indices)
  {
    hide MinedV2;
    forall k | 0 <= k < n ensures OutputStored(t, hash, tx, height, k, indices[k]) {
      assert OutputStored(s, hash, tx, height, k, indices[k]);
    }
  }

  lemma {:induction false} AllAreStored(s: Store, hashes: seq<Hash>, txs: seq<Tx>)
    requires Numbered(s) && |hashes| == |txs| && AddTxs(s, hashes, txs).Some?
    ensures var t := AddTxs(s, hashes, txs).value;
            Grows(s, t) && forall j :: 0 <= j < |txs| ==> TxStored(t, hashes[j], txs[j], |s.blocks|)
    decreases |hashes|
  {
    hide AddTx, Numbered, Grows, TxStored;
    if hashes == [] {
      GrowsFromItself(s);
    } else {
      var n := |hashes| - 1;
      AllAreStored(s, hashes[..n], txs[..n]);
      BlockRuns.TxsAdded(s, hashes[..n], txs[..n]);
      var before, after := AddTxs(s, hashes[..n], txs[..n]).value, AddTxs(s, hashes, txs).value;
      AddedIsStored(before, hashes[n], txs[n]);
      GrowsThrough(s, before, after);
      forall j | 0 <= j < |txs| ensures TxStored(after, hashes[j], txs[j], |s.blocks|) {
        if j < n {
          TxStays(before, after, hashes[j], txs[j], |s.blocks|);
        }
      }
    }
  }

  // ---- Blocks --------------------------------------------------------------------------------------

  /** All transactions of a block, at its height. */
  ghost predicate EntryStored(s: Store, e: Entry, height: nat) {
    && TxStored(s, e.block.minerHash, e.block.minerTx, height)
    && |e.block.txHashes| == |e.txs|
    && forall j :: 0 <= j < |e.txs| ==> TxStored(s, e.block.txHashes[j], e.txs[j], height)
  }

  lemma EntryStays(s: Store, t: Store, e: Entry, height: nat)
    requires Grows(s, t) && EntryStored(s, e, height)
    ensures EntryStored(t, e, height)
  {
    hide TxStored, Grows;
    TxStays(s, t, e.block.minerHash, e.block.minerTx, height);
    forall j | 0 <= j < |e.txs| ensures TxStored(t, e.block.txHashes[j], e.txs[j], height) {
      TxStays(s, t, e.block.txHashes[j], e.txs[j], height);
    }
  }

  lemma EntryAdded(s: Store, e: Entry)
    requires Numbered(s) && AddBlock(s, e.block, e.txs).Some?
    ensures var t := AddBlock(s, e.block, e.txs).value; Grows(s, t) && EntryStored(t, e, |s.blocks|)
  {
    hide AddTx, AddTxs, Numbered, TxStored, NumRctOuts;
    var t := AddBlock(s, e.block, e.txs).value;
    var s1 := AddTx(s, e.block.minerHash, e.block.minerTx).value;
    AddedIsStored(s, e.block.minerHash, e.block.minerTx);
    BlockRuns.TxAdded(s, e.block.minerHash, e.block.minerTx);
    TxNumbered(s, e.block.minerHash, e.block.minerTx);
    var s2 := AddTxs(s1, e.block.txHashes, e.txs).value;
    AllAreStored(s1, e.block.txHashes, e.txs);
    GrowsToBlock(s2, t);
    GrowsThrough(s, s1, s2);
    GrowsThrough(s, s2, t);
    GrowsThrough(s1, s2, t);
    TxStays(s1, t, e.block.minerHash, e.block.minerTx, |s.blocks|);
    forall j | 0 <= j < |e.txs| ensures TxStored(t, e.block.txHashes[j], e.txs[j], |s.blocks|) {
      TxStays(s2, t, e.block.txHashes[j], e.txs[j], |s.blocks|);
    }
  }

  lemma GrowsToBlock(s: Store, t: Store)
    requires t == s.(blocks := t.blocks, heights := t.heights)
    ensures Grows(s, t)
  {
  }

  /** Every transaction on the chain can be looked up by hash, with its height and all its outputs. */
  lemma {:induction false} ChainIsStored(chain: seq<Entry>, i: nat)
    requires Build(chain).Some? && i < |chain|
    ensures EntryStored(Build(chain).value, chain[i], i)
    decreases |chain|
  {
    hide AddBlock, EntryStored, Numbered, ChainImages;
    var n := |chain| - 1;
    BuildStep(chain);
    BuiltStore(chain[..n]);
    var s := Build(chain[..n]).value;
    EntryAdded(s, chain[n]);
    if i < n {
      ChainIsStored(chain[..n], i);
      EntryStays(s, Build(chain).value, chain[i], i);
    }
  }

  // ---- The blocks form a chain -----------------------------------------------------------------------

  /** Block hashes and heights determine each other, and each block names the one before it. */
  ghost predicate Linked(s: Store) {
    && (forall h :: h in s.heights ==> s.heights[h] < |s.blocks| && s.blocks[s.heights[h]].block.hash == h)
    && (forall i :: 0 <= i < |s.blocks| ==>
         s.blocks[i].block.hash in s.heights && s.heights[s.blocks[i].block.hash] == i)
    && forall i :: 1 <= i < |s.blocks| ==> s.blocks[i].block.prevHash == s.blocks[i - 1].block.hash
  }

  lemma LinkedNext(s: Store, b: Block, rct: nat)
    requires Linked(s) && AddBlockData(s, b, rct).Some?
    ensures Linked(AddBlockData(s, b, rct).value)
  {
    var t := AddBlockData(s, b, rct).value;
    forall i | 1 <= i < |t.blocks| ensures t.blocks[i].block.prevHash == t.blocks[i - 1].block.hash {
      if i == |s.blocks| {
        assert s.blocks[s.heights[b.prevHash]].block.hash == b.prevHash;
      }
    }
  }

  /** On a linked store a block is taken in exactly when its hash is new and it goes on from the top block. */
  lemma BlockTakenExactly(s: Store, b: Block, rct: nat)
    requires Linked(s)
    ensures AddBlockData(s, b, rct).Some? <==>
            && (forall i :: 0 <= i < |s.blocks| ==> s.blocks[i].block.hash != b.hash)
            && (if s.blocks == [] then b.majorVersion < 4
                else b.prevHash == s.blocks[|s.blocks| - 1].block.hash)
  {
    if s.blocks != [] {
      assert s.blocks[|s.blocks| - 1].block.hash in s.heights;
      if b.prevHash in s.heights {
        assert s.blocks[s.heights[b.prevHash]].block.hash == b.prevHash;
      }
    }
    if b.hash in s.heights {
      assert s.blocks[s.heights[b.hash]].block.hash == b.hash;
    }
  }

  lemma {:induction false} ChainIsLinked(chain: seq<Entry>)
    requires Build(chain).Some?
    ensures Linked(Build(chain).value)
    decreases |chain|
  {
    hide AddTx, AddTxs, AddBlockData, NumRctOuts, Linked, Images, ImagesOfAll;
    if chain == [] {
      NothingLinked();
    } else {
      var n := |chain| - 1;
      BuildStep(chain);
      ChainIsLinked(chain[..n]);
      var s, e := Build(chain[..n]).value, chain[n];
      var s1 := AddTx(s, e.block.minerHash, e.block.minerTx).value;
      BlockRuns.TxAdded(s, e.block.minerHash, e.block.minerTx);
      BlockRuns.TxsAdded(s1, e.block.txHashes, e.txs);
      var s2 := AddTxs(s1, e.block.txHashes, e.txs).value;
      LinkedFrame(s, s2);
      LinkedNext(s2, e.block, NumRctOuts(e.block, e.txs));
    }
  }

  lemma NothingLinked()
    ensures Linked(EMPTY)
  {
  }

  lemma LinkedFrame(s: Store, t: Store)
    requires Linked(s) && t.blocks == s.blocks && t.heights == s.heights
    ensures Linked(t)
  {
  }
}
