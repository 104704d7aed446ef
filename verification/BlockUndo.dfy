/**
 Popping a block undoes adding it, exactly when the parser lets its transactions through.
 */
module BlockUndo {
  import opened BlockStore
  import opened Options

  // ---- Tables --------------------------------------------------------------------------------------

  lemma AppendUndone<T>(t: Table<T>, key: nat, value: T)
    requires Append(t, key, value).Some?
    ensures var t' := Append(t, key, value).value;
            Find(t', key) == Some(|t|) && Delete(t', key) == Some(t) && t'[|t|] == Row(key, value)
            && t'[..|t|] + t'[|t| + 1..] == t
  {
    var t' := Append(t, key, value).value;
    assert t'[..|t|] + t'[|t| + 1..] == t;
  }

  /** No amount has an empty table. */
  ghost predicate Neat(s: Store) {
    forall a :: a in s.outputs ==> s.outputs[a] != []
  }

  lemma PutUndone(s: Store, amount: nat, t: Table<OutRecord>)
    requires Neat(s) && t != []
    ensures Neat(PutUnder(s, amount, t)) && PutUnder(PutUnder(s, amount, t), amount, Under(s, amount)) == s
    ensures Under(PutUnder(s, amount, t), amount) == t
  {
    var back := PutUnder(PutUnder(s, amount, t), amount, Under(s, amount));
    assert back.outputs == s.outputs;
  }

  // ---- Spent keys ----------------------------------------------------------------------------------

  function Images(vin: seq<Input>): set<Key> {
    set i | 0 <= i < |vin| && vin[i].Spend? :: vin[i].image
  }

  lemma ImagesStep(vin: seq<Input>)
    requires vin != []
    ensures var last := vin[|vin| - 1];
            Images(vin) == Images(vin[..|vin| - 1]) + if last.Spend? then {last.image} else {}
  {
    var front, last := vin[..|vin| - 1], vin[|vin| - 1];
    assert vin == front + [last];
    forall k ensures k in Images(vin) <==> k in Images(front) || (last.Spend? && k == last.image) {
      if k in Images(front) {
        var i :| 0 <= i < |front| && front[i].Spend? && front[i].image == k;
        assert vin[i] == front[i];
      }
      if last.Spend? && k == last.image {
        assert vin[|vin| - 1].image == k;
      }
    }
  }

  /** Adding takes in exactly the key images of the inputs, none of which was spent before. */
  lemma {:induction false} SpentAdded(s: Store, vin: seq<Input>)
    requires AddSpent(s, vin).Some?
    ensures AddSpent(s, vin) == Some(s.(spent := s.spent + Images(vin)))
    ensures Images(vin) !! s.spent
    decreases |vin|
  {
    hide Images;
    if vin == [] {
      NoImages(vin);
      assert s.spent + {} == s.spent;
    } else {
      SpentAdded(s, vin[..|vin| - 1]);
      ImagesStep(vin);
      var before, last := AddSpent(s, vin[..|vin| - 1]).value, vin[|vin| - 1];
      if last.Spend? {
        assert before.spent + {last.image} == s.spent + Images(vin);
      } else {
        assert before.spent == s.spent + Images(vin);
      }
    }
  }

  lemma NoImages(vin: seq<Input>)
    requires vin == []
    ensures Images(vin) == {}
  {
  }

  lemma {:induction false} SpentRemoved(s: Store, vin: seq<Input>)
    ensures RemoveSpent(s, vin) == s.(spent := s.spent - Images(vin))
    decreases |vin|
  {
    hide Images;
    if vin == [] {
      NoImages(vin);
      assert s.spent - {} == s.spent;
    } else {
      SpentRemoved(s, vin[..|vin| - 1]);
      ImagesStep(vin);
      var before := RemoveSpent(s, vin[..|vin| - 1]);
      if vin[|vin| - 1].Spend? {
        assert before.spent - {vin[|vin| - 1].image} == s.spent - Images(vin);
      }
    }
  }

  // ---- Outputs -------------------------------------------------------------------------------------

  /** Each of the first n outputs is removed under the amount it was stored under. */
  ghost predicate Matches(tx: Tx, n: nat)
    requires n <= |tx.vout|
  {
    forall i :: 0 <= i < n ==> AmountStored(tx, i) == AmountRemoved(tx, i)
  }

  /** Two stores with the same outputs. */
  ghost predicate SameOutputs(x: Store, s: Store) {
    x.outputs == s.outputs && x.outputTxs == s.outputTxs
  }

  function WithOutputs(x: Store, s: Store): Store {
    x.(outputs := s.outputs, outputTxs := s.outputTxs)
  }

  lemma OutputUndone(s: Store, hash: Hash, amount: nat, out: Output, local: nat, unlockTime: nat, c: Commitment,
                     x: Store)
    requires Neat(s) && AddOutput(s, hash, amount, out, local, unlockTime, c).Some?
    requires SameOutputs(x, AddOutput(s, hash, amount, out, local, unlockTime, c).value)
    ensures Neat(AddOutput(s, hash, amount, out, local, unlockTime, c).value)
    ensures RemoveOutput(x, amount, |Under(s, amount)|) == Some(WithOutputs(x, s))
  {
    hide Append, Find, Delete, Neat, PutUnder;
    var id := NextKey(s.outputTxs);
    var record := OutRecord(id, out.key, unlockTime, |s.blocks|, if amount == 0 then c else Absent);
    var t := Append(Under(s, amount), |Under(s, amount)|, record).value;
    AppendUndone(s.outputTxs, id, OutTx(hash, local));
    AppendUndone(Under(s, amount), |Under(s, amount)|, record);
    PutUndone(s, amount, t);
    PutFrame(s, amount, t, x, Under(s, amount));
    NeatFrame(PutUnder(s, amount, t), AddOutput(s, hash, amount, out, local, unlockTime, c).value);
  }

  lemma NeatFrame(x: Store, y: Store)
    requires Neat(x) && x.outputs == y.outputs
    ensures Neat(y)
  {
  }

  /** Storing under an amount depends on the outputs alone. */
  lemma PutFrame(s: Store, amount: nat, t: Table<OutRecord>, x: Store, back: Table<OutRecord>)
    requires x.outputs == PutUnder(s, amount, t).outputs
    ensures Under(x, amount) == Under(PutUnder(s, amount, t), amount)
    ensures PutUnder(x, amount, back) == x.(outputs := PutUnder(PutUnder(s, amount, t), amount, back).outputs)
    ensures PutUnder(s, amount, t) == s.(outputs := x.outputs)
  {
  }

  lemma {:induction false} OutputsUndone(s: Store, hash: Hash, tx: Tx, n: nat, x: Store, indices: seq<nat>)
    requires n <= |tx.vout| && Neat(s) && AddOutputs(s, hash, tx, n).Some? && Matches(tx, n)
    requires SameOutputs(x, AddOutputs(s, hash, tx, n).value.0) && AddOutputs(s, hash, tx, n).value.1 <= indices
    ensures |AddOutputs(s, hash, tx, n).value.1| == n && Neat(AddOutputs(s, hash, tx, n).value.0)
    ensures RemoveOutputs(x, tx, indices, n) == Some(WithOutputs(x, s))
    decreases n
  {
    hide AddOutput, RemoveOutput, Neat, AmountStored, AmountRemoved, CommitmentStored, Under;
    if n > 0 {
      var (before, front) := AddOutputs(s, hash, tx, n - 1).value;
      OutputsUndone(s, hash, tx, n - 1, WithOutputs(x, before), indices);
      OutputUndone(before, hash, AmountStored(tx, n - 1), tx.vout[n - 1], n - 1, tx.unlockTime,
                   CommitmentStored(tx, n - 1), x);
    }
  }

  // ---- Transactions --------------------------------------------------------------------------------

  /** Adding outputs changes nothing but the output tables. */
  lemma {:induction false} OutputsFrame(s: Store, hash: Hash, tx: Tx, n: nat)
    requires n <= |tx.vout| && AddOutputs(s, hash, tx, n).Some?
    ensures AddOutputs(s, hash, tx, n).value.0 == WithOutputs(s, AddOutputs(s, hash, tx, n).value.0)
    decreases n
  {
    hide Append, Under, AmountStored, CommitmentStored;
    if n > 0 {
      OutputsFrame(s, hash, tx, n - 1);
    }
  }

  lemma OutputNeat(s: Store, hash: Hash, amount: nat, out: Output, local: nat, unlockTime: nat, c: Commitment)
    requires Neat(s) && AddOutput(s, hash, amount, out, local, unlockTime, c).Some?
    ensures Neat(AddOutput(s, hash, amount, out, local, unlockTime, c).value)
  {
  }

  lemma {:induction false} OutputsNeat(s: Store, hash: Hash, tx: Tx, n: nat)
    requires n <= |tx.vout| && Neat(s) && AddOutputs(s, hash, tx, n).Some?
    ensures Neat(AddOutputs(s, hash, tx, n).value.0)
    decreases n
  {
    hide AddOutput, Neat, AmountStored, CommitmentStored;
    if n > 0 {
      OutputsNeat(s, hash, tx, n - 1);
      OutputNeat(AddOutputs(s, hash, tx, n - 1).value.0, hash, AmountStored(tx, n - 1), tx.vout[n - 1], n - 1,
                 tx.unlockTime, CommitmentStored(tx, n - 1));
    }
  }

  /** A transaction just added is found under its hash. */
  lemma LookupAdded(s: Store, hash: Hash, tx: Tx)
    requires AddTx(s, hash, tx).Some?
    ensures Lookup(AddTx(s, hash, tx).value, hash) == Some(tx)
    ensures Neat(s) ==> Neat(AddTx(s, hash, tx).value)
  {
    hide AddSpent, AddOutputs, Append, Find, Delete, Images;
    SpentAdded(s, tx.vin);
    var s2 := AddTxData(AddSpent(s, tx.vin).value, hash, tx).value;
    AppendUndone(s.txs, |s.txs|, tx);
    OutputsFrame(s2, hash, tx, |tx.vout|);
    if Neat(s) {
      OutputsNeat(s2, hash, tx, |tx.vout|);
    }
  }

  /**
   Removing the rows of a transaction just added gives back the store, when its outputs are removed
   where they were stored.
   */
  lemma RowsUndone(s: Store, hash: Hash, tx: Tx)
    requires Neat(s) && AddTx(s, hash, tx).Some? && Matches(tx, |tx.vout|)
    ensures hash in AddTx(s, hash, tx).value.txIndices
    ensures RemoveRows(AddTx(s, hash, tx).value, hash, tx) == Some(s)
  {
    hide AddSpent, AddOutputs, RemoveOutputs, RemoveSpent, Append, Find, Delete, Images, Matches;
    var s' := AddTx(s, hash, tx).value;
    var s1 := AddSpent(s, tx.vin).value;
    SpentAdded(s, tx.vin);
    var s2 := AddTxData(s1, hash, tx).value;
    AppendUndone(s.txs, |s.txs|, tx);
    var (s3, indices) := AddOutputs(s2, hash, tx, |tx.vout|).value;
    OutputsFrame(s2, hash, tx, |tx.vout|);
    AppendUndone(s.txOutputs, |s.txs|, indices);
    SpentRemoved(s', tx.vin);
    var x := RemoveSpent(s', tx.vin).(txs := s.txs);
    OutputsUndone(s2, hash, tx, |tx.vout|, x, indices);
    assert s'.spent - Images(tx.vin) == s.spent;
    assert s2.txIndices - {hash} == s.txIndices;
  }

  /** Ordinary transactions match: a version 1 or 2 coinbase, and any transaction without a generation input. */
  lemma OrdinaryMatches(tx: Tx)
    requires !HasGen(tx) || (|tx.vin| == 1 && tx.version <= 2)
    ensures Matches(tx, |tx.vout|)
  {
    if |tx.vin| == 1 && tx.vin[0].Gen? {
      assert HasGen(tx);
    }
  }

  /** Of the transactions that are stored, the parser refuses those with a generation input that is not alone. */
  lemma ParsesExactly(s: Store, hash: Hash, tx: Tx)
    requires AddTx(s, hash, tx).Some?
    ensures Parses(tx) <==> (!HasGen(tx) || |tx.vin| == 1) && WithinLimits(tx)
  {
    hide AddOutputs, WithinLimits, Append;
    InputsKnown(s, tx.vin);
  }

  lemma {:induction false} InputsKnown(s: Store, vin: seq<Input>)
    requires AddSpent(s, vin).Some?
    ensures forall i :: 0 <= i < |vin| ==> !vin[i].OtherInput?
    decreases |vin|
  {
    if vin != [] {
      InputsKnown(s, vin[..|vin| - 1]);
    }
  }

  /**
   Removing a transaction just added gives back the whole store, for every transaction the parser
   lets through; another one stays.
   */
  lemma TxUndone(s: Store, hash: Hash, tx: Tx)
    requires Neat(s) && AddTx(s, hash, tx).Some?
    ensures RemoveTx(AddTx(s, hash, tx).value, hash) == if Parses(tx) then Some(s) else None
    ensures Neat(AddTx(s, hash, tx).value)
  {
    hide AddTx, RemoveRows, Matches, Lookup, Neat, WithinLimits;
    LookupAdded(s, hash, tx);
    if Parses(tx) {
      OrdinaryMatches(tx);
      RowsUndone(s, hash, tx);
    }
  }

  // ---- Blocks --------------------------------------------------------------------------------------

  ghost predicate AllParse(txs: seq<Tx>) {
    forall i :: 0 <= i < |txs| ==> Parses(txs[i])
  }

  lemma {:induction false} TxsUndone(s: Store, hashes: seq<Hash>, txs: seq<Tx>)
    requires |hashes| == |txs| && Neat(s) && AddTxs(s, hashes, txs).Some?
    ensures RemoveTxs(AddTxs(s, hashes, txs).value, hashes) == if AllParse(txs) then Some(s) else None
    ensures Neat(AddTxs(s, hashes, txs).value)
    decreases |hashes|
  {
    hide AddTx, RemoveTx, Neat, Parses;
    if hashes != [] {
      var n := |hashes| - 1;
      TxsUndone(s, hashes[..n], txs[..n]);
      TxUndone(AddTxs(s, hashes[..n], txs[..n]).value, hashes[n], txs[n]);
      assert AllParse(txs) <==> AllParse(txs[..n]) && Parses(txs[n]);
    }
  }

  lemma BlockDataUndone(s: Store, b: Block, rct: nat)
    requires AddBlockData(s, b, rct).Some?
    ensures RemoveBlockData(AddBlockData(s, b, rct).value) == Some(s)
    ensures var s' := AddBlockData(s, b, rct).value; s'.blocks != [] && s'.blocks[|s'.blocks| - 1].block == b
    ensures Neat(s) ==> Neat(AddBlockData(s, b, rct).value)
  {
    var s' := AddBlockData(s, b, rct).value;
    assert s'.heights - {b.hash} == s.heights;
  }

  /** Popping the block just added gives back the whole store; with a transaction the parser refuses it fails. */
  lemma PopUndoesAdd(s: Store, b: Block, txs: seq<Tx>)
    requires Neat(s) && AddBlock(s, b, txs).Some?
    ensures PopBlock(AddBlock(s, b, txs).value) == if Parses(b.minerTx) && AllParse(txs) then Some(s) else None
    ensures Neat(AddBlock(s, b, txs).value)
  {
    hide AddTx, AddTxs, RemoveTx, RemoveTxs, Neat, Parses, AllParse, AddBlockData, RemoveBlockData, NumRctOuts;
    var s1 := AddTx(s, b.minerHash, b.minerTx).value;
    TxUndone(s, b.minerHash, b.minerTx);
    TxsUndone(s1, b.txHashes, txs);
    BlockDataUndone(AddTxs(s1, b.txHashes, txs).value, b, NumRctOuts(b, txs));
  }
}
