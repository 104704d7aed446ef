/**
 The exact condition under which removing the rows of a transaction undoes adding it, and a
 transaction that can be stored and not removed.
 */
module BlockExact {
  import opened BlockStore
  import opened BlockUndo
  import opened Options

  // ---- How many outputs are stored and removed under an amount -------------------------------------

  function StoredCount(tx: Tx, a: nat, n: nat): nat
    requires n <= |tx.vout|
  {
    if n == 0 then 0 else StoredCount(tx, a, n - 1) + if AmountStored(tx, n - 1) == a then 1 else 0
  }

  function RemovedCount(tx: Tx, a: nat, n: nat): nat
    requires n <= |tx.vout|
  {
    if n == 0 then 0 else RemovedCount(tx, a, n - 1) + if AmountRemoved(tx, n - 1) == a then 1 else 0
  }

  lemma {:induction false} AddedUnder(s: Store, hash: Hash, tx: Tx, n: nat, a: nat)
    requires n <= |tx.vout| && AddOutputs(s, hash, tx, n).Some?
    ensures |Under(AddOutputs(s, hash, tx, n).value.0, a)| == |Under(s, a)| + StoredCount(tx, a, n)
    decreases n
  {
    hide AmountStored, CommitmentStored;
    if n > 0 {
      AddedUnder(s, hash, tx, n - 1, a);
    }
  }

  lemma OneRemoved(s: Store, amount: nat, index: nat, a: nat)
    requires RemoveOutput(s, amount, index).Some?
    ensures |Under(RemoveOutput(s, amount, index).value, a)| + (if a == amount then 1 else 0) == |Under(s, a)|
  {
    hide Find, Delete;
    var t := Under(s, amount);
    var i := Find(t, index).value;
    assert |t[..i] + t[i + 1..]| + 1 == |t|;
  }

  lemma {:induction false} RemovedUnder(s: Store, tx: Tx, indices: seq<nat>, n: nat, a: nat)
    requires n <= |tx.vout| && n <= |indices| && RemoveOutputs(s, tx, indices, n).Some?
    ensures |Under(RemoveOutputs(s, tx, indices, n).value, a)| + RemovedCount(tx, a, n) == |Under(s, a)|
    decreases n
  {
    hide AmountRemoved, RemoveOutput, Under;
    if n > 0 {
      var after := RemoveOutput(s, AmountRemoved(tx, n - 1), indices[n - 1]).value;
      OneRemoved(s, AmountRemoved(tx, n - 1), indices[n - 1], a);
      RemovedUnder(after, tx, indices, n - 1, a);
    }
  }

  // ---- What removing a transaction just added amounts to -------------------------------------------

  lemma {:induction false} IndicesLength(s: Store, hash: Hash, tx: Tx, n: nat)
    requires n <= |tx.vout| && AddOutputs(s, hash, tx, n).Some?
    ensures |AddOutputs(s, hash, tx, n).value.1| == n
    decreases n
  {
    hide AddOutput, AmountStored, CommitmentStored;
    if n > 0 {
      IndicesLength(s, hash, tx, n - 1);
    }
  }

  /** The store after adding, the indices given out, and the store in which the outputs are then removed. */
  lemma RemovalOfAdded(s: Store, hash: Hash, tx: Tx) returns (s2: Store, indices: seq<nat>, x: Store)
    requires AddTx(s, hash, tx).Some?
    ensures s2.outputs == s.outputs && AddOutputs(s2, hash, tx, |tx.vout|).Some?
    ensures indices == AddOutputs(s2, hash, tx, |tx.vout|).value.1 && |indices| == |tx.vout|
    ensures SameOutputs(x, AddOutputs(s2, hash, tx, |tx.vout|).value.0)
    ensures hash in AddTx(s, hash, tx).value.txIndices
    ensures var removed := RemoveRows(AddTx(s, hash, tx).value, hash, tx);
            removed.Some? ==>
              && RemoveOutputs(x, tx, indices, |tx.vout|).Some?
              && removed.value.outputs == RemoveOutputs(x, tx, indices, |tx.vout|).value.outputs
  {
    hide AddSpent, AddOutputs, RemoveOutputs, RemoveSpent, Append, Find, Delete, Images;
    var s' := AddTx(s, hash, tx).value;
    var s1 := AddSpent(s, tx.vin).value;
    SpentAdded(s, tx.vin);
    s2 := AddTxData(s1, hash, tx).value;
    AppendUndone(s.txs, |s.txs|, tx);
    indices := AddOutputs(s2, hash, tx, |tx.vout|).value.1;
    OutputsFrame(s2, hash, tx, |tx.vout|);
    IndicesLength(s2, hash, tx, |tx.vout|);
    AppendUndone(s.txOutputs, |s.txs|, indices);
    SpentRemoved(s', tx.vin);
    x := RemoveSpent(s', tx.vin).(txs := s.txs);
  }

  lemma {:induction false} AllOrNone(tx: Tx, n: nat)
    requires n <= |tx.vout|
    ensures StoredCount(tx, 0, n) <= n && RemovedCount(tx, 0, n) <= n
    ensures StoredCount(tx, 0, n) == n ==> forall i :: 0 <= i < n ==> AmountStored(tx, i) == 0
    ensures RemovedCount(tx, 0, n) == n ==> forall i :: 0 <= i < n ==> AmountRemoved(tx, i) == 0
    ensures StoredAsZero(tx) ==> StoredCount(tx, 0, n) == n
    ensures RemovedAsZero(tx) ==> RemovedCount(tx, 0, n) == n
    decreases n
  {
    if n > 0 {
      AllOrNone(tx, n - 1);
    }
  }

  /** If as many outputs are removed under amount zero as were stored there, every output matches. */
  lemma CountsMatch(tx: Tx)
    requires StoredCount(tx, 0, |tx.vout|) == RemovedCount(tx, 0, |tx.vout|)
    ensures Matches(tx, |tx.vout|)
  {
    hide StoredCount, RemovedCount, HasGen;
    AllOrNone(tx, |tx.vout|);
  }

  /**
   Removing the rows of a transaction just added restores the store if and only if each output is
   removed where it was stored.
   */
  lemma RowsUndoneExactly(s: Store, hash: Hash, tx: Tx)
    requires Neat(s) && AddTx(s, hash, tx).Some?
    ensures hash in AddTx(s, hash, tx).value.txIndices
    ensures RemoveRows(AddTx(s, hash, tx).value, hash, tx) == Some(s) <==> Matches(tx, |tx.vout|)
  {
    hide AddTx, RemoveRows, Neat, AddOutputs, RemoveOutputs, Matches, StoredCount, RemovedCount;
    var s2, indices, x := RemovalOfAdded(s, hash, tx);
    if Matches(tx, |tx.vout|) {
      RowsUndone(s, hash, tx);
    }
    if RemoveRows(AddTx(s, hash, tx).value, hash, tx) == Some(s) {
      AddedUnder(s2, hash, tx, |tx.vout|, 0);
      RemovedUnder(x, tx, indices, |tx.vout|, 0);
      CountsMatch(tx);
    }
  }

  /** What matching comes to: the two tests for amount zero agree, or every output has amount zero. */
  lemma MatchesMeans(tx: Tx)
    ensures Matches(tx, |tx.vout|) <==>
            StoredAsZero(tx) == RemovedAsZero(tx) || forall i :: 0 <= i < |tx.vout| ==> tx.vout[i].amount == 0
  {
    hide HasGen;
    if Matches(tx, |tx.vout|) && StoredAsZero(tx) != RemovedAsZero(tx) {
      forall i | 0 <= i < |tx.vout| ensures tx.vout[i].amount == 0 {
        assert AmountStored(tx, i) == AmountRemoved(tx, i);
      }
    }
  }

  /**
   A generation input next to a spending one: the writer takes the transaction and the parser does
   not, so it cannot be removed.  Were it parsed, its output would be looked for under the wrong
   amount.  Transactions from the network or from a file have been parsed, so only a caller that
   makes the transaction itself can pass it.
   */
  lemma MixedInputsStay(image: Key, amount: nat, key: Key, mask: Key)
    requires amount > 0
    ensures var tx := Tx(2, [Gen, Spend(image)], [Output(amount, key, mask)], 0);
            && AddTx(EMPTY, 1, tx).Some? && 1 in AddTx(EMPTY, 1, tx).value.txIndices
            && RemoveTx(AddTx(EMPTY, 1, tx).value, 1).None?
            && RemoveRows(AddTx(EMPTY, 1, tx).value, 1, tx) != Some(EMPTY)
  {
    var tx := Tx(2, [Gen, Spend(image)], [Output(amount, key, mask)], 0);
    assert tx.vin[0].Gen?;
    MixedIsAdded(tx, image);
    TxUndone(EMPTY, 1, tx);
    RowsUndoneExactly(EMPTY, 1, tx);
    assert AmountStored(tx, 0) == 0 && AmountRemoved(tx, 0) == amount;
  }

  lemma MixedIsAdded(tx: Tx, image: Key)
    requires tx.version == 2 && tx.vin == [Gen, Spend(image)] && |tx.vout| == 1
    ensures AddTx(EMPTY, 1, tx).Some?
  {
    assert tx.vin[..1] == [Gen] && [Gen][..0] == [];
    assert AddSpent(EMPTY, [Gen]) == Some(EMPTY);
    assert tx.vin[0].Gen?;
    var s2 := AddTxData(AddSpent(EMPTY, tx.vin).value, 1, tx).value;
    assert AddOutputs(s2, 1, tx, 0) == Some((s2, []));
    assert AddOutputs(s2, 1, tx, 1).Some?;
  }
}
