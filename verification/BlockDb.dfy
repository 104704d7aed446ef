/**
 The store as it is updated in place: each method on the tables is proved to be the corresponding
 function of the store as a value.  A method that reports failure leaves the tables in the middle
 of a database transaction, which its caller aborts.
 */
module BlockDb {
  import opened BlockStore
  import opened Options

  class Db {
    var spent: set<Key>
    var txIndices: map<Hash, TxIndex>
    var txs: Table<Tx>
    var txOutputs: Table<seq<nat>>
    var outputTxs: Table<OutTx>
    var outputs: map<nat, Table<OutRecord>>
    var blocks: seq<BlockInfo>
    var heights: map<Hash, nat>

    function View(): Store
      reads this
    {
      Store(spent, txIndices, txs, txOutputs, outputTxs, outputs, blocks, heights)
    }

    constructor ()
      ensures View() == EMPTY
    {
      spent, txIndices, txs, txOutputs, outputTxs, outputs, blocks, heights := {}, map[], [], [], [], map[], [], map[];
    }

    // ---- Adding ------------------------------------------------------------------------------

    method AddSpentKeys(vin: seq<Input>) returns (ok: bool, minerTx: bool)
      modifies `spent
      ensures ok == AddSpent(old(View()), vin).Some?
      ensures ok ==> AddSpent(old(View()), vin) == Some(View())
      ensures ok ==> minerTx == exists i :: 0 <= i < |vin| && vin[i].Gen?
    {
      minerTx := false;
      assert vin[..0] == [];
      for i := 0 to |vin|
        invariant AddSpent(old(View()), vin[..i]) == Some(View())
        invariant minerTx == exists k :: 0 <= k < i && vin[k].Gen?
      {
        assert vin[..i + 1][..i] == vin[..i];
        match vin[i] {
          case Gen => minerTx := true;
          case OtherInput =>
            SpentFails(old(View()), vin, i + 1);
            return false, minerTx;
          case Spend(image) =>
            if image in spent {
              SpentFails(old(View()), vin, i + 1);
              return false, minerTx;
            }
            spent := spent + {image};
        }
      }
      assert vin[..|vin|] == vin;
      ok := true;
    }

    method AddTransactionData(hash: Hash, tx: Tx) returns (ok: bool, id: nat)
      modifies `txIndices, `txs
      ensures ok == AddTxData(old(View()), hash, tx).Some?
      ensures ok ==> AddTxData(old(View()), hash, tx) == Some(View()) && id == |old(txs)|
    {
      id := |txs|;
      if hash in txIndices || !KnownVersion(tx) || (txs != [] && txs[|txs| - 1].key >= id) {
        return false, id;
      }
      txIndices := txIndices[hash := TxIndex(id, tx.unlockTime, |blocks|)];
      txs := txs + [Row(id, tx)];
      ok := true;
    }

    method AddOutputRow(hash: Hash, amount: nat, out: Output, local: nat, unlockTime: nat, c: Commitment)
        returns (ok: bool, index: nat)
      modifies `outputTxs, `outputs
      ensures ok == AddOutput(old(View()), hash, amount, out, local, unlockTime, c).Some?
      ensures ok ==> AddOutput(old(View()), hash, amount, out, local, unlockTime, c) == Some(View())
      ensures ok ==> index == |Under(old(View()), amount)|
    {
      var t := if amount in outputs then outputs[amount] else [];
      index := |t|;
      var id := NextKey(outputTxs);
      if (amount == 0 && c.Absent?) || (t != [] && t[|t| - 1].key >= index) {
        return false, index;
      }
      outputTxs := outputTxs + [Row(id, OutTx(hash, local))];
      var record := OutRecord(id, out.key, unlockTime, |blocks|, if amount == 0 then c else Absent);
      outputs := outputs[amount := t + [Row(index, record)]];
      ok := true;
    }

    method AddTransaction(hash: Hash, tx: Tx) returns (ok: bool)
      modifies this
      ensures ok == AddTx(old(View()), hash, tx).Some?
      ensures ok ==> AddTx(old(View()), hash, tx) == Some(View())
    {
      hide AddSpent, AddTxData, AddOutput;
      var minerTx;
      ok, minerTx := AddSpentKeys(tx.vin);
      if !ok {
        return;
      }
      assert minerTx == HasGen(tx);
      var id;
      ok, id := AddTransactionData(hash, tx);
      if !ok {
        return;
      }
      var indices;
      ok, indices := AddAllOutputs(hash, tx, minerTx);
      if !ok {
        return;
      }
      if txOutputs != [] && txOutputs[|txOutputs| - 1].key >= id {
        return false;
      }
      txOutputs := txOutputs + [Row(id, indices)];
    }

    method AddAllOutputs(hash: Hash, tx: Tx, minerTx: bool) returns (ok: bool, indices: seq<nat>)
      requires minerTx == HasGen(tx)
      modifies `outputTxs, `outputs
      ensures ok == AddOutputs(old(View()), hash, tx, |tx.vout|).Some?
      ensures ok ==> AddOutputs(old(View()), hash, tx, |tx.vout|) == Some((View(), indices))
    {
      hide AddOutput, HasGen;
      indices := [];
      for i := 0 to |tx.vout|
        invariant AddOutputs(old(View()), hash, tx, i) == Some((View(), indices))
      {
        var out := tx.vout[i];
        var index;
        if minerTx && tx.version == 2 {
          ok, index := AddOutputRow(hash, 0, out, i, tx.unlockTime, ZeroCommit(out.amount));
        } else {
          var c := if tx.version > 1 then Mask(out.mask) else Absent;
          ok, index := AddOutputRow(hash, out.amount, out, i, tx.unlockTime, c);
        }
        if !ok {
          OutputsFail(old(View()), hash, tx, i + 1, |tx.vout|);
          return;
        }
        indices := indices + [index];
      }
      ok := true;
    }

    method AddNewBlock(b: Block, blockTxs: seq<Tx>) returns (ok: bool)
      modifies this
      ensures ok == AddBlock(old(View()), b, blockTxs).Some?
      ensures ok ==> AddBlock(old(View()), b, blockTxs) == Some(View())
    {
      hide AddTx;
      if |b.txHashes| != |blockTxs| {
        return false;
      }
      var rct := 0;
      ok := AddTransaction(b.minerHash, b.minerTx);
      if !ok {
        return;
      }
      if b.minerTx.version == 2 {
        rct := rct + |b.minerTx.vout|;
      }
      ghost var s1, base := View(), rct;
      for i := 0 to |blockTxs|
        invariant AddTxs(s1, b.txHashes[..i], blockTxs[..i]) == Some(View())
        invariant rct == base + ZeroAmountsOfAll(blockTxs[..i])
      {
        assert b.txHashes[..i + 1][..i] == b.txHashes[..i] && blockTxs[..i + 1][..i] == blockTxs[..i];
        ok := AddTransaction(b.txHashes[i], blockTxs[i]);
        if !ok {
          TxsFail(s1, b.txHashes, blockTxs, i + 1);
          return;
        }
        var zeroes := CountZeroAmounts(blockTxs[i].vout);
        rct := rct + zeroes;
      }
      assert b.txHashes[..|blockTxs|] == b.txHashes && blockTxs[..|blockTxs|] == blockTxs;
      ok := AddBlockRow(b, rct);
    }

    method AddBlockRow(b: Block, rct: nat) returns (ok: bool)
      modifies `blocks, `heights
      ensures ok == AddBlockData(old(View()), b, rct).Some?
      ensures ok ==> AddBlockData(old(View()), b, rct) == Some(View())
    {
      var h := |blocks|;
      if b.hash in heights {
        return false;
      }
      if h > 0 && (b.prevHash !in heights || heights[b.prevHash] != h - 1) {
        return false;
      }
      var cum := rct;
      if b.majorVersion >= 4 {
        if h == 0 {
          return false;
        }
        cum := cum + blocks[h - 1].cumRct;
      }
      blocks := blocks + [BlockInfo(b, cum)];
      heights := heights[b.hash := h];
      ok := true;
    }

    // ---- Removing ----------------------------------------------------------------------------

    method RemoveSpentKeys(vin: seq<Input>)
      modifies `spent
      ensures View() == RemoveSpent(old(View()), vin)
    {
      assert vin[..0] == [];
      for i := 0 to |vin|
        invariant View() == RemoveSpent(old(View()), vin[..i])
      {
        assert vin[..i + 1][..i] == vin[..i];
        if vin[i].Spend? {
          spent := spent - {vin[i].image};
        }
      }
      assert vin[..|vin|] == vin;
    }

    method RemoveOutputRow(amount: nat, index: nat) returns (ok: bool)
      modifies `outputTxs, `outputs
      ensures ok == RemoveOutput(old(View()), amount, index).Some?
      ensures ok ==> RemoveOutput(old(View()), amount, index) == Some(View())
    {
      hide Find;
      var t := if amount in outputs then outputs[amount] else [];
      var i := Find(t, index);
      if i.None? {
        return false;
      }
      var rest := Delete(outputTxs, t[i.value].value.id);
      if rest.None? {
        return false;
      }
      outputTxs := rest.value;
      var left := t[..i.value] + t[i.value + 1..];
      outputs := if left == [] then outputs - {amount} else outputs[amount := left];
      ok := true;
    }

    method RemoveAllOutputs(tx: Tx, indices: seq<nat>) returns (ok: bool)
      requires |indices| == |tx.vout|
      modifies `outputTxs, `outputs
      ensures ok == RemoveOutputs(old(View()), tx, indices, |tx.vout|).Some?
      ensures ok ==> RemoveOutputs(old(View()), tx, indices, |tx.vout|) == Some(View())
    {
      hide RemoveOutput;
      var pseudoRct := tx.version >= 2 && |tx.vin| == 1 && tx.vin[0].Gen?;
      var i: nat := |tx.vout|;
      while i > 0
        invariant i <= |tx.vout|
        invariant RemoveOutputs(old(View()), tx, indices, |tx.vout|) == RemoveOutputs(View(), tx, indices, i)
      {
        i := i - 1;
        var amount := if pseudoRct then 0 else tx.vout[i].amount;
        ok := RemoveOutputRow(amount, indices[i]);
        if !ok {
          return;
        }
      }
      ok := true;
    }

    method RemoveTransaction(hash: Hash) returns (ok: bool)
      modifies this
      ensures ok == RemoveTx(old(View()), hash).Some?
      ensures ok ==> RemoveTx(old(View()), hash) == Some(View())
    {
      hide Find, RemoveOutputs, Parses;
      if hash !in txIndices {
        return false;
      }
      var id := txIndices[hash].id;
      var row := Find(txs, id);
      if row.None? {
        return false;
      }
      var tx := txs[row.value].value;
      var parses := ParseTransaction(tx);
      if !parses {
        return false;
      }
      RemoveSpentKeys(tx.vin);
      RemoveSpentFrame(old(View()), tx.vin);
      var rest, j := Delete(txs, id), Find(txOutputs, id);
      if rest.None? || j.None? || |txOutputs[j.value].value| != |tx.vout| {
        return false;
      }
      txs := rest.value;
      ok := RemoveAllOutputs(tx, txOutputs[j.value].value);
      if !ok {
        return;
      }
      var left := Delete(txOutputs, id);
      if left.None? {
        return false;
      }
      txOutputs := left.value;
      txIndices := txIndices - {hash};
    }

    method PopTopBlock() returns (ok: bool)
      modifies this
      ensures ok == PopBlock(old(View())).Some?
      ensures ok ==> PopBlock(old(View())) == Some(View())
    {
      hide RemoveTx;
      if blocks == [] {
        return false;
      }
      var b := blocks[|blocks| - 1].block;
      if b.hash !in heights {
        return false;
      }
      heights := heights - {b.hash};
      blocks := blocks[..|blocks| - 1];
      ghost var s1 := View();
      var n := |b.txHashes|;
      assert b.txHashes[..n] == b.txHashes;
      while n > 0
        invariant n <= |b.txHashes|
        invariant RemoveTxs(s1, b.txHashes) == RemoveTxs(View(), b.txHashes[..n])
      {
        assert b.txHashes[..n][..n - 1] == b.txHashes[..n - 1];
        n := n - 1;
        ok := RemoveTransaction(b.txHashes[n]);
        if !ok {
          return;
        }
      }
      ok := RemoveTransaction(b.minerHash);
    }
  }

  /** The tests made while a stored transaction is read back. */
  method ParseTransaction(tx: Tx) returns (ok: bool)
    ensures ok == Parses(tx)
  {
    if tx.version == 0 || tx.version > CURRENT_TRANSACTION_VERSION || |tx.vin| > MAX_INPUTS {
      return false;
    }
    for i := 0 to |tx.vin|
      invariant forall k :: 0 <= k < i ==> tx.vin[k].Spend?
    {
      if i == 0 && tx.vin[i].Gen? {
        if |tx.vin| > 1 {
          return false;
        }
        break;
      }
      if !tx.vin[i].Spend? {
        return false;
      }
    }
    ok := |tx.vout| <= if IsCoinbase(tx) || tx.vin == [] then MAX_COINBASE_OUTPUTS else MAX_OUTPUTS;
  }

  method CountZeroAmounts(vout: seq<Output>) returns (n: nat)
    ensures n == ZeroAmounts(vout)
  {
    n := 0;
    for i := 0 to |vout|
      invariant n == ZeroAmounts(vout[..i])
    {
      assert vout[..i + 1][..i] == vout[..i];
      if vout[i].amount == 0 {
        n := n + 1;
      }
    }
    assert vout[..|vout|] == vout;
  }

  // ---- Failures stay failures ----------------------------------------------------------------------

  lemma {:induction false} SpentFails(s: Store, vin: seq<Input>, n: nat)
    requires n <= |vin| && AddSpent(s, vin[..n]).None?
    ensures AddSpent(s, vin).None?
    decreases |vin|
  {
    if n == |vin| {
      assert vin[..n] == vin;
    } else {
      assert vin[..|vin| - 1][..n] == vin[..n];
      SpentFails(s, vin[..|vin| - 1], n);
    }
  }

  lemma {:induction false} OutputsFail(s: Store, hash: Hash, tx: Tx, n: nat, end: nat)
    requires n <= end <= |tx.vout| && AddOutputs(s, hash, tx, n).None?
    ensures AddOutputs(s, hash, tx, end).None?
    decreases end
  {
    hide AddOutput;
    if n < end {
      OutputsFail(s, hash, tx, n, end - 1);
    }
  }

  lemma {:induction false} TxsFail(s: Store, hashes: seq<Hash>, txs: seq<Tx>, n: nat)
    requires |hashes| == |txs| && n <= |hashes| && AddTxs(s, hashes[..n], txs[..n]).None?
    ensures AddTxs(s, hashes, txs).None?
    decreases |hashes|
  {
    hide AddTx;
    if n == |hashes| {
      assert hashes[..n] == hashes && txs[..n] == txs;
    } else {
      var m := |hashes| - 1;
      assert hashes[..m][..n] == hashes[..n] && txs[..m][..n] == txs[..n];
      TxsFail(s, hashes[..m], txs[..m], n);
    }
  }

  lemma {:induction false} RemoveSpentFrame(s: Store, vin: seq<Input>)
    ensures RemoveSpent(s, vin) == s.(spent := RemoveSpent(s, vin).spent)
    decreases |vin|
  {
    if vin != [] {
      RemoveSpentFrame(s, vin[..|vin| - 1]);
    }
  }
}
