/**
 The block store: tables of blocks, transactions, outputs and spent keys, and what adding and
 removing a transaction or a block does to them.
 */
module BlockStore {
  import opened Options

  type Hash = int
  type Key = int

  // ---- Tables with ascending keys ----------------------------------------------------------------

  datatype Row<T> = Row(key: nat, value: T)

  type Table<T> = seq<Row<T>>

  /** Appending is refused unless the key is above all others. */
  function Append<T>(t: Table<T>, key: nat, value: T): Option<Table<T>> {
    if t != [] && t[|t| - 1].key >= key then None else Some(t + [Row(key, value)])
  }

  /** The row with the key, searched from the end; rows are unique, so any order finds the same. */
  function Find<T>(t: Table<T>, key: nat): (i: Option<nat>)
    ensures i.Some? ==> i.value < |t| && t[i.value].key == key
  {
    if t == [] then None
    else if t[|t| - 1].key == key then Some(|t| - 1)
    else Find(t[..|t| - 1], key)
  }

  function Delete<T>(t: Table<T>, key: nat): Option<Table<T>> {
    match Find(t, key)
    case Some(i) => Some(t[..i] + t[i + 1..])
    case None => None
  }

  /** The next key: one above the last. */
  function NextKey<T>(t: Table<T>): nat {
    if t == [] then 0 else t[|t| - 1].key + 1
  }

  // ---- Transactions and blocks ---------------------------------------------------------------------

  datatype Input = Gen | Spend(image: Key) | OtherInput

  /** An output with the commitment that the transaction's ring signature carries for it. */
  datatype Output = Output(amount: nat, key: Key, mask: Key)

  datatype Tx = Tx(version: nat, vin: seq<Input>, vout: seq<Output>, unlockTime: nat)

  datatype Block = Block(
    hash: Hash,
    prevHash: Hash,
    majorVersion: nat,
    minerHash: Hash,
    minerTx: Tx,
    txHashes: seq<Hash>)

  datatype Commitment = Absent | Mask(key: Key) | ZeroCommit(amount: nat)

  datatype OutRecord = OutRecord(id: nat, key: Key, unlockTime: nat, height: nat, commitment: Commitment)

  datatype OutTx = OutTx(tx: Hash, local: nat)

  datatype TxIndex = TxIndex(id: nat, unlockTime: nat, height: nat)

  datatype BlockInfo = BlockInfo(block: Block, cumRct: nat)

  datatype Store = Store(
    spent: set<Key>,
    txIndices: map<Hash, TxIndex>,
    txs: Table<Tx>,
    txOutputs: Table<seq<nat>>,
    outputTxs: Table<OutTx>,
    outputs: map<nat, Table<OutRecord>>,
    blocks: seq<BlockInfo>,
    heights: map<Hash, nat>)

  const EMPTY := Store({}, map[], [], [], [], map[], [], map[])

  /** Outputs stored under an amount. */
  function Under(s: Store, amount: nat): Table<OutRecord> {
    if amount in s.outputs then s.outputs[amount] else []
  }

  /** An amount without outputs has no entry. */
  function PutUnder(s: Store, amount: nat, t: Table<OutRecord>): Store {
    s.(outputs := if t == [] then s.outputs - {amount} else s.outputs[amount := t])
  }

  // ---- Adding a transaction ------------------------------------------------------------------------

  function AddSpent(s: Store, vin: seq<Input>): Option<Store> {
    if vin == [] then Some(s)
    else
      match AddSpent(s, vin[..|vin| - 1])
      case None => None
      case Some(before) =>
        match vin[|vin| - 1]
        case Gen => Some(before)
        case OtherInput => None
        case Spend(image) => if image in before.spent then None else Some(before.(spent := before.spent + {image}))
  }

  predicate HasGen(tx: Tx) {
    exists i :: 0 <= i < |tx.vin| && tx.vin[i].Gen?
  }

  /** One generation input and nothing else. */
  predicate IsCoinbase(tx: Tx) {
    |tx.vin| == 1 && tx.vin[0].Gen?
  }

  const CURRENT_TRANSACTION_VERSION := 2

  /** The versions that are written and read. */
  predicate KnownVersion(tx: Tx) {
    1 <= tx.version <= CURRENT_TRANSACTION_VERSION
  }

  const MAX_INPUTS := 1000000 / 32
  const MAX_OUTPUTS := 1000000 / 32
  const MAX_COINBASE_OUTPUTS := 100000000 / 32

  predicate WithinLimits(tx: Tx) {
    && |tx.vin| <= MAX_INPUTS
    && |tx.vout| <= if IsCoinbase(tx) || tx.vin == [] then MAX_COINBASE_OUTPUTS else MAX_OUTPUTS
  }

  /** What the parser lets through: a generation input alone, or inputs that spend, no more than the limits. */
  predicate Parses(tx: Tx) {
    && KnownVersion(tx) && WithinLimits(tx)
    && (IsCoinbase(tx) || forall i :: 0 <= i < |tx.vin| ==> tx.vin[i].Spend?)
  }

  /** Outputs of a version 2 coinbase are stored under amount zero. */
  predicate StoredAsZero(tx: Tx) {
    HasGen(tx) && tx.version == 2
  }

  function AmountStored(tx: Tx, i: nat): nat
    requires i < |tx.vout|
  {
    if StoredAsZero(tx) then 0 else tx.vout[i].amount
  }

  function CommitmentStored(tx: Tx, i: nat): Commitment
    requires i < |tx.vout|
  {
    if StoredAsZero(tx) then ZeroCommit(tx.vout[i].amount)
    else if tx.version > 1 then Mask(tx.vout[i].mask)
    else Absent
  }

  /** Refused without a commitment for amount zero; only there is the commitment kept. */
  function AddOutput(s: Store, hash: Hash, amount: nat, out: Output, local: nat, unlockTime: nat, c: Commitment)
      : Option<Store>
  {
    if amount == 0 && c.Absent? then None
    else
      var id := NextKey(s.outputTxs);
      var record := OutRecord(id, out.key, unlockTime, |s.blocks|, if amount == 0 then c else Absent);
      match (Append(s.outputTxs, id, OutTx(hash, local)), Append(Under(s, amount), |Under(s, amount)|, record))
      case (Some(outputTxs), Some(t)) => Some(PutUnder(s, amount, t).(outputTxs := outputTxs))
      case _ => None
  }

  /** The first n outputs of a transaction added, with the index each got under its amount. */
  function AddOutputs(s: Store, hash: Hash, tx: Tx, n: nat): Option<(Store, seq<nat>)>
    requires n <= |tx.vout|
  {
    if n == 0 then Some((s, []))
    else
      match AddOutputs(s, hash, tx, n - 1)
      case None => None
      case Some((before, indices)) =>
        match AddOutput(before, hash, AmountStored(tx, n - 1), tx.vout[n - 1], n - 1, tx.unlockTime,
                        CommitmentStored(tx, n - 1))
        case None => None
        case Some(after) => Some((after, indices + [|Under(before, AmountStored(tx, n - 1))|]))
  }

  /** A version that cannot be written is refused. */
  function AddTxData(s: Store, hash: Hash, tx: Tx): Option<Store> {
    if hash in s.txIndices || !KnownVersion(tx) then None
    else
      match Append(s.txs, |s.txs|, tx)
      case None => None
      case Some(txs) =>
        Some(s.(txIndices := s.txIndices[hash := TxIndex(|s.txs|, tx.unlockTime, |s.blocks|)], txs := txs))
  }

  function AddTx(s: Store, hash: Hash, tx: Tx): Option<Store> {
    match AddSpent(s, tx.vin)
    case None => None
    case Some(s1) =>
      match AddTxData(s1, hash, tx)
      case None => None
      case Some(s2) =>
        match AddOutputs(s2, hash, tx, |tx.vout|)
        case None => None
        case Some((s3, indices)) =>
          match Append(s3.txOutputs, |s1.txs|, indices)
          case None => None
          case Some(txOutputs) => Some(s3.(txOutputs := txOutputs))
  }

  // ---- Removing a transaction --------------------------------------------------------------------

  function RemoveSpent(s: Store, vin: seq<Input>): Store {
    if vin == [] then s
    else
      var before := RemoveSpent(s, vin[..|vin| - 1]);
      match vin[|vin| - 1]
      case Spend(image) => before.(spent := before.spent - {image})
      case _ => before
  }

  /** Outputs looked for under amount zero when the transaction is removed. */
  predicate RemovedAsZero(tx: Tx) {
    tx.version >= 2 && IsCoinbase(tx)
  }

  function AmountRemoved(tx: Tx, i: nat): nat
    requires i < |tx.vout|
  {
    if RemovedAsZero(tx) then 0 else tx.vout[i].amount
  }

  function RemoveOutput(s: Store, amount: nat, index: nat): Option<Store> {
    var t := Under(s, amount);
    match Find(t, index)
    case None => None
    case Some(i) =>
      match Delete(s.outputTxs, t[i].value.id)
      case None => None
      case Some(outputTxs) => Some(PutUnder(s, amount, t[..i] + t[i + 1..]).(outputTxs := outputTxs))
  }

  /** Outputs n - 1, ..., 0 removed, in that order. */
  function RemoveOutputs(s: Store, tx: Tx, indices: seq<nat>, n: nat): Option<Store>
    requires n <= |tx.vout| && n <= |indices|
    decreases n
  {
    if n == 0 then Some(s)
    else
      match RemoveOutput(s, AmountRemoved(tx, n - 1), indices[n - 1])
      case None => None
      case Some(after) => RemoveOutputs(after, tx, indices, n - 1)
  }

  /** The row kept for a hash, before it is parsed. */
  function Lookup(s: Store, hash: Hash): Option<Tx> {
    if hash !in s.txIndices then None
    else
      match Find(s.txs, s.txIndices[hash].id)
      case Some(i) => Some(s.txs[i].value)
      case None => None
  }

  /** What is removed once the transaction has been read. */
  function RemoveRows(s: Store, hash: Hash, tx: Tx): Option<Store>
    requires hash in s.txIndices
  {
    var id := s.txIndices[hash].id;
    var s1 := RemoveSpent(s, tx.vin);
    match (Delete(s1.txs, id), Find(s1.txOutputs, id))
    case (Some(txs), Some(j)) =>
      var indices := s1.txOutputs[j].value;
      if |indices| != |tx.vout| then None
      else
        (match RemoveOutputs(s1.(txs := txs), tx, indices, |tx.vout|)
         case None => None
         case Some(s2) =>
           match Delete(s2.txOutputs, id)
           case None => None
           case Some(txOutputs) => Some(s2.(txOutputs := txOutputs, txIndices := s2.txIndices - {hash})))
    case _ => None
  }

  /** The stored transaction has to be found and parsed. */
  function RemoveTx(s: Store, hash: Hash): Option<Store> {
    match Lookup(s, hash)
    case Some(tx) => if Parses(tx) then RemoveRows(s, hash, tx) else None
    case None => None
  }

  // ---- Blocks ------------------------------------------------------------------------------------

  function ZeroAmounts(vout: seq<Output>): nat {
    if vout == [] then 0 else ZeroAmounts(vout[..|vout| - 1]) + if vout[|vout| - 1].amount == 0 then 1 else 0
  }

  function AddTxs(s: Store, hashes: seq<Hash>, txs: seq<Tx>): Option<Store>
    requires |hashes| == |txs|
  {
    if hashes == [] then Some(s)
    else
      match AddTxs(s, hashes[..|hashes| - 1], txs[..|txs| - 1])
      case None => None
      case Some(before) => AddTx(before, hashes[|hashes| - 1], txs[|txs| - 1])
  }

  function ZeroAmountsOfAll(txs: seq<Tx>): nat {
    if txs == [] then 0 else ZeroAmountsOfAll(txs[..|txs| - 1]) + ZeroAmounts(txs[|txs| - 1].vout)
  }

  /** The number of outputs the block reports as stored under amount zero. */
  function NumRctOuts(b: Block, txs: seq<Tx>): nat {
    (if b.minerTx.version == 2 then |b.minerTx.vout| else 0) + ZeroAmountsOfAll(txs)
  }

  function AddBlockData(s: Store, b: Block, rct: nat): Option<Store> {
    var h := |s.blocks|;
    if b.hash in s.heights then None
    else if h > 0 && (b.prevHash !in s.heights || s.heights[b.prevHash] != h - 1) then None
    else if b.majorVersion >= 4 && h == 0 then None
    else
      var cum := rct + if b.majorVersion >= 4 then s.blocks[h - 1].cumRct else 0;
      Some(s.(blocks := s.blocks + [BlockInfo(b, cum)], heights := s.heights[b.hash := h]))
  }

  function AddBlock(s: Store, b: Block, txs: seq<Tx>): Option<Store> {
    if |b.txHashes| != |txs| then None
    else
      match AddTx(s, b.minerHash, b.minerTx)
      case None => None
      case Some(s1) =>
        match AddTxs(s1, b.txHashes, txs)
        case None => None
        case Some(s2) => AddBlockData(s2, b, NumRctOuts(b, txs))
  }

  function RemoveBlockData(s: Store): Option<Store> {
    if s.blocks == [] then None
    else
      var b := s.blocks[|s.blocks| - 1].block;
      if b.hash !in s.heights then None
      else Some(s.(blocks := s.blocks[..|s.blocks| - 1], heights := s.heights - {b.hash}))
  }

  /** Transactions removed from the last to the first. */
  function RemoveTxs(s: Store, hashes: seq<Hash>): Option<Store>
    decreases |hashes|
  {
    if hashes == [] then Some(s)
    else
      match RemoveTx(s, hashes[|hashes| - 1])
      case None => None
      case Some(after) => RemoveTxs(after, hashes[..|hashes| - 1])
  }

  function PopBlock(s: Store): Option<Store> {
    match RemoveBlockData(s)
    case None => None
    case Some(s1) =>
      var b := s.blocks[|s.blocks| - 1].block;
      match RemoveTxs(s1, b.txHashes)
      case None => None
      case Some(s2) => RemoveTx(s2, b.minerHash)
  }
}
