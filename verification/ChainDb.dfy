/**
 What the ring-reference tools read from the chain database, and the graph it amounts to.
 */
module ChainDb {
  import opened Options
  import opened RingGraph

  type Hash = int
  type Key = int

  const TWO64 := 0x1_0000_0000_0000_0000

  type Word = x: nat | x < TWO64

  /** A spending input lists its ring members as offsets, each counted from the one before it. */
  datatype Input = Gen | ToKey(amount: nat, keyOffsets: seq<Word>) | Other

  datatype Tx = Tx(vin: seq<Input>, vout: seq<Key>)

  datatype Block = Block(minerHash: Hash, minerVout: seq<Key>, txHashes: seq<Hash>)

  /** An output as the database records it: the height of its block and its one-time key. */
  datatype Output = Output(height: nat, key: Key)

  datatype Db = Db(blocks: seq<Block>, txs: map<Hash, Tx>, outputs: map<Ancestor, Output>)

  // ---- Transactions ------------------------------------------------------------------------

  datatype Ring = Ring(amount: nat, offsets: seq<nat>)

  /** The part of a transaction the ancestry tool keeps. */
  datatype TxData = TxData(coinbase: bool, vin: seq<Ring>, vout: seq<Key>)

  /** relative_output_offsets_to_absolute: sums of 64-bit words. */
  function Absolute(relative: seq<Word>): (r: seq<Word>)
    ensures |r| == |relative|
  {
    if relative == [] then []
    else
      var n := |relative| - 1;
      var front := Absolute(relative[..n]);
      front + [((if n == 0 then 0 else front[n - 1]) + relative[n]) % TWO64]
  }

  lemma {:induction false} AbsoluteAt(relative: seq<Word>, k: nat)
    requires k < |relative|
    ensures Absolute(relative)[k] == ((if k == 0 then 0 else Absolute(relative)[k - 1]) + relative[k]) % TWO64
    decreases |relative|
  {
    if k < |relative| - 1 {
      AbsoluteAt(relative[..|relative| - 1], k);
    }
  }

  method ToAbsolute(relative: seq<Word>) returns (res: seq<Word>)
    ensures res == Absolute(relative)
  {
    hide Absolute;
    res := relative;
    if res != [] {
      AbsoluteAt(relative, 0);
      for i := 1 to |res|
        invariant |res| == |relative|
        invariant forall k :: 0 <= k < i ==> res[k] == Absolute(relative)[k]
        invariant forall k :: i <= k < |res| ==> res[k] == relative[k]
      {
        AbsoluteAt(relative, i);
        res := res[i := (res[i] + res[i - 1]) % TWO64];
      }
    }
  }

  /** All inputs as rings, or none if one of them is of another type. */
  function Rings(vin: seq<Input>): Option<seq<Ring>> {
    if vin == [] then Some([])
    else
      match (Rings(vin[..|vin| - 1]), vin[|vin| - 1])
      case (Some(rs), ToKey(amount, keyOffsets)) => Some(rs + [Ring(amount, Absolute(keyOffsets))])
      case _ => None
  }

  predicate IsCoinbase(tx: Tx) {
    |tx.vin| == 1 && tx.vin[0].Gen?
  }

  function TxDataOf(tx: Tx): Option<TxData> {
    if IsCoinbase(tx) then Some(TxData(true, [], tx.vout))
    else
      match Rings(tx.vin)
      case Some(rs) => Some(TxData(false, rs, tx.vout))
      case None => None
  }

  lemma {:induction false} RingsFail(vin: seq<Input>, n: nat)
    requires n <= |vin| && Rings(vin[..n]).None?
    ensures Rings(vin).None?
    decreases |vin|
  {
    if n == |vin| {
      assert vin[..n] == vin;
    } else {
      assert vin[..|vin| - 1][..n] == vin[..n];
      RingsFail(vin[..|vin| - 1], n);
    }
  }

  /** The constructor of tx_data_t. */
  method MakeTxData(tx: Tx) returns (data: Option<TxData>)
    ensures data == TxDataOf(tx)
  {
    hide Absolute;
    if |tx.vin| == 1 && tx.vin[0].Gen? {
      return Some(TxData(true, [], tx.vout));
    }
    var rings := [];
    assert tx.vin[..0] == [];
    for i := 0 to |tx.vin|
      invariant Rings(tx.vin[..i]) == Some(rings)
    {
      assert tx.vin[..i + 1][..i] == tx.vin[..i];
      match tx.vin[i] {
        case ToKey(amount, keyOffsets) =>
          var offsets := ToAbsolute(keyOffsets);
          rings := rings + [Ring(amount, offsets)];
        case _ =>
          RingsFail(tx.vin, i + 1);
          return None;
      }
    }
    assert tx.vin[..|tx.vin|] == tx.vin;
    data := Some(TxData(false, rings, tx.vout));
  }

  function TxDataAt(db: Db, t: Hash): Option<TxData> {
    if t in db.txs then TxDataOf(db.txs[t]) else None
  }

  function BlockAt(db: Db, h: nat): Option<Block> {
    if h < |db.blocks| then Some(db.blocks[h]) else None
  }

  // ---- The transaction that created an output ------------------------------------------------

  /** The first listed transaction with the key among its outputs; none if a lookup fails first. */
  function FindIn(db: Db, hashes: seq<Hash>, key: Key): Option<Hash> {
    if hashes == [] then None
    else
      match TxDataAt(db, hashes[0])
      case None => None
      case Some(data) => if key in data.vout then Some(hashes[0]) else FindIn(db, hashes[1..], key)
  }

  function FindInBlock(db: Db, b: Block, key: Key): Option<Hash> {
    if key in b.minerVout then Some(b.minerHash) else FindIn(db, b.txHashes, key)
  }

  function CreatorOf(db: Db, a: Ancestor): Option<Hash> {
    if a !in db.outputs then None
    else
      match BlockAt(db, db.outputs[a].height)
      case None => None
      case Some(b) => FindInBlock(db, b, db.outputs[a].key)
  }

  // ---- Ring members --------------------------------------------------------------------------

  function RingMembers(r: Ring): (s: seq<Ancestor>)
    ensures |s| == |r.offsets|
  {
    seq(|r.offsets|, i requires 0 <= i < |r.offsets| => Ancestor(r.amount, r.offsets[i]))
  }

  /** The ring members of a transaction, ring by ring. */
  function Members(vin: seq<Ring>): seq<Ancestor> {
    if vin == [] then [] else Members(vin[..|vin| - 1]) + RingMembers(vin[|vin| - 1])
  }

  lemma {:induction false} MembersAt(vin: seq<Ring>, ring: nat)
    requires ring < |vin|
    ensures Members(vin[..ring + 1]) == Members(vin[..ring]) + RingMembers(vin[ring])
    ensures Members(vin[..ring + 1]) <= Members(vin)
    decreases |vin|
  {
    assert vin[..ring + 1][..ring] == vin[..ring];
    if ring + 1 == |vin| {
      assert vin[..ring + 1] == vin;
    } else {
      var front := vin[..|vin| - 1];
      MembersAt(front, ring);
      assert front[..ring + 1] == vin[..ring + 1] && front[..ring] == vin[..ring];
    }
  }

  // ---- Chain order ---------------------------------------------------------------------------

  function BlockTxs(b: Block): seq<Hash> {
    [b.minerHash] + b.txHashes
  }

  /** Every transaction of the chain, in chain order. */
  function TxOrder(blocks: seq<Block>): seq<Hash> {
    if blocks == [] then [] else TxOrder(blocks[..|blocks| - 1]) + BlockTxs(blocks[|blocks| - 1])
  }

  lemma {:induction false} OrderPrefix(blocks: seq<Block>, n: nat)
    requires n <= |blocks|
    ensures TxOrder(blocks[..n]) <= TxOrder(blocks)
    decreases |blocks|
  {
    if n == |blocks| {
      assert blocks[..n] == blocks;
    } else {
      var front := blocks[..|blocks| - 1];
      OrderPrefix(front, n);
      assert front[..n] == blocks[..n];
    }
  }

  lemma OrderStep(blocks: seq<Block>, h: nat)
    requires h < |blocks|
    ensures TxOrder(blocks[..h + 1]) == TxOrder(blocks[..h]) + BlockTxs(blocks[h])
    ensures TxOrder(blocks[..h + 1]) <= TxOrder(blocks)
  {
    assert blocks[..h + 1][..h] == blocks[..h];
    OrderPrefix(blocks, h + 1);
  }

  function IndexOf(order: seq<Hash>, t: Hash): (i: nat)
    requires t in order
    ensures i < |order| && order[i] == t
  {
    if order[0] == t then 0 else 1 + IndexOf(order[1..], t)
  }

  ghost predicate Distinct(order: seq<Hash>) {
    forall i, j :: 0 <= i < j < |order| ==> order[i] != order[j]
  }

  ghost predicate MinersAreCoinbase(db: Db) {
    forall h :: 0 <= h < |db.blocks| ==>
      var t := db.blocks[h].minerHash;
      TxDataAt(db, t).Some? && TxDataAt(db, t).value.coinbase
  }

  /** Each ring member of transaction t was created by one of the given earlier transactions. */
  ghost predicate Resolves(db: Db, t: Hash, earlier: seq<Hash>) {
    TxDataAt(db, t).Some? &&
    forall a :: a in Members(TxDataAt(db, t).value.vin) ==> CreatorOf(db, a).Some? && CreatorOf(db, a).value in earlier
  }

  /** A chain: transactions are distinct and spend outputs of transactions before them. */
  ghost predicate IsChain(db: Db) {
    && Distinct(TxOrder(db.blocks))
    && MinersAreCoinbase(db)
    && (forall t :: t in db.txs ==> t in TxOrder(db.blocks))
    && forall p :: 0 <= p < |TxOrder(db.blocks)| ==> Resolves(db, TxOrder(db.blocks)[p], TxOrder(db.blocks)[..p])
  }

  // ---- The graph of a chain --------------------------------------------------------------------

  ghost function RefOf(db: Db, a: Ancestor): Ref {
    var order := TxOrder(db.blocks);
    match CreatorOf(db, a)
    case Some(c) => Ref(a, if c in order then IndexOf(order, c) else 0)
    case None => Ref(a, 0)
  }

  ghost function RefsOf(db: Db, t: Hash): (refs: seq<Ref>) {
    match TxDataAt(db, t)
    case None => []
    case Some(data) =>
      var m := Members(data.vin);
      seq(|m|, i requires 0 <= i < |m| => RefOf(db, m[i]))
  }

  ghost function GraphOf(db: Db): (g: Graph)
    ensures |g| == |TxOrder(db.blocks)|
  {
    var order := TxOrder(db.blocks);
    seq(|order|, p requires 0 <= p < |order| => RefsOf(db, order[p]))
  }

  lemma IndexUnique(order: seq<Hash>, p: nat)
    requires Distinct(order) && p < |order|
    ensures IndexOf(order, order[p]) == p
  {
  }

  /** Ring member i of the transaction at p, with the position of its creator. */
  lemma RefAt(db: Db, p: nat, i: nat)
    requires IsChain(db) && p < |TxOrder(db.blocks)|
    requires TxDataAt(db, TxOrder(db.blocks)[p]).Some?
    requires i < |Members(TxDataAt(db, TxOrder(db.blocks)[p]).value.vin)|
    ensures |GraphOf(db)[p]| == |Members(TxDataAt(db, TxOrder(db.blocks)[p]).value.vin)|
    ensures var a := Members(TxDataAt(db, TxOrder(db.blocks)[p]).value.vin)[i];
            var r := GraphOf(db)[p][i];
            r.output == a && r.creator < p && CreatorOf(db, a) == Some(TxOrder(db.blocks)[r.creator])
  {
    hide CreatorOf, TxDataAt, Members, TxOrder;
    var order := TxOrder(db.blocks);
    var a := Members(TxDataAt(db, order[p]).value.vin)[i];
    assert Resolves(db, order[p], order[..p]);
    assert a in Members(TxDataAt(db, order[p]).value.vin);
    var c := CreatorOf(db, a).value;
    assert c in order[..p];
    var q :| 0 <= q < p && order[q] == c;
    IndexUnique(order, q);
  }

  lemma GraphIsOrdered(db: Db)
    requires IsChain(db)
    ensures Ordered(GraphOf(db))
  {
    hide CreatorOf, TxDataAt, Members, TxOrder, RefOf;
    var g: Graph, order := GraphOf(db), TxOrder(db.blocks);
    forall p, i | 0 <= p < |g| && 0 <= i < |g[p]| ensures g[p][i].creator < p {
      assert Resolves(db, order[p], order[..p]);
      RefAt(db, p, i);
    }
  }

  /** The outputs reached through the first n ring members of t. */
  ghost function AncestryTo(db: Db, t: Hash, n: nat): set<Ancestor>
    requires IsChain(db) && t in TxOrder(db.blocks) && n <= |MembersOf(db, t)|
  {
    GraphIsOrdered(db);
    MembersAreRefs(db, t);
    ClosureTo(GraphOf(db), IndexOf(TxOrder(db.blocks), t), n)
  }

  /** What transaction t descends from: every output its ring-reference paths reach. */
  ghost function Ancestry(db: Db, t: Hash): set<Ancestor>
    requires IsChain(db) && t in TxOrder(db.blocks)
  {
    GraphIsOrdered(db);
    Closure(GraphOf(db), IndexOf(TxOrder(db.blocks), t))
  }

  function MembersOf(db: Db, t: Hash): seq<Ancestor> {
    match TxDataAt(db, t)
    case Some(data) => Members(data.vin)
    case None => []
  }

  lemma MembersAreRefs(db: Db, t: Hash)
    requires IsChain(db) && t in TxOrder(db.blocks)
    ensures |GraphOf(db)[IndexOf(TxOrder(db.blocks), t)]| == |MembersOf(db, t)|
  {
    hide CreatorOf, TxDataAt, Members, TxOrder, RefOf;
  }

  lemma AncestryIsWhole(db: Db, t: Hash)
    requires IsChain(db) && t in TxOrder(db.blocks)
    ensures Ancestry(db, t) == AncestryTo(db, t, |MembersOf(db, t)|)
    ensures AncestryTo(db, t, 0) == {}
  {
    hide CreatorOf, TxDataAt, Members, TxOrder, RefOf, GraphOf, MembersOf, IsChain;
    GraphIsOrdered(db);
    MembersAreRefs(db, t);
  }

  /** One more ring member adds that output and all its creator descends from. */
  lemma AncestryStep(db: Db, p: nat, n: nat)
    requires IsChain(db) && p < |TxOrder(db.blocks)|
    requires n < |MembersOf(db, TxOrder(db.blocks)[p])|
    ensures var t, a := TxOrder(db.blocks)[p], MembersOf(db, TxOrder(db.blocks)[p])[n];
            && CreatorOf(db, a).Some? && CreatorOf(db, a).value in TxOrder(db.blocks)[..p]
            && AncestryTo(db, t, n + 1) == AncestryTo(db, t, n) + {a} + Ancestry(db, CreatorOf(db, a).value)
  {
    hide CreatorOf, TxDataAt, Members, TxOrder, RefOf, GraphOf;
    var order := TxOrder(db.blocks);
    GraphIsOrdered(db);
    RefAt(db, p, n);
    IndexUnique(order, p);
    IndexUnique(order, GraphOf(db)[p][n].creator);
  }
}
