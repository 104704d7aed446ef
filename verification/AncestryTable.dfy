/**
 The forward method of the ancestry tool: one pass over the chain that gives every
 transaction the set of outputs it descends from.
 */
module AncestryTable {
  import opened ChainDb
  import opened Options
  import opened RingGraph

  type Table = map<Hash, set<Ancestor>>

  function Get(table: Table, t: Hash): set<Ancestor> {
    if t in table then table[t] else {}
  }

  // ---- What one pass does to the table -------------------------------------------------------

  function AddMember(db: Db, table: Table, t: Hash, a: Ancestor): Option<Table> {
    match CreatorOf(db, a)
    case Some(c) => Some(table[t := Get(table, t) + {a} + Get(table, c)])
    case None => None
  }

  function AddMembers(db: Db, table: Table, t: Hash, ms: seq<Ancestor>): Option<Table> {
    if ms == [] then Some(table)
    else
      match AddMembers(db, table, t, ms[..|ms| - 1])
      case Some(before) => AddMember(db, before, t, ms[|ms| - 1])
      case None => None
  }

  function AddTx(db: Db, table: Table, t: Hash): Option<Table> {
    match TxDataAt(db, t)
    case None => None
    case Some(data) =>
      if data.coinbase then Some(table[t := Get(table, t)]) else AddMembers(db, table, t, Members(data.vin))
  }

  function AddTxs(db: Db, table: Table, ts: seq<Hash>): Option<Table> {
    if ts == [] then Some(table)
    else
      match AddTxs(db, table, ts[..|ts| - 1])
      case Some(before) => AddTx(db, before, ts[|ts| - 1])
      case None => None
  }

  /** The transactions of a block the pass looks at. */
  function Listed(b: Block, includeCoinbase: bool): seq<Hash> {
    (if includeCoinbase then [b.minerHash] else []) + b.txHashes
  }

  function AddBlocks(db: Db, includeCoinbase: bool, table: Table, first: nat, end: nat): Option<Table>
    requires end <= |db.blocks|
    decreases end
  {
    if end <= first then Some(table)
    else
      match AddBlocks(db, includeCoinbase, table, first, end - 1)
      case Some(before) => AddTxs(db, before, Listed(db.blocks[end - 1], includeCoinbase))
      case None => None
  }

  lemma {:induction false} AddMembersConcat(db: Db, table: Table, t: Hash, xs: seq<Ancestor>, ys: seq<Ancestor>)
    ensures AddMembers(db, table, t, xs + ys) ==
            match AddMembers(db, table, t, xs) { case Some(mid) => AddMembers(db, mid, t, ys) case None => None }
    decreases |ys|
  {
    hide AddMember;
    if ys == [] {
      assert xs + ys == xs;
    } else {
      var front := ys[..|ys| - 1];
      AddMembersConcat(db, table, t, xs, front);
      assert (xs + ys)[..|xs + ys| - 1] == xs + front;
    }
  }

  // ---- What the table means --------------------------------------------------------------------

  /** A coinbase gets an empty entry; a transaction without ring members gets none. */
  predicate HasEntry(db: Db, t: Hash) {
    TxDataAt(db, t).Some? && (TxDataAt(db, t).value.coinbase || MembersOf(db, t) != [])
  }

  function EntriesOf(db: Db, ts: seq<Hash>): set<Hash> {
    set t | t in ts && HasEntry(db, t)
  }

  function KeysTo(db: Db, includeCoinbase: bool, h: nat): set<Hash>
    requires h <= |db.blocks|
  {
    if h == 0 then {}
    else KeysTo(db, includeCoinbase, h - 1) + EntriesOf(db, Listed(db.blocks[h - 1], includeCoinbase))
  }

  /** Every entry is the exact ancestry of its transaction. */
  ghost predicate Exact(db: Db, table: Table)
    requires IsChain(db)
  {
    forall t :: t in table ==> t in TxOrder(db.blocks) && table[t] == Ancestry(db, t)
  }

  /** The table of the first h blocks: an exact entry for each transaction that gets one. */
  ghost predicate IsTable(db: Db, includeCoinbase: bool, table: Table, h: nat)
    requires IsChain(db) && h <= |db.blocks|
  {
    table.Keys == KeysTo(db, includeCoinbase, h) && Exact(db, table)
  }

  /** Transactions without an entry have no ancestry to miss. */
  ghost predicate Covers(db: Db, table: Table, ts: seq<Hash>) {
    forall t :: t in ts ==> t in table || MembersOf(db, t) == []
  }

  lemma NoMembers(db: Db, t: Hash)
    requires IsChain(db) && t in TxOrder(db.blocks) && MembersOf(db, t) == []
    ensures Ancestry(db, t) == {}
  {
    AncestryIsWhole(db, t);
  }

  lemma EarlierIsExact(db: Db, table: Table, p: nat, c: Hash)
    requires IsChain(db) && p <= |TxOrder(db.blocks)|
    requires Exact(db, table) && Covers(db, table, TxOrder(db.blocks)[..p]) && c in TxOrder(db.blocks)[..p]
    ensures Get(table, c) == Ancestry(db, c)
  {
    hide TxOrder, IsChain, MembersOf, Ancestry;
    if c !in table {
      NoMembers(db, c);
    }
  }

  // ---- One transaction ---------------------------------------------------------------------------

  lemma {:induction false} MembersAdded(db: Db, table: Table, p: nat, n: nat)
    requires IsChain(db) && p < |TxOrder(db.blocks)|
    requires Exact(db, table) && Covers(db, table, TxOrder(db.blocks)[..p])
    requires n <= |MembersOf(db, TxOrder(db.blocks)[p])|
    ensures var t := TxOrder(db.blocks)[p];
            AddMembers(db, table, t, MembersOf(db, t)[..n]) ==
            Some(if n == 0 then table else table[t := Get(table, t) + AncestryTo(db, t, n)])
  {
    hide TxOrder, CreatorOf, MembersOf, AncestryTo, Ancestry, TxDataAt, Members;
    var order := TxOrder(db.blocks);
    var t := order[p];
    var ms := MembersOf(db, t);
    if n == 0 {
      assert ms[..0] == [];
    } else {
      MembersAdded(db, table, p, n - 1);
      AncestryStep(db, p, n - 1);
      var a := ms[n - 1];
      var c := CreatorOf(db, a).value;
      assert ms[..n][..n - 1] == ms[..n - 1] && ms[..n][n - 1] == a;
      EarlierIsExact(db, table, p, c);
      AncestryIsWhole(db, t);
      var q :| 0 <= q < p && order[q] == c;
      assert c != t;
      var before := if n == 1 then table else table[t := Get(table, t) + AncestryTo(db, t, n - 1)];
      assert Get(before, t) + {a} + Get(before, c) == Get(table, t) + AncestryTo(db, t, n);
      assert before[t := Get(table, t) + AncestryTo(db, t, n)] == table[t := Get(table, t) + AncestryTo(db, t, n)];
    }
  }

  /** Adding a transaction to an exact table gives it its exact ancestry and changes no other entry. */
  lemma TxAdded(db: Db, table: Table, p: nat)
    requires IsChain(db) && p < |TxOrder(db.blocks)|
    requires Exact(db, table) && Covers(db, table, TxOrder(db.blocks)[..p])
    ensures var t := TxOrder(db.blocks)[p];
            AddTx(db, table, t) == Some(if HasEntry(db, t) then table[t := Ancestry(db, t)] else table)
  {
    hide TxOrder, CreatorOf, Ancestry, AncestryTo, Members;
    var order := TxOrder(db.blocks);
    var t := order[p];
    assert Resolves(db, t, order[..p]);
    var ms := MembersOf(db, t);
    MembersAdded(db, table, p, |ms|);
    assert ms[..|ms|] == ms;
    AncestryIsWhole(db, t);
    assert Get(table, t) + Ancestry(db, t) == Ancestry(db, t);
    if TxDataAt(db, t).value.coinbase {
      CoinbaseHasNone(db, t);
      NoMembers(db, t);
    }
  }

  lemma CoinbaseHasNone(db: Db, t: Hash)
    requires TxDataAt(db, t).Some? && TxDataAt(db, t).value.coinbase
    ensures MembersOf(db, t) == []
  {
  }

  // ---- Blocks ------------------------------------------------------------------------------------

  /** Adding consecutive transactions of the chain. */
  lemma {:induction false} TxsAdded(db: Db, table: Table, ts: seq<Hash>, p: nat) returns (after: Table)
    requires IsChain(db) && p + |ts| <= |TxOrder(db.blocks)| && ts == TxOrder(db.blocks)[p..p + |ts|]
    requires Exact(db, table) && Covers(db, table, TxOrder(db.blocks)[..p])
    ensures AddTxs(db, table, ts) == Some(after)
    ensures Exact(db, after) && Covers(db, after, TxOrder(db.blocks)[..p + |ts|])
    ensures after.Keys == table.Keys + EntriesOf(db, ts)
    decreases |ts|
  {
    hide *;
    var order := TxOrder(db.blocks);
    if ts == [] {
      after := table;
      assert order[..p] == order[..p + |ts|];
      NoTxs(db, table);
    } else {
      var n := |ts| - 1;
      var before := TxsAdded(db, table, ts[..n], p);
      after := TxAddedNext(db, before, p + n);
      assert ts == ts[..n] + [order[p + n]];
      TxsStep(db, table, before, ts[..n], order[p + n]);
    }
  }

  lemma NoTxs(db: Db, table: Table)
    ensures AddTxs(db, table, []) == Some(table) && EntriesOf(db, []) == {}
  {
  }

  lemma TxsStep(db: Db, table: Table, before: Table, ts: seq<Hash>, t: Hash)
    requires AddTxs(db, table, ts) == Some(before)
    ensures AddTxs(db, table, ts + [t]) == AddTx(db, before, t)
    ensures EntriesOf(db, ts + [t]) == EntriesOf(db, ts) + EntriesOf(db, [t])
  {
    hide AddTx, HasEntry;
    assert (ts + [t])[..|ts|] == ts;
  }

  lemma TxAddedNext(db: Db, before: Table, p: nat) returns (after: Table)
    requires IsChain(db) && p < |TxOrder(db.blocks)|
    requires Exact(db, before) && Covers(db, before, TxOrder(db.blocks)[..p])
    ensures AddTx(db, before, TxOrder(db.blocks)[p]) == Some(after)
    ensures Exact(db, after) && Covers(db, after, TxOrder(db.blocks)[..p + 1])
    ensures after.Keys == before.Keys + EntriesOf(db, [TxOrder(db.blocks)[p]])
  {
    hide TxOrder, Ancestry, AddTx, IsChain, HasEntry, Covers;
    var order := TxOrder(db.blocks);
    var t := order[p];
    TxAdded(db, before, p);
    after := if HasEntry(db, t) then before[t := Ancestry(db, t)] else before;
    assert order[..p + 1] == order[..p] + [t];
    Present(db, p);
    CoversNext(db, before, after, order[..p], t);
  }

  lemma Present(db: Db, p: nat)
    requires IsChain(db) && p < |TxOrder(db.blocks)|
    ensures TxDataAt(db, TxOrder(db.blocks)[p]).Some?
  {
    hide TxOrder, TxDataAt;
    assert Resolves(db, TxOrder(db.blocks)[p], TxOrder(db.blocks)[..p]);
  }

  lemma CoversNext(db: Db, before: Table, after: Table, ts: seq<Hash>, t: Hash)
    requires Covers(db, before, ts) && before.Keys <= after.Keys
    requires HasEntry(db, t) ==> t in after
    ensures Covers(db, after, ts + [t])
  {
    hide Members;
  }

  lemma MinerHasNone(db: Db, h: nat)
    requires IsChain(db) && h < |db.blocks|
    ensures MembersOf(db, db.blocks[h].minerHash) == []
  {
    hide TxOrder, TxDataAt, MembersOf;
    CoinbaseHasNone(db, db.blocks[h].minerHash);
  }

  lemma BlockAdded(db: Db, includeCoinbase: bool, table: Table, h: nat) returns (after: Table)
    requires IsChain(db) && h < |db.blocks|
    requires Exact(db, table) && Covers(db, table, TxOrder(db.blocks[..h]))
    ensures AddTxs(db, table, Listed(db.blocks[h], includeCoinbase)) == Some(after)
    ensures Exact(db, after) && after.Keys == table.Keys + EntriesOf(db, Listed(db.blocks[h], includeCoinbase))
  {
    hide TxOrder, AddTxs, Exact, EntriesOf, IsChain, MembersOf;
    var b, order, p := db.blocks[h], TxOrder(db.blocks), |TxOrder(db.blocks[..h])|;
    OrderStep(db.blocks, h);
    OrderPrefix(db.blocks, h);
    assert order[..p] == TxOrder(db.blocks[..h]);
    if includeCoinbase {
      after := TxsAdded(db, table, Listed(b, true), p);
    } else {
      assert order[..p + 1] == order[..p] + [b.minerHash];
      MinerHasNone(db, h);
      assert Listed(b, false) == b.txHashes;
      after := TxsAdded(db, table, b.txHashes, p + 1);
    }
  }

  lemma {:induction false} KeysCover(db: Db, includeCoinbase: bool, table: Table, h: nat)
    requires IsChain(db) && h <= |db.blocks| && KeysTo(db, includeCoinbase, h) <= table.Keys
    ensures Covers(db, table, TxOrder(db.blocks[..h]))
  {
    hide TxOrder, IsChain, MembersOf, HasEntry;
    if h == 0 {
      assert TxOrder(db.blocks[..0]) == [] by { NoOrder(db.blocks[..0]); }
    } else {
      KeysCover(db, includeCoinbase, table, h - 1);
      OrderStep(db.blocks, h - 1);
      MinerHasNone(db, h - 1);
      var b := db.blocks[h - 1];
      forall t | t in b.txHashes ensures t in table || MembersOf(db, t) == [] {
        if t !in table {
          assert t in Listed(b, includeCoinbase);
          assert !HasEntry(db, t);
          NoEntryNoMembers(db, t);
        }
      }
    }
  }

  lemma NoOrder(blocks: seq<Block>)
    requires blocks == []
    ensures TxOrder(blocks) == []
  {
  }

  lemma NoEntryNoMembers(db: Db, t: Hash)
    requires !HasEntry(db, t)
    ensures MembersOf(db, t) == []
  {
  }

  lemma {:induction false} KeysGrow(db: Db, includeCoinbase: bool, h: nat, k: nat)
    requires h <= k <= |db.blocks|
    ensures KeysTo(db, includeCoinbase, h) <= KeysTo(db, includeCoinbase, k)
  {
    hide EntriesOf;
    if h < k {
      KeysGrow(db, includeCoinbase, h, k - 1);
    }
  }

  /** Running blocks first..end on the table of the first s blocks, with first <= s. */
  lemma {:induction false} BlocksAdded(db: Db, includeCoinbase: bool, table: Table, s: nat, first: nat, end: nat)
      returns (after: Table)
    requires IsChain(db) && first <= s <= |db.blocks| && first <= end <= |db.blocks|
    requires IsTable(db, includeCoinbase, table, s)
    ensures AddBlocks(db, includeCoinbase, table, first, end) == Some(after)
    ensures IsTable(db, includeCoinbase, after, if s <= end then end else s)
    decreases end
  {
    hide TxOrder, IsChain, MembersOf, HasEntry, Exact, AddTxs, EntriesOf, Listed;
    if end == first {
      after := table;
    } else {
      var before := BlocksAdded(db, includeCoinbase, table, s, first, end - 1);
      KeysGrow(db, includeCoinbase, end - 1, if s <= end - 1 then end - 1 else s);
      KeysCover(db, includeCoinbase, before, end - 1);
      after := BlockAdded(db, includeCoinbase, before, end - 1);
      if end <= s {
        KeysGrow(db, includeCoinbase, end, s);
      }
    }
  }

  lemma EmptyTable(db: Db, includeCoinbase: bool)
    requires IsChain(db)
    ensures IsTable(db, includeCoinbase, map[], 0)
  {
  }

  lemma TableUnique(db: Db, includeCoinbase: bool, x: Table, y: Table, h: nat)
    requires IsChain(db) && h <= |db.blocks| && IsTable(db, includeCoinbase, x, h) && IsTable(db, includeCoinbase, y, h)
    ensures x == y
  {
    hide TxOrder, IsChain, Ancestry, KeysTo;
    forall t | t in x ensures t in y && x[t] == y[t] {
      assert t in x.Keys;
      assert t in y.Keys;
    }
    assert x.Keys == y.Keys;
  }

  /**
   A state file: nothing done yet, or the table of all blocks up to and including the saved height.
   */
  ghost predicate Saved(db: Db, includeCoinbase: bool, table: Table, height: nat)
    requires IsChain(db)
  {
    || (height == 0 && table == map[])
    || (height < |db.blocks| && IsTable(db, includeCoinbase, table, height + 1))
  }

  /** A pass from a state file runs to its end and leaves the exact table of the blocks done. */
  lemma SavedPass(db: Db, includeCoinbase: bool, table: Table, first: nat, end: nat) returns (after: Table)
    requires IsChain(db) && first < end <= |db.blocks| && Saved(db, includeCoinbase, table, first)
    ensures AddBlocks(db, includeCoinbase, table, first, end) == Some(after)
    ensures IsTable(db, includeCoinbase, after, end)
  {
    hide IsChain, IsTable, AddBlocks;
    if first == 0 && table == map[] {
      EmptyTable(db, includeCoinbase);
      after := BlocksAdded(db, includeCoinbase, map[], 0, 0, end);
    } else {
      after := BlocksAdded(db, includeCoinbase, table, first + 1, first, end);
    }
  }

  /** After a full pass every transaction of the chain reads as its exact ancestry. */
  lemma FullPass(db: Db, includeCoinbase: bool, t: Hash) returns (table: Table)
    requires IsChain(db) && t in TxOrder(db.blocks)
    ensures AddBlocks(db, includeCoinbase, map[], 0, |db.blocks|) == Some(table)
    ensures Get(table, t) == Ancestry(db, t)
  {
    hide TxOrder, IsChain, Ancestry, AddBlocks, KeysTo, Covers, Exact, Get;
    EmptyTable(db, includeCoinbase);
    table := BlocksAdded(db, includeCoinbase, map[], 0, 0, |db.blocks|);
    assert db.blocks[..|db.blocks|] == db.blocks;
    KeysCover(db, includeCoinbase, table, |db.blocks|);
    var order := TxOrder(db.blocks);
    assert order[..|order|] == order;
    EarlierIsExact(db, table, |order|, t);
  }

  /** The forward pass gives each transaction exactly the outputs its ring-reference paths reach. */
  lemma ForwardIsClosure(db: Db, includeCoinbase: bool, t: Hash) returns (table: Table)
    requires IsChain(db) && t in TxOrder(db.blocks)
    ensures AddBlocks(db, includeCoinbase, map[], 0, |db.blocks|) == Some(table)
    ensures Ordered(GraphOf(db))
    ensures forall a :: a in Get(table, t) <==> Reaches(GraphOf(db), IndexOf(TxOrder(db.blocks), t), a)
  {
    hide TxOrder, IsChain, Closure, GraphOf, AddBlocks, Reaches, Get;
    table := FullPass(db, includeCoinbase, t);
    GraphIsOrdered(db);
    forall a ensures a in Get(table, t) <==> Reaches(GraphOf(db), IndexOf(TxOrder(db.blocks), t), a) {
      ClosureIsReachability(GraphOf(db), IndexOf(TxOrder(db.blocks), t), a);
    }
  }
}
