/**
 A saved ancestry table stays good while the chain grows, so a stopped and resumed pass ends
 with the table of one uninterrupted pass.
 */
module AncestryResume {
  import opened AncestryTable
  import opened ChainDb
  import opened Options
  import opened RingGraph

  /** The later database keeps every block, transaction and output of the earlier one. */
  ghost predicate Extends(x: Db, y: Db) {
    && x.blocks <= y.blocks
    && (forall t :: t in x.txs ==> t in y.txs && y.txs[t] == x.txs[t])
    && (forall a :: a in x.outputs ==> a in y.outputs && y.outputs[a] == x.outputs[a])
  }

  lemma {:induction false} FindInKept(x: Db, y: Db, hashes: seq<Hash>, key: Key)
    requires Extends(x, y) && FindIn(x, hashes, key).Some?
    ensures FindIn(y, hashes, key) == FindIn(x, hashes, key)
  {
    if key !in TxDataAt(x, hashes[0]).value.vout {
      FindInKept(x, y, hashes[1..], key);
    }
  }

  /** A creator found before is found again. */
  lemma CreatorKept(x: Db, y: Db, a: Ancestor)
    requires Extends(x, y) && CreatorOf(x, a).Some?
    ensures CreatorOf(y, a) == CreatorOf(x, a)
  {
    hide TxDataAt;
    var b := x.blocks[x.outputs[a].height];
    if x.outputs[a].key !in b.minerVout {
      FindInKept(x, y, b.txHashes, x.outputs[a].key);
    }
  }

  lemma TxKept(x: Db, y: Db, p: nat)
    requires Extends(x, y) && IsChain(x) && p < |TxOrder(x.blocks)|
    ensures TxDataAt(y, TxOrder(x.blocks)[p]) == TxDataAt(x, TxOrder(x.blocks)[p])
    ensures TxDataAt(x, TxOrder(x.blocks)[p]).Some?
  {
    hide TxOrder;
    Present(x, p);
  }

  lemma OrderKept(x: Db, y: Db)
    requires Extends(x, y)
    ensures TxOrder(x.blocks) <= TxOrder(y.blocks)
  {
    assert y.blocks[..|x.blocks|] == x.blocks;
    OrderPrefix(y.blocks, |x.blocks|);
  }

  lemma RefsKept(x: Db, y: Db, p: nat)
    requires Extends(x, y) && IsChain(x) && IsChain(y) && p < |TxOrder(x.blocks)|
    ensures p < |TxOrder(y.blocks)| && GraphOf(x)[p] == GraphOf(y)[p]
  {
    hide TxOrder, TxDataAt, Members, CreatorOf, FindIn, RefOf;
    OrderKept(x, y);
    TxKept(x, y, p);
    var t := TxOrder(x.blocks)[p];
    var ms := Members(TxDataAt(x, t).value.vin);
    assert TxOrder(y.blocks)[p] == t;
    forall i | 0 <= i < |ms| ensures GraphOf(x)[p][i] == GraphOf(y)[p][i] {
      RefAt(x, p, i);
      RefAt(y, p, i);
      CreatorKept(x, y, ms[i]);
    }
    assert |GraphOf(x)[p]| == |GraphOf(y)[p]| == |ms|;
  }

  lemma {:induction false} ClosureKept(g: Graph, g': Graph, p: nat, n: nat)
    requires Ordered(g) && Ordered(g') && g <= g' && p < |g| && n <= |g[p]|
    ensures ClosureTo(g, p, n) == ClosureTo(g', p, n)
    decreases p, n
  {
    if n > 0 {
      var c := g[p][n - 1].creator;
      ClosureKept(g, g', p, n - 1);
      ClosureKept(g, g', c, |g[c]|);
    }
  }

  lemma AncestryKept(x: Db, y: Db, t: Hash)
    requires Extends(x, y) && IsChain(x) && IsChain(y) && t in TxOrder(x.blocks)
    ensures t in TxOrder(y.blocks) && Ancestry(y, t) == Ancestry(x, t)
  {
    hide TxOrder, GraphOf, IsChain, ClosureTo;
    GraphIsOrdered(x);
    GraphIsOrdered(y);
    OrderKept(x, y);
    var g: Graph, g': Graph := GraphOf(x), GraphOf(y);
    forall q | 0 <= q < |g| ensures q < |g'| && g[q] == g'[q] {
      RefsKept(x, y, q);
    }
    var p := IndexOf(TxOrder(x.blocks), t);
    SameIndex(y, p);
    ClosureKept(g, g', p, |g[p]|);
  }

  lemma SameIndex(db: Db, p: nat)
    requires IsChain(db) && p < |TxOrder(db.blocks)|
    ensures IndexOf(TxOrder(db.blocks), TxOrder(db.blocks)[p]) == p
  {
    hide TxOrder;
    IndexUnique(TxOrder(db.blocks), p);
  }

  lemma {:induction false} KeysKept(x: Db, y: Db, includeCoinbase: bool, h: nat)
    requires Extends(x, y) && IsChain(x) && h <= |x.blocks|
    ensures KeysTo(y, includeCoinbase, h) == KeysTo(x, includeCoinbase, h)
  {
    hide TxOrder, TxDataAt, Members, IsChain;
    if h > 0 {
      KeysKept(x, y, includeCoinbase, h - 1);
      var ts := Listed(x.blocks[h - 1], includeCoinbase);
      forall t | t in ts ensures TxDataAt(y, t) == TxDataAt(x, t) {
        ListedInOrder(x, includeCoinbase, h - 1, t);
        TxKept(x, y, IndexOf(TxOrder(x.blocks), t));
      }
    }
  }

  lemma ListedInOrder(db: Db, includeCoinbase: bool, h: nat, t: Hash)
    requires h < |db.blocks| && t in Listed(db.blocks[h], includeCoinbase)
    ensures t in TxOrder(db.blocks)
  {
    hide TxOrder;
    OrderStep(db.blocks, h);
    assert t in BlockTxs(db.blocks[h]);
    assert t in TxOrder(db.blocks[..h + 1]);
  }

  /** A table saved for h blocks is the table of the same h blocks on the longer chain. */
  lemma TableKept(x: Db, y: Db, includeCoinbase: bool, table: Table, h: nat)
    requires Extends(x, y) && IsChain(x) && IsChain(y) && h <= |x.blocks| && IsTable(x, includeCoinbase, table, h)
    ensures IsTable(y, includeCoinbase, table, h)
  {
    hide TxOrder, IsChain, Ancestry, KeysTo, Extends;
    KeysKept(x, y, includeCoinbase, h);
    forall t | t in table ensures t in TxOrder(y.blocks) && table[t] == Ancestry(y, t) {
      AncestryKept(x, y, t);
    }
  }

  /**
   Stop after any block, let the chain grow, resume from the saved height: the table is that of
   one uninterrupted pass.  The saved height is the last block done, so that block is run twice.
   */
  lemma ResumeIsFullPass(x: Db, y: Db, includeCoinbase: bool, last: nat, end: nat) returns (saved: Table, table: Table)
    requires Extends(x, y) && IsChain(x) && IsChain(y) && last < |x.blocks| && last < end <= |y.blocks|
    ensures AddBlocks(x, includeCoinbase, map[], 0, last + 1) == Some(saved)
    ensures AddBlocks(y, includeCoinbase, saved, last, end) == Some(table)
    ensures AddBlocks(y, includeCoinbase, map[], 0, end) == Some(table)
  {
    hide *;
    LongerBlocks(x, y);
    EmptyTable(x, includeCoinbase);
    saved := BlocksAdded(x, includeCoinbase, map[], 0, 0, last + 1);
    TableKept(x, y, includeCoinbase, saved, last + 1);
    table := BlocksAdded(y, includeCoinbase, saved, last + 1, last, end);
    EmptyTable(y, includeCoinbase);
    var direct := BlocksAdded(y, includeCoinbase, map[], 0, 0, end);
    TableUnique(y, includeCoinbase, table, direct, end);
  }

  lemma LongerBlocks(x: Db, y: Db)
    requires Extends(x, y)
    ensures |x.blocks| <= |y.blocks|
  {
  }

  // ---- Resuming with the other choice about coinbase transactions -----------------------------------

  /** The entries that blocks first up to end get. */
  function KeysBetween(db: Db, includeCoinbase: bool, first: nat, end: nat): set<Hash>
    requires end <= |db.blocks|
    decreases end
  {
    if end <= first then {}
    else KeysBetween(db, includeCoinbase, first, end - 1) + EntriesOf(db, Listed(db.blocks[end - 1], includeCoinbase))
  }

  lemma EntriesMore(db: Db, includeCoinbase: bool, h: nat)
    requires h < |db.blocks|
    ensures EntriesOf(db, Listed(db.blocks[h], false)) <= EntriesOf(db, Listed(db.blocks[h], includeCoinbase))
  {
    hide HasEntry;
    var b := db.blocks[h];
    assert forall t :: t in Listed(b, false) ==> t in Listed(b, includeCoinbase);
  }

  lemma {:induction false} KeysMore(db: Db, includeCoinbase: bool, h: nat)
    requires h <= |db.blocks|
    ensures KeysTo(db, false, h) <= KeysTo(db, includeCoinbase, h)
  {
    hide EntriesOf, Listed;
    if h > 0 {
      KeysMore(db, includeCoinbase, h - 1);
      EntriesMore(db, includeCoinbase, h - 1);
    }
  }

  /** Blocks run with either choice on the table of the first s blocks: every entry is exact, and no block loses one. */
  lemma {:induction false} MixedBlocks(db: Db, was: bool, now: bool, table: Table, s: nat, first: nat, end: nat)
      returns (after: Table)
    requires IsChain(db) && first <= s <= |db.blocks| && first <= end <= |db.blocks| && IsTable(db, was, table, s)
    ensures AddBlocks(db, now, table, first, end) == Some(after) && Exact(db, after)
    ensures after.Keys == KeysTo(db, was, s) + KeysBetween(db, now, first, end)
    ensures KeysTo(db, false, if s <= end then end else s) <= after.Keys
    decreases end
  {
    hide TxOrder, IsChain, MembersOf, HasEntry, Exact, AddTxs, EntriesOf, Listed;
    KeysMore(db, was, s);
    if end == first {
      after := table;
    } else {
      var before := MixedBlocks(db, was, now, table, s, first, end - 1);
      KeysGrow(db, false, end - 1, if s <= end - 1 then end - 1 else s);
      KeysCover(db, false, before, end - 1);
      after := BlockAdded(db, now, before, end - 1);
      EntriesMore(db, now, end - 1);
    }
  }

  /**
   A resumed pass may use another choice about coinbase transactions than the pass that was stopped.
   Blocks before the saved height then keep the entries of the first choice, later ones get those of
   the second, and the block of the saved height has both.  Every transaction of the blocks done
   still reads as its exact ancestry.
   */
  lemma ResumeWithEither(x: Db, y: Db, was: bool, now: bool, last: nat, end: nat) returns (saved: Table, table: Table)
    requires Extends(x, y) && IsChain(x) && IsChain(y) && last < |x.blocks| && last < end <= |y.blocks|
    ensures AddBlocks(x, was, map[], 0, last + 1) == Some(saved)
    ensures AddBlocks(y, now, saved, last, end) == Some(table)
    ensures table.Keys == KeysTo(y, was, last + 1) + KeysBetween(y, now, last, end)
    ensures forall t :: t in TxOrder(y.blocks[..end]) ==> t in TxOrder(y.blocks) && Get(table, t) == Ancestry(y, t)
  {
    hide *;
    LongerBlocks(x, y);
    EmptyTable(x, was);
    saved := BlocksAdded(x, was, map[], 0, 0, last + 1);
    TableKept(x, y, was, saved, last + 1);
    table := MixedBlocks(y, was, now, saved, last + 1, last, end);
    KeysCover(y, false, table, end);
    OrderPrefix(y.blocks, end);
    var p := |TxOrder(y.blocks[..end])|;
    assert TxOrder(y.blocks)[..p] == TxOrder(y.blocks[..end]);
    forall t | t in TxOrder(y.blocks[..end]) ensures t in TxOrder(y.blocks) && Get(table, t) == Ancestry(y, t) {
      EarlierIsExact(y, table, p, t);
    }
  }
}
