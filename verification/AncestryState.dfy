/**
 The ancestry tool itself: a resumable forward pass over the chain and a backward walk from one
 transaction, both reading the database through three caches.
 */
module AncestryState {
  import opened AncestryResume
  import opened AncestryTable
  import opened AncestryWalk
  import opened ChainDb
  import opened Options
  import opened RingGraph

  /** A vector resized to n slots; new slots are empty. */
  function Resized<T>(s: seq<Option<T>>, n: nat): (r: seq<Option<T>>)
    ensures |r| == n
  {
    if n <= |s| then s[..n] else s + seq(n - |s|, _ => None)
  }

  /** The block after which a pass that began at height first ends, when stop is asked for at block stopAt. */
  function EndOfPass(first: nat, blocks: nat, stopAt: nat): (end: nat)
    ensures first <= end && (first <= blocks ==> end <= blocks)
    ensures first < blocks ==> first < end
  {
    if blocks <= first then first
    else if stopAt < first then first + 1
    else if stopAt < blocks then stopAt + 1
    else blocks
  }

  class State {
    const cacheOutputs: bool
    const cacheTxes: bool
    const cacheBlocks: bool
    var height: nat
    var ancestry: Table
    var outputCache: map<Ancestor, Hash>
    var txCache: map<Hash, TxData>
    var blockCache: seq<Option<Block>>

    constructor (cacheOutputs: bool, cacheTxes: bool, cacheBlocks: bool)
      ensures height == 0 && ancestry == map[]
      ensures forall db :: Agrees(db)
    {
      this.cacheOutputs, this.cacheTxes, this.cacheBlocks := cacheOutputs, cacheTxes, cacheBlocks;
      height, ancestry, outputCache, txCache, blockCache := 0, map[], map[], map[], [];
    }

    /** Whatever is cached is what the database would answer. */
    ghost predicate Agrees(db: Db)
      reads `outputCache, `txCache, `blockCache
    {
      && (forall a :: a in outputCache ==> CreatorOf(db, a) == Some(outputCache[a]))
      && (forall t :: t in txCache ==> TxDataAt(db, t) == Some(txCache[t]))
      && (forall h :: 0 <= h < |blockCache| && blockCache[h].Some? ==> BlockAt(db, h) == blockCache[h])
    }

    method CacheBlock(db: Db, h: nat, b: Block)
      requires Agrees(db) && BlockAt(db, h) == Some(b)
      modifies `blockCache
      ensures Agrees(db)
    {
      hide BlockAt, CreatorOf, TxDataAt;
      if cacheBlocks {
        blockCache := Resized(blockCache, h + 1);
        blockCache := blockCache[h := Some(b)];
      }
    }

    method GetBlock(db: Db, h: nat) returns (b: Option<Block>)
      requires Agrees(db)
      modifies `blockCache
      ensures Agrees(db) && b == BlockAt(db, h)
    {
      hide CreatorOf, TxDataAt;
      if h < |blockCache| && blockCache[h].Some? {
        return blockCache[h];
      }
      if h >= |db.blocks| {
        return None;
      }
      CacheBlock(db, h, db.blocks[h]);
      b := Some(db.blocks[h]);
    }

    method GetTransaction(db: Db, t: Hash) returns (data: Option<TxData>)
      requires Agrees(db)
      modifies `txCache
      ensures Agrees(db) && data == TxDataAt(db, t)
    {
      hide CreatorOf, BlockAt;
      if t in txCache {
        return Some(txCache[t]);
      }
      if t !in db.txs {
        return None;
      }
      data := MakeTxData(db.txs[t]);
      if cacheTxes && data.Some? {
        txCache := txCache[t := data.value];
      }
    }

    method GetOutputTxid(db: Db, a: Ancestor) returns (c: Option<Hash>)
      requires Agrees(db)
      modifies `blockCache, `txCache, `outputCache
      ensures Agrees(db) && c == CreatorOf(db, a)
    {
      hide FindIn, BlockAt, TxDataAt;
      if a in outputCache {
        return Some(outputCache[a]);
      }
      if a !in db.outputs {
        return None;
      }
      var od := db.outputs[a];
      var b := GetBlock(db, od.height);
      if b.None? {
        return None;
      }
      if od.key in b.value.minerVout {
        c := Some(b.value.minerHash);
      } else {
        c := FindTx(db, b.value.txHashes, od.key);
      }
      if cacheOutputs && c.Some? {
        outputCache := outputCache[a := c.value];
      }
    }

    method FindTx(db: Db, hashes: seq<Hash>, key: Key) returns (c: Option<Hash>)
      requires Agrees(db)
      modifies `txCache
      ensures Agrees(db) && c == FindIn(db, hashes, key)
    {
      hide CreatorOf, BlockAt, TxDataAt;
      for i := 0 to |hashes|
        invariant Agrees(db)
        invariant FindIn(db, hashes, key) == FindIn(db, hashes[i..], key)
      {
        assert hashes[i..][1..] == hashes[i + 1..];
        var data := GetTransaction(db, hashes[i]);
        if data.None? {
          return None;
        }
        if key in data.value.vout {
          return Some(hashes[i]);
        }
      }
      c := None;
    }

    // ---- Forward pass ----------------------------------------------------------------------

    method AddRing(db: Db, t: Hash, r: Ring) returns (ok: bool)
      requires Agrees(db)
      modifies `blockCache, `txCache, `outputCache, `ancestry
      ensures Agrees(db)
      ensures ok == AddMembers(db, old(ancestry), t, RingMembers(r)).Some?
      ensures ok ==> AddMembers(db, old(ancestry), t, RingMembers(r)) == Some(ancestry)
    {
      hide CreatorOf, Agrees;
      ghost var ms := RingMembers(r);
      for j := 0 to |r.offsets|
        invariant Agrees(db) && AddMembers(db, old(ancestry), t, ms[..j]) == Some(ancestry)
      {
        var a := Ancestor(r.amount, r.offsets[j]);
        assert ms[..j + 1][..j] == ms[..j] && ms[..j + 1][j] == a;
        ghost var before := ancestry;
        ancestry := ancestry[t := Get(ancestry, t) + {a}];
        var c := GetOutputTxid(db, a);
        if c.None? {
          FailsOn(db, old(ancestry), t, ms, j + 1);
          return false;
        }
        ancestry := ancestry[t := Get(ancestry, t) + Get(ancestry, c.value)];
        MemberAdded(before, t, a, c.value);
      }
      assert ms[..|ms|] == ms;
      ok := true;
    }

    method AddTransaction(db: Db, t: Hash) returns (ok: bool)
      requires Agrees(db)
      modifies `blockCache, `txCache, `outputCache, `ancestry
      ensures Agrees(db)
      ensures ok == AddTx(db, old(ancestry), t).Some?
      ensures ok ==> AddTx(db, old(ancestry), t) == Some(ancestry)
    {
      hide TxDataAt, Agrees, AddMembers, RingMembers;
      var data := GetTransaction(db, t);
      if data.None? {
        return false;
      }
      if data.value.coinbase {
        ancestry := ancestry[t := Get(ancestry, t)];
        return true;
      }
      var vin := data.value.vin;
      AddNone(db, ancestry, t, Members(vin[..0]));
      for ring := 0 to |vin|
        invariant Agrees(db) && AddMembers(db, old(ancestry), t, Members(vin[..ring])) == Some(ancestry)
      {
        MembersAt(vin, ring);
        AddMembersConcat(db, old(ancestry), t, Members(vin[..ring]), RingMembers(vin[ring]));
        ok := AddRing(db, t, vin[ring]);
        if !ok {
          assert Members(vin)[..|Members(vin[..ring + 1])|] == Members(vin[..ring + 1]);
          FailsOn(db, old(ancestry), t, Members(vin), |Members(vin[..ring + 1])|);
          return;
        }
      }
      assert vin[..|vin|] == vin;
      ok := true;
    }

    method AddBlock(db: Db, includeCoinbase: bool, b: Block) returns (ok: bool)
      requires Agrees(db)
      modifies `blockCache, `txCache, `outputCache, `ancestry
      ensures Agrees(db)
      ensures ok == AddTxs(db, old(ancestry), Listed(b, includeCoinbase)).Some?
      ensures ok ==> AddTxs(db, old(ancestry), Listed(b, includeCoinbase)) == Some(ancestry)
    {
      hide AddTx, Agrees, Listed;
      var txids := if includeCoinbase then [b.minerHash] else [];
      txids := txids + b.txHashes;
      IsListed(b, includeCoinbase);
      for i := 0 to |txids|
        invariant Agrees(db) && AddTxs(db, old(ancestry), txids[..i]) == Some(ancestry)
      {
        assert txids[..i + 1][..i] == txids[..i];
        ok := AddTransaction(db, txids[i]);
        if !ok {
          TxsFailOn(db, old(ancestry), txids, i + 1);
          return;
        }
      }
      assert txids[..|txids|] == txids;
      ok := true;
    }

    /** The forward pass, from the saved height until the end of the chain or a stop request. */
    method Refresh(db: Db, includeCoinbase: bool, stopAt: nat) returns (ok: bool)
      requires Agrees(db)
      modifies this
      ensures Agrees(db)
      ensures old(height) >= |db.blocks| ==> ok && height == old(height) && ancestry == old(ancestry)
      ensures old(height) < |db.blocks| && ok ==>
                var end := EndOfPass(old(height), |db.blocks|, stopAt);
                height == end - 1 && AddBlocks(db, includeCoinbase, old(ancestry), old(height), end) == Some(ancestry)
      ensures old(height) < |db.blocks| && !ok ==>
                AddBlocks(db, includeCoinbase, old(ancestry), old(height),
                          EndOfPass(old(height), |db.blocks|, stopAt)).None?
      ensures old(height) < |db.blocks| && IsChain(db) && Saved(db, includeCoinbase, old(ancestry), old(height)) ==>
                ok && IsTable(db, includeCoinbase, ancestry, height + 1)
    {
      hide AddTxs, CreatorOf, TxDataAt, IsChain, Saved, IsTable;
      ghost var first, end := height, EndOfPass(height, |db.blocks|, stopAt);
      if height < |db.blocks| && IsChain(db) && Saved(db, includeCoinbase, ancestry, height) {
        ghost var after := SavedPass(db, includeCoinbase, ancestry, height, end);
      }
      var h := height;
      while h < |db.blocks|
        invariant first <= h <= end && Agrees(db)
        invariant h == first ==> height == first && ancestry == old(ancestry)
        invariant h > first ==> height == h - 1
        invariant h <= |db.blocks| ==> AddBlocks(db, includeCoinbase, old(ancestry), first, h) == Some(ancestry)
        invariant h > first && stopAt < h ==> false
        invariant h >= |db.blocks| && first < |db.blocks| ==> h == end
      {
        var b := db.blocks[h];
        CacheBlock(db, h, b);
        ok := AddBlock(db, includeCoinbase, b);
        if !ok {
          BlocksFailOn(db, includeCoinbase, old(ancestry), first, h + 1, end);
          return;
        }
        height := h;
        h := h + 1;
        if height >= stopAt {
          break;
        }
      }
      assert first < |db.blocks| ==> h == end;
      ok := true;
    }

    // ---- Backward walk -----------------------------------------------------------------------

    method FollowRing(db: Db, w: Walk, r: Ring) returns (after: Option<Walk>)
      requires Agrees(db)
      modifies `blockCache, `txCache, `outputCache
      ensures Agrees(db) && after == FollowAll(db, w, RingMembers(r))
    {
      hide CreatorOf, Agrees;
      ghost var ms := RingMembers(r);
      var counts, queue := w.counts, w.queue;
      for j := 0 to |r.offsets|
        invariant Agrees(db) && FollowAll(db, w, ms[..j]) == Some(Walk(counts, queue))
      {
        var a := Ancestor(r.amount, r.offsets[j]);
        assert ms[..j + 1][..j] == ms[..j] && ms[..j + 1][j] == a;
        counts := Bump(counts, a);
        var c := GetOutputTxid(db, a);
        if c.None? {
          FollowFailsOn(db, w, ms, j + 1);
          return None;
        }
        queue := queue + [c.value];
      }
      assert ms[..|ms|] == ms;
      after := Some(Walk(counts, queue));
    }

    method FollowTransaction(db: Db, w: Walk, t: Hash) returns (after: Option<Walk>)
      requires Agrees(db)
      modifies `blockCache, `txCache, `outputCache
      ensures Agrees(db) && after == FollowTx(db, w, t)
    {
      hide TxDataAt, Agrees, FollowAll, RingMembers;
      var data := GetTransaction(db, t);
      if data.None? {
        return None;
      }
      if data.value.coinbase {
        CoinbaseHasNone(db, t);
        FollowNone(db, w, MembersOf(db, t));
        return Some(w);
      }
      var vin, current := data.value.vin, w;
      FollowNone(db, w, Members(vin[..0]));
      for ring := 0 to |vin|
        invariant Agrees(db) && FollowAll(db, w, Members(vin[..ring])) == Some(current)
      {
        MembersAt(vin, ring);
        FollowAllConcat(db, w, Members(vin[..ring]), RingMembers(vin[ring]));
        after := FollowRing(db, current, vin[ring]);
        if after.None? {
          assert Members(vin)[..|Members(vin[..ring + 1])|] == Members(vin[..ring + 1]);
          FollowFailsOn(db, w, Members(vin), |Members(vin[..ring + 1])|);
          return;
        }
        current := after.value;
      }
      assert vin[..|vin|] == vin;
      after := Some(current);
    }

    /** The backward walk from one transaction; it ends on every chain. */
    method WalkFrom(db: Db, start: Hash) returns (counts: Option<Counts>)
      requires Agrees(db) && IsChain(db)
      modifies `blockCache, `txCache, `outputCache
      ensures Agrees(db)
      ensures counts.Some? <==> start in TxOrder(db.blocks)
      ensures counts.Some? ==> Reports(db, start, counts.value)
    {
      hide IsChain, Agrees, TxOrder, Balanced, Reports, Steps, Waiting;
      var w := Walk(map[], [start]);
      if start !in db.txs {
        NotStored(db, start);
        return None;
      }
      Stored(db, start);
      StartBalanced(db, start);
      ghost var exact: Counts := map[];
      AllWaiting(db, start, w, exact);
      while w.queue != []
        invariant Agrees(db) && Balanced(db, start, w, exact) && Waiting(db, w.queue)
        decreases Steps(db, w.queue)
      {
        ghost var w', exact' := TxFollowed(db, start, w, exact);
        var after := FollowTransaction(db, Walk(w.counts, w.queue[1..]), w.queue[0]);
        w, exact := after.value, exact';
        AllWaiting(db, start, w, exact);
      }
      WalkDone(db, start, w, exact);
      counts := Some(w.counts);
    }
  }

  lemma IsListed(b: Block, includeCoinbase: bool)
    ensures (if includeCoinbase then [b.minerHash] else []) + b.txHashes == Listed(b, includeCoinbase)
  {
  }

  lemma MemberAdded(table: Table, t: Hash, a: Ancestor, c: Hash)
    ensures var mid := table[t := Get(table, t) + {a}];
            mid[t := Get(mid, t) + Get(mid, c)] == table[t := Get(table, t) + {a} + Get(table, c)]
  {
    var mid := table[t := Get(table, t) + {a}];
    assert Get(mid, t) + Get(mid, c) == Get(table, t) + {a} + Get(table, c);
  }

  lemma FollowNone(db: Db, w: Walk, ms: seq<Ancestor>)
    requires ms == []
    ensures FollowAll(db, w, ms) == Some(w)
  {
  }

  lemma Stored(db: Db, t: Hash)
    requires IsChain(db) && t in db.txs
    ensures t in TxOrder(db.blocks)
  {
  }

  lemma NotStored(db: Db, t: Hash)
    requires IsChain(db) && t !in db.txs
    ensures t !in TxOrder(db.blocks)
  {
    hide TxOrder;
    if t in TxOrder(db.blocks) {
      Present(db, IndexOf(TxOrder(db.blocks), t));
    }
  }

  lemma AllWaiting(db: Db, start: Hash, w: Walk, exact: Counts)
    requires IsChain(db) && start in TxOrder(db.blocks) && Balanced(db, start, w, exact)
    ensures Waiting(db, w.queue)
  {
  }

  /** Caches filled from an earlier state of the chain agree with the longer chain. */
  lemma AgreesKept(s: State, x: Db, y: Db)
    requires s.Agrees(x) && Extends(x, y)
    ensures s.Agrees(y)
  {
    hide CreatorOf;
    forall a | a in s.outputCache ensures CreatorOf(y, a) == Some(s.outputCache[a]) {
      CreatorKept(x, y, a);
    }
  }

  // ---- Failures stay failures ----------------------------------------------------------------

  lemma AddNone(db: Db, table: Table, t: Hash, ms: seq<Ancestor>)
    requires ms == []
    ensures AddMembers(db, table, t, ms) == Some(table)
  {
  }

  lemma {:induction false} FailsOn(db: Db, table: Table, t: Hash, ms: seq<Ancestor>, n: nat)
    requires n <= |ms| && AddMembers(db, table, t, ms[..n]).None?
    ensures AddMembers(db, table, t, ms).None?
    decreases |ms|
  {
    if n == |ms| {
      assert ms[..n] == ms;
    } else {
      assert ms[..|ms| - 1][..n] == ms[..n];
      FailsOn(db, table, t, ms[..|ms| - 1], n);
    }
  }

  lemma {:induction false} TxsFailOn(db: Db, table: Table, ts: seq<Hash>, n: nat)
    requires n <= |ts| && AddTxs(db, table, ts[..n]).None?
    ensures AddTxs(db, table, ts).None?
    decreases |ts|
  {
    if n == |ts| {
      assert ts[..n] == ts;
    } else {
      assert ts[..|ts| - 1][..n] == ts[..n];
      TxsFailOn(db, table, ts[..|ts| - 1], n);
    }
  }

  lemma {:induction false} BlocksFailOn(db: Db, includeCoinbase: bool, table: Table, first: nat, n: nat, end: nat)
    requires first <= n <= end <= |db.blocks| && AddBlocks(db, includeCoinbase, table, first, n).None?
    ensures AddBlocks(db, includeCoinbase, table, first, end).None?
    decreases end
  {
    if n < end {
      BlocksFailOn(db, includeCoinbase, table, first, n, end - 1);
    }
  }
}
