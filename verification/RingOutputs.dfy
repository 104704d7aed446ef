/**
 The ring-reference tools against the raw inputs: which outputs a transaction lists, and that the
 forward table, the graph behind the backward walk and the depth search follow every one of them.
 */
module RingOutputs {
  import opened AncestryTable
  import opened AncestryWalk
  import opened ChainDb
  import opened DepthSearch
  import opened Options
  import opened RingGraph

  // ---- What an input lists -------------------------------------------------------------------------

  function Sum(xs: seq<Word>): nat {
    if xs == [] then 0 else Sum(xs[..|xs| - 1]) + xs[|xs| - 1]
  }

  /** The index an input names in place k: its offsets up to there added up, as 64-bit words. */
  function OffsetAt(input: Input, k: nat): nat
    requires input.ToKey? && k < |input.keyOffsets|
  {
    Sum(input.keyOffsets[..k + 1]) % TWO64
  }

  predicate ListsAt(input: Input, k: nat, a: Ancestor) {
    && input.ToKey? && k < |input.keyOffsets|
    && input.amount == a.amount && OffsetAt(input, k) == a.offset
  }

  /** Some input of the amount lists the offset. */
  ghost predicate Lists(vin: seq<Input>, a: Ancestor) {
    exists i: nat, k: nat :: i < |vin| && ListsAt(vin[i], k, a)
  }

  /** How many outputs the inputs before input i list, each counted as often as it is listed. */
  function ListedBefore(vin: seq<Input>, i: nat): nat
    requires i <= |vin|
  {
    if i == 0 then 0 else ListedBefore(vin, i - 1) + if vin[i - 1].ToKey? then |vin[i - 1].keyOffsets| else 0
  }

  lemma {:induction false} AbsoluteIsSum(relative: seq<Word>, k: nat)
    requires k < |relative|
    ensures Absolute(relative)[k] == Sum(relative[..k + 1]) % TWO64
    decreases k
  {
    hide Absolute;
    AbsoluteAt(relative, k);
    assert relative[..k + 1][..k] == relative[..k];
    if k > 0 {
      AbsoluteIsSum(relative, k - 1);
      SumOfWords(Sum(relative[..k]), relative[k]);
    }
  }

  lemma SumOfWords(x: nat, y: nat)
    ensures (x % TWO64 + y) % TWO64 == (x + y) % TWO64
  {
    assert x == x / TWO64 * TWO64 + x % TWO64;
    assert (x + y) - (x % TWO64 + y) == x / TWO64 * TWO64;
  }

  /** Place k of a ring holds what its input lists there. */
  lemma RingMemberAt(input: Input, k: nat)
    requires input.ToKey? && k < |input.keyOffsets|
    ensures RingMembers(RingOf(input))[k] == Ancestor(input.amount, OffsetAt(input, k))
  {
    hide Absolute, Sum;
    AbsoluteIsSum(input.keyOffsets, k);
  }

  lemma InRingExactly(input: Input, a: Ancestor)
    requires input.ToKey?
    ensures a in RingMembers(RingOf(input)) <==> exists k: nat :: ListsAt(input, k, a)
  {
    hide RingMembers, OffsetAt;
    var ms := RingMembers(RingOf(input));
    if a in ms {
      var k :| 0 <= k < |ms| && ms[k] == a;
      RingMemberAt(input, k);
      assert ListsAt(input, k, a);
    }
    if k: nat :| ListsAt(input, k, a) {
      RingMemberAt(input, k);
      assert ms[k] == a;
    }
  }

  // ---- Ring members --------------------------------------------------------------------------------

  lemma {:induction false} MembersLength(vin: seq<Input>, i: nat)
    requires Rings(vin).Some? && i <= |vin|
    ensures |Rings(vin).value| == |vin| && |Members(Rings(vin).value[..i])| == ListedBefore(vin, i)
    decreases i
  {
    hide RingMembers, Rings, Absolute;
    RingsLength(vin);
    var rs := Rings(vin).value;
    if i > 0 {
      MembersLength(vin, i - 1);
      RingsAre(vin, i - 1);
      assert rs[..i][..i - 1] == rs[..i - 1];
    }
  }

  /** The ring members of a transaction are what its inputs list, in that order and each as often as it is listed. */
  lemma MemberIs(db: Db, t: Hash, i: nat, k: nat)
    requires t in db.txs && TxDataAt(db, t).Some? && i < |db.txs[t].vin|
    requires db.txs[t].vin[i].ToKey? && k < |db.txs[t].vin[i].keyOffsets|
    ensures var vin := db.txs[t].vin;
            && |MembersOf(db, t)| == ListedBefore(vin, |vin|)
            && ListedBefore(vin, i) + k < |MembersOf(db, t)|
            && MembersOf(db, t)[ListedBefore(vin, i) + k] == Ancestor(vin[i].amount, OffsetAt(vin[i], k))
  {
    hide Members, RingMembers, Rings, OffsetAt, ListedBefore;
    var vin := db.txs[t].vin;
    var rs := Rings(vin).value;
    MembersLength(vin, |vin|);
    MembersLength(vin, i);
    assert rs[..|vin|] == rs;
    RingsAre(vin, i);
    MembersAt(rs, i);
    RingMemberAt(vin[i], k);
    var upto := Members(rs[..i + 1]);
    assert upto[ListedBefore(vin, i) + k] == RingMembers(rs[i])[k];
    assert Members(rs)[..|upto|] == upto;
  }

  /** An output is a ring member exactly when some input of its amount lists its offset. */
  lemma MembersExactly(db: Db, t: Hash, a: Ancestor)
    requires t in db.txs && TxDataAt(db, t).Some?
    ensures a in MembersOf(db, t) <==> Lists(db.txs[t].vin, a)
  {
    hide Members, RingMembers, Rings, ListsAt;
    var vin := db.txs[t].vin;
    if !IsCoinbase(db.txs[t]) {
      var rs := Rings(vin).value;
      RingsLength(vin);
      if a in Members(rs) {
        var i := MembersCome(rs, a);
        RingsAre(vin, i);
        InRingExactly(vin[i], a);
      }
      if i: nat, k: nat :| i < |vin| && ListsAt(vin[i], k, a) {
        RingsAre(vin, i);
        InRingExactly(vin[i], a);
        MembersHold(rs, i, a);
      }
    } else {
      CoinbaseLists(vin, a);
      NothingInNone(a);
    }
  }

  lemma NothingInNone(a: Ancestor)
    ensures a !in Members([])
  {
  }

  lemma CoinbaseLists(vin: seq<Input>, a: Ancestor)
    requires |vin| == 1 && vin[0].Gen?
    ensures !Lists(vin, a)
  {
  }

  // ---- The forward table ---------------------------------------------------------------------------

  lemma {:induction false} AncestryToIs(db: Db, p: nat, n: nat, a: Ancestor)
    requires IsChain(db) && p < |TxOrder(db.blocks)| && n <= |MembersOf(db, TxOrder(db.blocks)[p])|
    ensures var t := TxOrder(db.blocks)[p];
            a in AncestryTo(db, t, n) <==>
            exists j :: 0 <= j < n && IsBehind(db, MembersOf(db, t)[j], a)
    decreases n
  {
    hide TxOrder, CreatorOf, MembersOf, AncestryTo, Ancestry, IsChain;
    var t := TxOrder(db.blocks)[p];
    var ms := MembersOf(db, t);
    if n == 0 {
      AncestryIsWhole(db, t);
    } else {
      AncestryToIs(db, p, n - 1, a);
      AncestryStep(db, p, n - 1);
      assert a in AncestryTo(db, t, n) <==> a in AncestryTo(db, t, n - 1) || IsBehind(db, ms[n - 1], a);
    }
  }

  /** The output itself, or one its creator descends from. */
  ghost predicate IsBehind(db: Db, m: Ancestor, a: Ancestor)
    requires IsChain(db)
  {
    a == m || (CreatorOf(db, m).Some? && CreatorOf(db, m).value in TxOrder(db.blocks) &&
               a in Ancestry(db, CreatorOf(db, m).value))
  }

  /** A transaction descends from what its inputs list, and from all that the creators of those descend from. */
  lemma AncestryExactly(db: Db, t: Hash, a: Ancestor)
    requires IsChain(db) && t in TxOrder(db.blocks)
    ensures t in db.txs && (a in Ancestry(db, t) <==> exists m :: Lists(db.txs[t].vin, m) && IsBehind(db, m, a))
  {
    hide TxOrder, MembersOf, AncestryTo, Ancestry, IsBehind, Lists;
    var p := IndexOf(TxOrder(db.blocks), t);
    Present(db, p);
    var ms := MembersOf(db, t);
    AncestryIsWhole(db, t);
    AncestryToIs(db, p, |ms|, a);
    if a in Ancestry(db, t) {
      var j :| 0 <= j < |ms| && IsBehind(db, ms[j], a);
      MembersExactly(db, t, ms[j]);
    }
    if m :| Lists(db.txs[t].vin, m) && IsBehind(db, m, a) {
      MembersExactly(db, t, m);
      var j :| 0 <= j < |ms| && ms[j] == m;
    }
  }

  /** After a full pass the entry of every transaction holds exactly what its inputs list and all behind it. */
  lemma EntryExactly(db: Db, includeCoinbase: bool, t: Hash) returns (table: Table)
    requires IsChain(db) && t in TxOrder(db.blocks)
    ensures AddBlocks(db, includeCoinbase, map[], 0, |db.blocks|) == Some(table) && t in db.txs
    ensures forall a :: a in Get(table, t) <==> exists m :: Lists(db.txs[t].vin, m) && IsBehind(db, m, a)
    ensures forall a :: Lists(db.txs[t].vin, a) ==> a in Get(table, t)
  {
    hide TxOrder, IsChain, Ancestry, AddBlocks, Get, IsBehind, Lists;
    table := FullPass(db, includeCoinbase, t);
    AncestryExactly(db, t, Ancestor(0, 0));
    forall a ensures a in Get(table, t) <==> exists m :: Lists(db.txs[t].vin, m) && IsBehind(db, m, a) {
      AncestryExactly(db, t, a);
    }
    forall a | Lists(db.txs[t].vin, a) ensures a in Get(table, t) {
      BehindItself(db, a);
    }
  }

  lemma BehindItself(db: Db, a: Ancestor)
    requires IsChain(db)
    ensures IsBehind(db, a, a)
  {
  }

  /** An entry: a coinbase has one, another transaction if it lists an output. */
  lemma HasEntryExactly(db: Db, t: Hash)
    ensures HasEntry(db, t) <==>
            t in db.txs && TxDataAt(db, t).Some? && (IsCoinbase(db.txs[t]) || exists a :: Lists(db.txs[t].vin, a))
  {
    hide Members, Rings, Lists;
    if t in db.txs && TxDataAt(db, t).Some? {
      var ms := MembersOf(db, t);
      if ms != [] {
        MembersExactly(db, t, ms[0]);
      }
      if a :| Lists(db.txs[t].vin, a) {
        MembersExactly(db, t, a);
      }
    }
  }

  /** The table of the first h blocks has an entry for each of their transactions, coinbases only on request. */
  lemma {:induction false} KeysExactly(db: Db, includeCoinbase: bool, h: nat, t: Hash)
    requires h <= |db.blocks|
    ensures t in KeysTo(db, includeCoinbase, h) <==>
            HasEntry(db, t) && exists i :: 0 <= i < h && IsPartOf(db.blocks[i], includeCoinbase, t)
    decreases h
  {
    hide HasEntry;
    if h > 0 {
      KeysExactly(db, includeCoinbase, h - 1, t);
      assert t in Listed(db.blocks[h - 1], includeCoinbase) <==> IsPartOf(db.blocks[h - 1], includeCoinbase, t);
    }
  }

  predicate IsPartOf(b: Block, includeCoinbase: bool, t: Hash) {
    t in b.txHashes || (includeCoinbase && t == b.minerHash)
  }

  // ---- The graph the backward walk counts paths in ---------------------------------------------------

  /** The references of a transaction are its listings, each leading to the transaction that created the output. */
  lemma RefIs(db: Db, p: nat, i: nat, k: nat)
    requires IsChain(db) && p < |TxOrder(db.blocks)| && TxOrder(db.blocks)[p] in db.txs
    requires var vin := db.txs[TxOrder(db.blocks)[p]].vin;
             i < |vin| && vin[i].ToKey? && k < |vin[i].keyOffsets|
    ensures var vin := db.txs[TxOrder(db.blocks)[p]].vin;
            && |GraphOf(db)[p]| == ListedBefore(vin, |vin|)
            && ListedBefore(vin, i) + k < |GraphOf(db)[p]|
            && var r := GraphOf(db)[p][ListedBefore(vin, i) + k];
            && r.output == Ancestor(vin[i].amount, OffsetAt(vin[i], k))
            && r.creator < p && CreatorOf(db, r.output) == Some(TxOrder(db.blocks)[r.creator])
  {
    hide TxOrder, GraphOf, CreatorOf, TxDataAt, Members, OffsetAt, ListedBefore, IsChain;
    var t := TxOrder(db.blocks)[p];
    Present(db, p);
    MemberIs(db, t, i, k);
    RefAt(db, p, ListedBefore(db.txs[t].vin, i) + k);
  }

  /** The walk meets exactly what the inputs of its start list and all behind it. */
  lemma WalkExactly(db: Db, start: Hash, counts: Counts, a: Ancestor)
    requires IsChain(db) && start in TxOrder(db.blocks) && Reports(db, start, counts)
    ensures start in db.txs && (a in counts <==> exists m :: Lists(db.txs[start].vin, m) && IsBehind(db, m, a))
  {
    hide TxOrder, IsChain, Ancestry, AddBlocks, Get, IsBehind, Lists, Reports;
    var table := BackwardIsForward(db, true, start, counts);
    var same := EntryExactly(db, true, start);
    assert a in counts <==> a in counts.Keys;
  }

  // ---- The creator of an output ----------------------------------------------------------------------

  /** Transaction c of the block holds the key, and nothing before it in the block does. */
  ghost predicate HoldsFirst(db: Db, b: Block, key: Key, c: Hash) {
    if key in b.minerVout then c == b.minerHash
    else
      exists j :: 0 <= j < |b.txHashes| && b.txHashes[j] == c && c in db.txs && key in db.txs[c].vout &&
        forall i :: 0 <= i < j ==> b.txHashes[i] in db.txs && key !in db.txs[b.txHashes[i]].vout
  }

  lemma {:induction false} FoundFirst(db: Db, hashes: seq<Hash>, key: Key) returns (j: nat)
    requires FindRaw(db, hashes, key).Some?
    ensures j < |hashes| && hashes[j] == FindRaw(db, hashes, key).value && hashes[j] in db.txs
    ensures key in db.txs[hashes[j]].vout
    ensures forall i :: 0 <= i < j ==> hashes[i] in db.txs && key !in db.txs[hashes[i]].vout
  {
    if key in db.txs[hashes[0]].vout {
      j := 0;
    } else {
      var rest := FoundFirst(db, hashes[1..], key);
      j := rest + 1;
      forall i | 0 <= i < j ensures hashes[i] in db.txs && key !in db.txs[hashes[i]].vout {
        assert i > 0 ==> hashes[i] == hashes[1..][i - 1];
      }
    }
  }

  /** Both tools find the first transaction of the output's block that holds the output's key. */
  lemma FinderMeans(db: Db, a: Ancestor)
    requires Finder(db, a).Some?
    ensures a in db.outputs && db.outputs[a].height < |db.blocks|
    ensures HoldsFirst(db, db.blocks[db.outputs[a].height], db.outputs[a].key, Finder(db, a).value)
    ensures CreatorOf(db, a).Some? ==> CreatorOf(db, a) == Finder(db, a)
  {
    hide FindRaw, FindIn;
    var b, key := db.blocks[db.outputs[a].height], db.outputs[a].key;
    if key !in b.minerVout {
      var j := FoundFirst(db, b.txHashes, key);
    }
    if CreatorOf(db, a).Some? {
      FinderIs(db, a);
    }
  }

  lemma CreatorMeans(db: Db, a: Ancestor)
    requires CreatorOf(db, a).Some?
    ensures a in db.outputs && db.outputs[a].height < |db.blocks|
    ensures HoldsFirst(db, db.blocks[db.outputs[a].height], db.outputs[a].key, CreatorOf(db, a).value)
  {
    hide CreatorOf, Finder, HoldsFirst;
    FinderIs(db, a);
    FinderMeans(db, a);
  }

  // ---- The depth search ------------------------------------------------------------------------------

  ghost predicate Made(db: Db, ms: seq<Ancestor>, c: Hash) {
    exists a :: a in ms && Finder(db, a) == Some(c)
  }

  lemma {:induction false} FindAllExactly(db: Db, ms: seq<Ancestor>, found: seq<Hash>, c: Hash)
    requires FindAll(db, ms, found).Next?
    ensures c in FindAll(db, ms, found).found <==> c in found || Made(db, ms, c)
    decreases |ms|
  {
    hide Finder;
    if ms != [] {
      var d := Finder(db, ms[0]).value;
      FindAllExactly(db, ms[1..], found + [d], c);
      assert ms == [ms[0]] + ms[1..];
      assert Made(db, ms, c) <==> c == d || Made(db, ms[1..], c);
    }
  }

  /** Some input lists an output that c created. */
  ghost predicate Leads(db: Db, vin: seq<Input>, c: Hash) {
    exists a :: Lists(vin, a) && Finder(db, a) == Some(c)
  }

  lemma LeadsStep(db: Db, vin: seq<Input>, c: Hash)
    requires vin != [] && vin[0].ToKey?
    ensures Leads(db, vin, c) <==> Made(db, RingMembers(RingOf(vin[0])), c) || Leads(db, vin[1..], c)
  {
    hide Finder, RingMembers, ListsAt;
    var ms := RingMembers(RingOf(vin[0]));
    if a :| Lists(vin, a) && Finder(db, a) == Some(c) {
      var i: nat, k: nat :| i < |vin| && ListsAt(vin[i], k, a);
      if i == 0 {
        InRingExactly(vin[0], a);
      } else {
        assert vin[1..][i - 1] == vin[i];
        assert Lists(vin[1..], a);
      }
    }
    if a :| a in ms && Finder(db, a) == Some(c) {
      InRingExactly(vin[0], a);
      assert Lists(vin, a);
    }
    if a :| Lists(vin[1..], a) && Finder(db, a) == Some(c) {
      var i: nat, k: nat :| i < |vin[1..]| && ListsAt(vin[1..][i], k, a);
      assert vin[1..][i] == vin[i + 1];
      assert Lists(vin, a);
    }
  }

  lemma {:induction false} StepVinExactly(db: Db, vin: seq<Input>, found: seq<Hash>, c: Hash)
    requires StepVin(db, vin, found).Next?
    ensures c in StepVin(db, vin, found).found <==> c in found || Leads(db, vin, c)
    decreases |vin|
  {
    hide FindAll, RingMembers, Leads, Made;
    if vin == [] {
      NothingLeads(db, vin, c);
    } else {
      var ms := RingMembers(RingOf(vin[0]));
      FindAllExactly(db, ms, found, c);
      StepVinExactly(db, vin[1..], FindAll(db, ms, found).found, c);
      LeadsStep(db, vin, c);
    }
  }

  lemma NothingLeads(db: Db, vin: seq<Input>, c: Hash)
    requires vin == []
    ensures !Leads(db, vin, c)
  {
  }

  /** The search goes on to the creator of every output the inputs list, and to nothing else. */
  lemma NextExactly(db: Db, t: Hash, c: Hash)
    requires StepTx(db, t).Next?
    ensures t in db.txs && (c in NextOf(db, t) <==> Leads(db, db.txs[t].vin, c))
  {
    hide StepVin, Leads;
    StepVinExactly(db, db.txs[t].vin, [], c);
  }
}
