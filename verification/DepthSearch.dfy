/**
 The depth tool: a level by level search from a transaction along its ring references, until a
 level holds a coinbase transaction.
 */
module DepthSearch {
  import opened ChainDb
  import opened Options
  import opened RingGraph

  // ---- One transaction and one level -----------------------------------------------------------

  /** The first listed transaction with the key among its outputs; none if one is missing first. */
  function FindRaw(db: Db, hashes: seq<Hash>, key: Key): Option<Hash> {
    if hashes == [] || hashes[0] !in db.txs then None
    else if key in db.txs[hashes[0]].vout then Some(hashes[0])
    else FindRaw(db, hashes[1..], key)
  }

  function Finder(db: Db, a: Ancestor): Option<Hash> {
    if a !in db.outputs || BlockAt(db, db.outputs[a].height).None? then None
    else
      var b, key := BlockAt(db, db.outputs[a].height).value, db.outputs[a].key;
      if key in b.minerVout then Some(b.minerHash) else FindRaw(db, b.txHashes, key)
  }

  /** What looking at transactions yields: a coinbase, the transactions to look at next, or a failure. */
  datatype Step = Coinbase | Next(found: seq<Hash>) | Failed

  function FindAll(db: Db, ms: seq<Ancestor>, found: seq<Hash>): Step {
    if ms == [] then Next(found)
    else
      match Finder(db, ms[0])
      case Some(c) => FindAll(db, ms[1..], found + [c])
      case None => Failed
  }

  function RingOf(input: Input): Ring
    requires input.ToKey?
  {
    Ring(input.amount, Absolute(input.keyOffsets))
  }

  function StepVin(db: Db, vin: seq<Input>, found: seq<Hash>): Step {
    if vin == [] then Next(found)
    else
      match vin[0]
      case Gen => Coinbase
      case Other => Failed
      case ToKey(_, _) =>
        match FindAll(db, RingMembers(RingOf(vin[0])), found)
        case Next(more) => StepVin(db, vin[1..], more)
        case _ => Failed
  }

  function StepTx(db: Db, t: Hash): Step {
    if t in db.txs then StepVin(db, db.txs[t].vin, []) else Failed
  }

  function StepLevel(db: Db, ts: seq<Hash>, found: seq<Hash>): Step {
    if ts == [] then Next(found)
    else
      match StepTx(db, ts[0])
      case Next(more) => StepLevel(db, ts[1..], found + more)
      case other => other
  }

  // ---- Ring-reference paths ----------------------------------------------------------------------

  /** The transactions that created the ring members of t; none for a coinbase. */
  ghost function NextOf(db: Db, t: Hash): seq<Hash> {
    match StepTx(db, t)
    case Next(found) => found
    case _ => []
  }

  ghost predicate IsRefPath(db: Db, path: seq<Hash>) {
    path != [] && forall i :: 0 <= i < |path| - 1 ==> path[i + 1] in NextOf(db, path[i])
  }

  /** Transaction u is n ring references away from t along some path. */
  ghost predicate IsAway(db: Db, t: Hash, n: nat, u: Hash) {
    exists path :: IsRefPath(db, path) && |path| == n + 1 && path[0] == t && path[n] == u
  }

  lemma AwayNone(db: Db, t: Hash, u: Hash)
    ensures IsAway(db, t, 0, u) <==> u == t
  {
    assert IsRefPath(db, [t]);
  }

  lemma AwayStep(db: Db, t: Hash, n: nat, u: Hash)
    ensures IsAway(db, t, n + 1, u) <==> exists v :: IsAway(db, t, n, v) && u in NextOf(db, v)
  {
    hide NextOf;
    if IsAway(db, t, n + 1, u) {
      var path :| IsRefPath(db, path) && |path| == n + 2 && path[0] == t && path[n + 1] == u;
      var front := path[..n + 1];
      assert IsRefPath(db, front) by {
        forall i | 0 <= i < |front| - 1 ensures front[i + 1] in NextOf(db, front[i]) {
          assert path[i + 1] in NextOf(db, path[i]);
        }
      }
      assert IsAway(db, t, n, path[n]);
      assert path[n + 1] in NextOf(db, path[n]);
    }
    if v :| IsAway(db, t, n, v) && u in NextOf(db, v) {
      var path :| IsRefPath(db, path) && |path| == n + 1 && path[0] == t && path[n] == v;
      var whole := path + [u];
      assert IsRefPath(db, whole) by {
        forall i | 0 <= i < |whole| - 1 ensures whole[i + 1] in NextOf(db, whole[i]) {
          if i < n {
            assert path[i + 1] in NextOf(db, path[i]);
          }
        }
      }
    }
  }

  // ---- What a level holds ------------------------------------------------------------------------

  /** Some transaction of the level has u among the transactions to look at next. */
  ghost predicate Yields(db: Db, ts: seq<Hash>, u: Hash) {
    exists t :: t in ts && u in NextOf(db, t)
  }

  lemma YieldsStep(db: Db, ts: seq<Hash>, u: Hash)
    requires ts != []
    ensures Yields(db, ts, u) <==> u in NextOf(db, ts[0]) || Yields(db, ts[1..], u)
  {
    hide NextOf;
    assert ts == [ts[0]] + ts[1..];
    if Yields(db, ts, u) {
      var t :| t in ts && u in NextOf(db, t);
      assert t == ts[0] || t in ts[1..];
    }
  }

  /** A level without a coinbase or a failure yields exactly what its transactions yield. */
  lemma {:induction false} LevelFound(db: Db, ts: seq<Hash>, found: seq<Hash>)
    ensures match StepLevel(db, ts, found)
            case Next(r) =>
              && (forall u :: u in r <==> u in found || Yields(db, ts, u))
              && forall t :: t in ts ==> StepTx(db, t).Next?
            case Coinbase => exists t :: t in ts && StepTx(db, t).Coinbase?
            case Failed => exists t :: t in ts && StepTx(db, t).Failed?
    decreases |ts|
  {
    hide StepTx, Yields;
    if ts == [] {
      forall u ensures !Yields(db, ts, u) {
        NothingYields(db, ts, u);
      }
    } else if StepTx(db, ts[0]).Next? {
      LevelFound(db, ts[1..], found + NextOf(db, ts[0]));
      forall u ensures Yields(db, ts, u) <==> u in NextOf(db, ts[0]) || Yields(db, ts[1..], u) {
        YieldsStep(db, ts, u);
      }
      assert ts == [ts[0]] + ts[1..];
    }
  }

  lemma NothingYields(db: Db, ts: seq<Hash>, u: Hash)
    requires ts == []
    ensures !Yields(db, ts, u)
  {
  }

  /** The level at depth n: exactly the transactions n references away. */
  ghost predicate IsLevel(db: Db, start: Hash, n: nat, ts: seq<Hash>) {
    forall u :: u in ts <==> IsAway(db, start, n, u)
  }

  lemma LevelNext(db: Db, start: Hash, n: nat, ts: seq<Hash>, next: seq<Hash>)
    requires IsLevel(db, start, n, ts) && StepLevel(db, ts, []) == Next(next)
    ensures IsLevel(db, start, n + 1, next)
    ensures forall u :: IsAway(db, start, n, u) ==> StepTx(db, u).Next?
  {
    hide IsAway, StepTx, NextOf, StepLevel;
    LevelFound(db, ts, []);
    forall u ensures u in next <==> IsAway(db, start, n + 1, u) {
      AwayStep(db, start, n, u);
    }
  }

  // ---- Termination ---------------------------------------------------------------------------------

  /** Each spending transaction has a ring member created earlier in the given order. */
  ghost predicate Grounded(db: Db, order: seq<Hash>) {
    forall p :: 0 <= p < |order| && StepTx(db, order[p]).Next? ==>
      exists q :: 0 <= q < p && order[q] in NextOf(db, order[p])
  }

  /** Some transaction of the level stands at position p or before. */
  ghost predicate HasEarly(order: seq<Hash>, ts: seq<Hash>, p: int) {
    exists q :: 0 <= q < |order| && q <= p && order[q] in ts
  }

  lemma EarlyNext(db: Db, order: seq<Hash>, ts: seq<Hash>, next: seq<Hash>, p: int)
    requires Grounded(db, order) && HasEarly(order, ts, p) && StepLevel(db, ts, []) == Next(next)
    ensures HasEarly(order, next, p - 1)
  {
    hide StepTx, NextOf, StepLevel;
    LevelFound(db, ts, []);
    var q :| 0 <= q < |order| && q <= p && order[q] in ts;
    var r :| 0 <= r < q && order[r] in NextOf(db, order[q]);
    assert order[r] in next;
  }

  // ---- The search ------------------------------------------------------------------------------------

  /** The depth found: some coinbase is that many references away, and none is nearer. */
  ghost predicate IsMinDepth(db: Db, start: Hash, d: nat) {
    && (exists u :: IsAway(db, start, d, u) && StepTx(db, u).Coinbase?)
    && forall n, u :: 0 <= n < d && IsAway(db, start, n, u) ==> StepTx(db, u).Next?
  }

  /** A failed lookup, with no coinbase nearer than it. */
  ghost predicate FailsAt(db: Db, start: Hash, d: nat) {
    && (exists u :: IsAway(db, start, d, u) && StepTx(db, u).Failed?)
    && forall n, u :: 0 <= n < d && IsAway(db, start, n, u) ==> StepTx(db, u).Next?
  }

  method FindCreator(db: Db, a: Ancestor) returns (c: Option<Hash>)
    ensures c == Finder(db, a)
  {
    if a !in db.outputs || db.outputs[a].height >= |db.blocks| {
      return None;
    }
    var b, key := db.blocks[db.outputs[a].height], db.outputs[a].key;
    if key in b.minerVout {
      return Some(b.minerHash);
    }
    for i := 0 to |b.txHashes|
      invariant FindRaw(db, b.txHashes, key) == FindRaw(db, b.txHashes[i..], key)
    {
      assert b.txHashes[i..][1..] == b.txHashes[i + 1..];
      if b.txHashes[i] !in db.txs {
        return None;
      }
      if key in db.txs[b.txHashes[i]].vout {
        return Some(b.txHashes[i]);
      }
    }
    c := None;
  }

  method FindRing(db: Db, amount: nat, offsets: seq<nat>, found: seq<Hash>) returns (s: Step)
    ensures s == FindAll(db, RingMembers(Ring(amount, offsets)), found)
  {
    hide Finder;
    ghost var ms := RingMembers(Ring(amount, offsets));
    var more := found;
    for j := 0 to |offsets|
      invariant FindAll(db, ms, found) == FindAll(db, ms[j..], more)
    {
      assert ms[j..][0] == Ancestor(amount, offsets[j]) && ms[j..][1..] == ms[j + 1..];
      var c := FindCreator(db, Ancestor(amount, offsets[j]));
      if c.None? {
        return Failed;
      }
      more := more + [c.value];
    }
    s := Next(more);
  }

  method StepTransaction(db: Db, t: Hash) returns (s: Step)
    ensures s == StepTx(db, t)
  {
    hide FindAll;
    if t !in db.txs {
      return Failed;
    }
    var vin, found := db.txs[t].vin, [];
    for ring := 0 to |vin|
      invariant StepVin(db, vin, []) == StepVin(db, vin[ring..], found)
    {
      assert vin[ring..][1..] == vin[ring + 1..];
      match vin[ring] {
        case Gen => return Coinbase;
        case Other => return Failed;
        case ToKey(amount, keyOffsets) =>
          var offsets := ToAbsolute(keyOffsets);
          s := FindRing(db, amount, offsets, found);
          if !s.Next? {
            return Failed;
          }
          found := s.found;
      }
    }
    s := Next(found);
  }

  method StepAll(db: Db, ts: seq<Hash>) returns (s: Step)
    ensures s == StepLevel(db, ts, [])
  {
    hide StepTx;
    var found := [];
    for i := 0 to |ts|
      invariant StepLevel(db, ts, []) == StepLevel(db, ts[i..], found)
    {
      assert ts[i..][1..] == ts[i + 1..];
      s := StepTransaction(db, ts[i]);
      if !s.Next? {
        return;
      }
      found := found + s.found;
    }
    s := Next(found);
  }

  /**
   The depth is the length of a shortest ring-reference path to a coinbase, and at most the position
   of the start. On a chain there always is one.
   */
  method MinDepth(db: Db, ghost order: seq<Hash>, ghost p: nat, start: Hash) returns (depth: Option<nat>)
    requires Grounded(db, order) && p < |order| && order[p] == start
    ensures depth.Some? ==> IsMinDepth(db, start, depth.value) && depth.value <= p
    ensures depth.None? ==> exists d :: 0 <= d <= p && FailsAt(db, start, d)
    ensures IsChain(db) && order == TxOrder(db.blocks) ==> depth.Some?
  {
    hide IsAway, StepTx, StepLevel, Grounded, IsLevel, IsChain, TxOrder;
    var d, ts := 0, [start];
    StartLevel(db, start);
    assert order[p] in ts;
    while true
      invariant IsLevel(db, start, d, ts) && HasEarly(order, ts, p - d)
      invariant forall n, u :: 0 <= n < d && IsAway(db, start, n, u) ==> StepTx(db, u).Next?
      decreases p - d
    {
      var s := StepAll(db, ts);
      LevelStops(db, start, d, ts);
      match s {
        case Coinbase => return Some(d);
        case Failed =>
          assert FailsAt(db, start, d);
          if IsChain(db) && order == TxOrder(db.blocks) {
            NeverFails(db, p, d);
          }
          return None;
        case Next(next) =>
          EarlyNext(db, order, ts, next, p - d);
          LevelNext(db, start, d, ts, next);
          d, ts := d + 1, next;
      }
    }
  }

  lemma StartLevel(db: Db, start: Hash)
    ensures IsLevel(db, start, 0, [start])
  {
    hide IsAway;
    forall u ensures u in [start] <==> IsAway(db, start, 0, u) {
      AwayNone(db, start, u);
    }
  }

  lemma LevelStops(db: Db, start: Hash, d: nat, ts: seq<Hash>)
    requires IsLevel(db, start, d, ts)
    ensures StepLevel(db, ts, []).Coinbase? ==> exists u :: IsAway(db, start, d, u) && StepTx(db, u).Coinbase?
    ensures StepLevel(db, ts, []).Failed? ==> exists u :: IsAway(db, start, d, u) && StepTx(db, u).Failed?
  {
    hide IsAway, StepTx, StepLevel, NextOf;
    LevelFound(db, ts, []);
  }

  // ---- On a chain the search always succeeds -------------------------------------------------------

  lemma {:induction false} FindRawIs(db: Db, hashes: seq<Hash>, key: Key)
    requires FindIn(db, hashes, key).Some?
    ensures FindRaw(db, hashes, key) == FindIn(db, hashes, key)
  {
    if key !in db.txs[hashes[0]].vout {
      FindRawIs(db, hashes[1..], key);
    }
  }

  lemma FinderIs(db: Db, a: Ancestor)
    requires CreatorOf(db, a).Some?
    ensures Finder(db, a) == CreatorOf(db, a)
  {
    hide FindIn, FindRaw;
    var b, key := db.blocks[db.outputs[a].height], db.outputs[a].key;
    if key !in b.minerVout {
      FindRawIs(db, b.txHashes, key);
    }
  }

  lemma {:induction false} RingsAre(vin: seq<Input>, i: nat)
    requires Rings(vin).Some? && i < |vin|
    ensures |Rings(vin).value| == |vin|
    ensures vin[i].ToKey? && RingOf(vin[i]) == Rings(vin).value[i]
  {
    var n := |vin| - 1;
    if n > 0 {
      RingsAre(vin[..n], if i < n then i else 0);
    }
  }

  lemma MembersHold(rs: seq<Ring>, i: nat, a: Ancestor)
    requires i < |rs| && a in RingMembers(rs[i])
    ensures a in Members(rs)
  {
    hide Members, RingMembers;
    MembersAt(rs, i);
    assert a in Members(rs[..i + 1]);
  }

  lemma {:induction false} MembersCome(rs: seq<Ring>, a: Ancestor) returns (i: nat)
    requires a in Members(rs)
    ensures i < |rs| && a in RingMembers(rs[i])
  {
    hide RingMembers;
    var n := |rs| - 1;
    if a in RingMembers(rs[n]) {
      i := n;
    } else {
      i := MembersCome(rs[..n], a);
    }
  }

  ghost predicate Known(db: Db, ms: seq<Ancestor>) {
    forall a :: a in ms ==> Finder(db, a).Some?
  }

  ghost predicate Holds(db: Db, ms: seq<Ancestor>, found: seq<Hash>) {
    forall a :: a in ms && Finder(db, a).Some? ==> Finder(db, a).value in found
  }

  lemma {:induction false} FindAllNext(db: Db, ms: seq<Ancestor>, found: seq<Hash>)
    requires Known(db, ms)
    ensures FindAll(db, ms, found).Next? && found <= FindAll(db, ms, found).found
    ensures Holds(db, ms, FindAll(db, ms, found).found)
    decreases |ms|
  {
    hide Finder;
    if ms != [] {
      var c := Finder(db, ms[0]).value;
      FindAllNext(db, ms[1..], found + [c]);
      assert c in found + [c];
      assert ms == [ms[0]] + ms[1..];
    }
  }

  ghost predicate AllKnown(db: Db, vin: seq<Input>) {
    forall i :: 0 <= i < |vin| ==> vin[i].ToKey? && Known(db, RingMembers(RingOf(vin[i])))
  }

  lemma {:induction false} StepVinNext(db: Db, vin: seq<Input>, found: seq<Hash>, i: nat)
    requires AllKnown(db, vin)
    ensures StepVin(db, vin, found).Next? && found <= StepVin(db, vin, found).found
    ensures i < |vin| ==> Holds(db, RingMembers(RingOf(vin[i])), StepVin(db, vin, found).found)
    decreases |vin|
  {
    hide FindAll, Known, RingMembers;
    if vin != [] {
      var ms := RingMembers(RingOf(vin[0]));
      FindAllNext(db, ms, found);
      StepVinNext(db, vin[1..], FindAll(db, ms, found).found, if i > 0 then i - 1 else 0);
    }
  }

  /** A stored transaction that is not of coinbase form and whose ring members are all found. */
  lemma SpendingStep(db: Db, t: Hash, a: Ancestor)
    requires t in db.txs && Rings(db.txs[t].vin).Some? && Known(db, Members(Rings(db.txs[t].vin).value))
    ensures StepTx(db, t).Next?
    ensures a in Members(Rings(db.txs[t].vin).value) ==> Finder(db, a).value in NextOf(db, t)
  {
    hide Finder, Members, RingMembers, StepVin, Rings;
    var vin := db.txs[t].vin;
    var rs := Rings(vin).value;
    forall i | 0 <= i < |vin| ensures vin[i].ToKey? && Known(db, RingMembers(RingOf(vin[i]))) {
      RingsAre(vin, i);
      forall m | m in RingMembers(rs[i]) ensures Finder(db, m).Some? {
        MembersHold(rs, i, m);
      }
    }
    StepVinNext(db, vin, [], 0);
    if a in Members(rs) {
      var i := MembersCome(rs, a);
      RingsLength(vin);
      RingsAre(vin, i);
      StepVinNext(db, vin, [], i);
    }
  }

  lemma RingsLength(vin: seq<Input>)
    requires Rings(vin).Some?
    ensures |Rings(vin).value| == |vin|
  {
    if vin != [] {
      RingsAre(vin, 0);
    }
  }

  lemma CoinbaseStep(db: Db, t: Hash)
    requires t in db.txs && IsCoinbase(db.txs[t])
    ensures StepTx(db, t).Coinbase?
  {
  }

  /** Every stored transaction that is not of coinbase form has a ring member. */
  ghost predicate AllSpend(db: Db) {
    forall t :: t in db.txs && !IsCoinbase(db.txs[t]) ==> MembersOf(db, t) != []
  }

  /** On a chain whose spending transactions all have ring members, one of them was created earlier. */
  lemma ChainIsGrounded(db: Db)
    requires IsChain(db) && AllSpend(db)
    ensures Grounded(db, TxOrder(db.blocks))
  {
    hide TxOrder, StepTx, NextOf, CreatorOf;
    var order := TxOrder(db.blocks);
    forall p | 0 <= p < |order| && StepTx(db, order[p]).Next?
      ensures exists q :: 0 <= q < p && order[q] in NextOf(db, order[p])
    {
      NextInOrder(db, p);
    }
  }

  lemma NextInOrder(db: Db, p: nat)
    requires IsChain(db) && AllSpend(db) && p < |TxOrder(db.blocks)|
    requires StepTx(db, TxOrder(db.blocks)[p]).Next?
    ensures exists q :: 0 <= q < p && TxOrder(db.blocks)[q] in NextOf(db, TxOrder(db.blocks)[p])
  {
    hide TxOrder, StepTx, NextOf, CreatorOf, Finder, Members, Rings;
    var order := TxOrder(db.blocks);
    var t := order[p];
    assert Resolves(db, t, order[..p]);
    if IsCoinbase(db.txs[t]) {
      CoinbaseStep(db, t);
    } else {
      ChainKnows(db, p);
      var a := Members(Rings(db.txs[t].vin).value)[0];
      SpendingStep(db, t, a);
      FinderIs(db, a);
      var q :| 0 <= q < p && order[q] == CreatorOf(db, a).value;
    }
  }

  /** The finder of the depth tool finds every ring member of a chain transaction, among the earlier ones. */
  lemma ChainKnows(db: Db, p: nat)
    requires IsChain(db) && p < |TxOrder(db.blocks)| && !IsCoinbase(db.txs[TxOrder(db.blocks)[p]])
    ensures Rings(db.txs[TxOrder(db.blocks)[p]].vin).Some?
    ensures Known(db, Members(Rings(db.txs[TxOrder(db.blocks)[p]].vin).value))
    ensures CreatedIn(db, Members(Rings(db.txs[TxOrder(db.blocks)[p]].vin).value), TxOrder(db.blocks)[..p])
  {
    hide TxOrder, CreatorOf, Finder, Members, Rings;
    var order := TxOrder(db.blocks);
    var t := order[p];
    assert Resolves(db, t, order[..p]);
    forall a | a in Members(Rings(db.txs[t].vin).value)
      ensures Finder(db, a).Some? && Finder(db, a).value in order[..p]
    {
      FinderIs(db, a);
    }
  }

  // ---- The search stays on the chain -----------------------------------------------------------------

  ghost predicate Within(ts: seq<Hash>, order: seq<Hash>) {
    forall u :: u in ts ==> u in order
  }

  ghost predicate CreatedIn(db: Db, ms: seq<Ancestor>, order: seq<Hash>) {
    forall a :: a in ms && Finder(db, a).Some? ==> Finder(db, a).value in order
  }

  lemma {:induction false} FindAllWithin(db: Db, ms: seq<Ancestor>, found: seq<Hash>, order: seq<Hash>)
    requires CreatedIn(db, ms, order) && Within(found, order)
    ensures FindAll(db, ms, found).Next? ==> Within(FindAll(db, ms, found).found, order)
    decreases |ms|
  {
    hide Finder;
    if ms != [] && Finder(db, ms[0]).Some? {
      FindAllWithin(db, ms[1..], found + [Finder(db, ms[0]).value], order);
    }
  }

  ghost predicate RingsIn(db: Db, vin: seq<Input>, order: seq<Hash>) {
    forall i :: 0 <= i < |vin| && vin[i].ToKey? ==>
      CreatedIn(db, RingMembers(RingOf(vin[i])), order)
  }

  lemma {:induction false} StepVinWithin(db: Db, vin: seq<Input>, found: seq<Hash>, order: seq<Hash>)
    requires RingsIn(db, vin, order) && Within(found, order)
    ensures StepVin(db, vin, found).Next? ==> Within(StepVin(db, vin, found).found, order)
    decreases |vin|
  {
    hide FindAll, CreatedIn, RingMembers;
    if vin != [] && vin[0].ToKey? {
      var ms := RingMembers(RingOf(vin[0]));
      FindAllWithin(db, ms, found, order);
      if FindAll(db, ms, found).Next? {
        StepVinWithin(db, vin[1..], FindAll(db, ms, found).found, order);
      }
    }
  }

  /** A chain transaction leads to earlier transactions only, and looking at it does not fail. */
  lemma ChainStep(db: Db, p: nat)
    requires IsChain(db) && p < |TxOrder(db.blocks)|
    ensures !StepTx(db, TxOrder(db.blocks)[p]).Failed?
    ensures Within(NextOf(db, TxOrder(db.blocks)[p]), TxOrder(db.blocks)[..p])
  {
    hide TxOrder, Finder, Members, RingMembers, StepVin, Rings, CreatedIn, Within;
    var order := TxOrder(db.blocks);
    var t := order[p];
    assert Resolves(db, t, order[..p]);
    assert Within([], order[..p]) by {
      NothingWithin(order[..p]);
    }
    var vin := db.txs[t].vin;
    if IsCoinbase(db.txs[t]) {
      CoinbaseStep(db, t);
    } else {
      ChainKnows(db, p);
      SpendingStep(db, t, Ancestor(0, 0));
      RingsInOrder(db, vin, order[..p]);
      StepVinWithin(db, vin, [], order[..p]);
    }
  }

  lemma NothingWithin(order: seq<Hash>)
    ensures Within([], order)
  {
  }

  lemma RingsInOrder(db: Db, vin: seq<Input>, order: seq<Hash>)
    requires Rings(vin).Some? && CreatedIn(db, Members(Rings(vin).value), order)
    ensures RingsIn(db, vin, order)
  {
    hide Finder, Members, RingMembers, Rings;
    var rs := Rings(vin).value;
    forall i | 0 <= i < |vin| && vin[i].ToKey?
      ensures CreatedIn(db, RingMembers(RingOf(vin[i])), order)
    {
      RingsAre(vin, i);
      forall m | m in RingMembers(rs[i]) && Finder(db, m).Some? ensures Finder(db, m).value in order {
        MembersHold(rs, i, m);
      }
    }
  }

  /** Each reference goes back in the chain: n of them from position p end at p - n or before. */
  lemma {:induction false} AwayIsEarlier(db: Db, p: nat, n: nat, u: Hash)
    requires IsChain(db) && p < |TxOrder(db.blocks)| && IsAway(db, TxOrder(db.blocks)[p], n, u)
    ensures exists q :: 0 <= q <= p - n && TxOrder(db.blocks)[q] == u
  {
    hide TxOrder, IsChain, IsAway, NextOf;
    var order := TxOrder(db.blocks);
    if n == 0 {
      AwayNone(db, order[p], u);
    } else {
      AwayStep(db, order[p], n - 1, u);
      var v :| IsAway(db, order[p], n - 1, v) && u in NextOf(db, v);
      AwayIsEarlier(db, p, n - 1, v);
      var r :| 0 <= r <= p - (n - 1) && order[r] == v;
      ChainStep(db, r);
    }
  }

  /** On a chain no lookup of the search fails, however far it goes. */
  lemma NeverFails(db: Db, p: nat, d: nat)
    requires IsChain(db) && p < |TxOrder(db.blocks)|
    ensures !FailsAt(db, TxOrder(db.blocks)[p], d)
  {
    hide TxOrder, IsChain, IsAway, StepTx;
    var order := TxOrder(db.blocks);
    forall u | IsAway(db, order[p], d, u) ensures !StepTx(db, u).Failed? {
      AwayIsEarlier(db, p, d, u);
      var q :| 0 <= q <= p - d && order[q] == u;
      ChainStep(db, q);
    }
  }

  /** The search from a level on: it comes to a coinbase or to a failed lookup. */
  lemma {:induction false} EndsFrom(db: Db, order: seq<Hash>, p: nat, start: Hash, d: nat, ts: seq<Hash>)
    requires Grounded(db, order) && IsLevel(db, start, d, ts) && HasEarly(order, ts, p - d)
    requires forall n, u :: 0 <= n < d && IsAway(db, start, n, u) ==> StepTx(db, u).Next?
    ensures exists e :: 0 <= e <= p && (IsMinDepth(db, start, e) || FailsAt(db, start, e))
    decreases p - d
  {
    hide IsAway, StepTx, StepLevel, Grounded, IsLevel;
    LevelStops(db, start, d, ts);
    match StepLevel(db, ts, [])
    case Coinbase => assert IsMinDepth(db, start, d);
    case Failed => assert FailsAt(db, start, d);
    case Next(next) =>
      EarlyNext(db, order, ts, next, p - d);
      LevelNext(db, start, d, ts, next);
      EndsFrom(db, order, p, start, d + 1, next);
  }

  /** Every transaction of a chain has a depth, at most its position. */
  lemma EveryTransactionHasDepth(db: Db, p: nat)
    requires IsChain(db) && AllSpend(db) && p < |TxOrder(db.blocks)|
    ensures exists d :: 0 <= d <= p && IsMinDepth(db, TxOrder(db.blocks)[p], d)
  {
    hide TxOrder, IsChain, AllSpend, IsMinDepth, FailsAt, IsLevel, Grounded;
    var order := TxOrder(db.blocks);
    ChainIsGrounded(db);
    StartLevel(db, order[p]);
    assert order[p] in [order[p]];
    EndsFrom(db, order, p, order[p], 0, [order[p]]);
    var d :| 0 <= d <= p && (IsMinDepth(db, order[p], d) || FailsAt(db, order[p], d));
    NeverFails(db, p, d);
  }
}
