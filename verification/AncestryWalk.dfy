/**
 The backward method of the ancestry tool: follow every ring reference from one transaction,
 without remembering what was visited, and count how often each output is met.
 */
module AncestryWalk {
  import opened AncestryTable
  import opened ChainDb
  import opened Options
  import opened RingGraph

  /** Counters are 32-bit. */
  const WRAP := 0x1_0000_0000

  type Counts = map<Ancestor, nat>

  datatype Walk = Walk(counts: Counts, queue: seq<Hash>)

  function Bump(counts: Counts, a: Ancestor): Counts {
    counts[a := if a in counts then (counts[a] + 1) % WRAP else 1]
  }

  function Follow(db: Db, w: Walk, a: Ancestor): Option<Walk> {
    match CreatorOf(db, a)
    case Some(c) => Some(Walk(Bump(w.counts, a), w.queue + [c]))
    case None => None
  }

  function FollowAll(db: Db, w: Walk, ms: seq<Ancestor>): Option<Walk> {
    if ms == [] then Some(w)
    else
      match FollowAll(db, w, ms[..|ms| - 1])
      case Some(before) => Follow(db, before, ms[|ms| - 1])
      case None => None
  }

  lemma {:induction false} FollowAllConcat(db: Db, w: Walk, xs: seq<Ancestor>, ys: seq<Ancestor>)
    ensures FollowAll(db, w, xs + ys) ==
            match FollowAll(db, w, xs) { case Some(mid) => FollowAll(db, mid, ys) case None => None }
    decreases |ys|
  {
    hide Follow;
    if ys == [] {
      assert xs + ys == xs;
    } else {
      var front := ys[..|ys| - 1];
      FollowAllConcat(db, w, xs, front);
      assert (xs + ys)[..|xs + ys| - 1] == xs + front;
    }
  }

  lemma {:induction false} FollowFailsOn(db: Db, w: Walk, ms: seq<Ancestor>, n: nat)
    requires n <= |ms| && FollowAll(db, w, ms[..n]).None?
    ensures FollowAll(db, w, ms).None?
    decreases |ms|
  {
    if n == |ms| {
      assert ms[..n] == ms;
    } else {
      assert ms[..|ms| - 1][..n] == ms[..n];
      FollowFailsOn(db, w, ms[..|ms| - 1], n);
    }
  }

  // ---- What is still to be met from the transactions waiting ----------------------------------

  ghost predicate Waiting(db: Db, queue: seq<Hash>) {
    forall i :: 0 <= i < |queue| ==> queue[i] in TxOrder(db.blocks)
  }

  ghost function CountOf(db: Db, t: Hash, a: Ancestor): nat
    requires IsChain(db) && t in TxOrder(db.blocks)
  {
    GraphIsOrdered(db);
    Count(GraphOf(db), IndexOf(TxOrder(db.blocks), t), a)
  }

  ghost function WorkOf(db: Db, t: Hash): nat
    requires IsChain(db) && t in TxOrder(db.blocks)
  {
    GraphIsOrdered(db);
    Work(GraphOf(db), IndexOf(TxOrder(db.blocks), t))
  }

  ghost function Ahead(db: Db, queue: seq<Hash>, a: Ancestor): nat
    requires IsChain(db) && Waiting(db, queue)
  {
    if queue == [] then 0
    else CountOf(db, queue[|queue| - 1], a) + Ahead(db, queue[..|queue| - 1], a)
  }

  /** Transactions the walk has still to take off its list. */
  ghost function Steps(db: Db, queue: seq<Hash>): nat
    requires IsChain(db) && Waiting(db, queue)
  {
    if queue == [] then 0
    else WorkOf(db, queue[|queue| - 1]) + Steps(db, queue[..|queue| - 1])
  }

  lemma {:induction false} AheadOfFront(db: Db, queue: seq<Hash>, a: Ancestor)
    requires IsChain(db) && Waiting(db, queue) && queue != []
    ensures Ahead(db, queue, a) == CountOf(db, queue[0], a) + Ahead(db, queue[1..], a)
    ensures Steps(db, queue) == WorkOf(db, queue[0]) + Steps(db, queue[1..])
  {
    hide IsChain, TxOrder, CountOf, WorkOf;
    var n := |queue| - 1;
    if n > 0 {
      AheadOfFront(db, queue[..n], a);
      assert queue[..n][1..] == queue[1..][..n - 1];
    }
  }

  lemma AheadOfPushed(db: Db, queue: seq<Hash>, c: Hash, a: Ancestor)
    requires IsChain(db) && Waiting(db, queue) && c in TxOrder(db.blocks)
    ensures Waiting(db, queue + [c])
    ensures Ahead(db, queue + [c], a) == Ahead(db, queue, a) + CountOf(db, c, a)
    ensures Steps(db, queue + [c]) == Steps(db, queue) + WorkOf(db, c)
  {
    hide IsChain, TxOrder, CountOf, WorkOf;
    assert (queue + [c])[..|queue|] == queue;
  }

  // ---- Exact counts behind the 32-bit counters -------------------------------------------------

  function Val(exact: Counts, a: Ancestor): nat {
    if a in exact then exact[a] else 0
  }

  /** The counters are the exact counts modulo 2^32, with a counter for each output met. */
  ghost predicate Tracks(counts: Counts, exact: Counts) {
    && counts.Keys == exact.Keys
    && forall a :: a in exact ==> exact[a] > 0 && counts[a] == exact[a] % WRAP
  }

  lemma BumpTracks(counts: Counts, exact: Counts, a: Ancestor)
    requires Tracks(counts, exact)
    ensures Tracks(Bump(counts, a), exact[a := Val(exact, a) + 1])
  {
    if a in exact {
      assert a in exact.Keys;
    }
  }

  ghost function CountToOf(db: Db, p: nat, n: nat, a: Ancestor): nat
    requires IsChain(db) && p < |TxOrder(db.blocks)| && n <= |MembersOf(db, TxOrder(db.blocks)[p])|
  {
    GraphIsOrdered(db);
    RefsOfMembers(db, p);
    CountTo(GraphOf(db), p, n, a)
  }

  ghost function WorkToOf(db: Db, p: nat, n: nat): nat
    requires IsChain(db) && p < |TxOrder(db.blocks)| && n <= |MembersOf(db, TxOrder(db.blocks)[p])|
  {
    GraphIsOrdered(db);
    RefsOfMembers(db, p);
    WorkTo(GraphOf(db), p, n)
  }

  lemma RefsOfMembers(db: Db, p: nat)
    requires IsChain(db) && p < |TxOrder(db.blocks)|
    ensures |GraphOf(db)[p]| == |MembersOf(db, TxOrder(db.blocks)[p])|
  {
    hide TxOrder, CreatorOf, RefOf, Members;
    IndexUnique(TxOrder(db.blocks), p);
    MembersAreRefs(db, TxOrder(db.blocks)[p]);
  }

  lemma CountSteps(db: Db, p: nat, n: nat, a: Ancestor)
    requires IsChain(db) && p < |TxOrder(db.blocks)| && n < |MembersOf(db, TxOrder(db.blocks)[p])|
    ensures var m := MembersOf(db, TxOrder(db.blocks)[p])[n];
            && CreatorOf(db, m).Some? && CreatorOf(db, m).value in TxOrder(db.blocks)
            && CountToOf(db, p, n + 1, a) ==
               CountToOf(db, p, n, a) + (if m == a then 1 else 0) + CountOf(db, CreatorOf(db, m).value, a)
            && WorkToOf(db, p, n + 1) == WorkToOf(db, p, n) + WorkOf(db, CreatorOf(db, m).value)
  {
    hide CreatorOf, TxDataAt, Members, TxOrder, RefOf, GraphOf;
    GraphIsOrdered(db);
    RefAt(db, p, n);
    RefsOfMembers(db, p);
    IndexUnique(TxOrder(db.blocks), GraphOf(db)[p][n].creator);
  }

  lemma CountWhole(db: Db, p: nat, a: Ancestor)
    requires IsChain(db) && p < |TxOrder(db.blocks)|
    ensures var t := TxOrder(db.blocks)[p];
            && CountOf(db, t, a) == CountToOf(db, p, |MembersOf(db, t)|, a)
            && WorkOf(db, t) == WorkToOf(db, p, |MembersOf(db, t)|)
            && CountToOf(db, p, 0, a) == 0 && WorkToOf(db, p, 0) == 1
  {
    hide CreatorOf, TxDataAt, Members, TxOrder, RefOf, GraphOf, MembersOf;
    GraphIsOrdered(db);
    RefsOfMembers(db, p);
    IndexUnique(TxOrder(db.blocks), p);
  }

  /** Following the first n ring members moves their share from what is ahead to the counts. */
  ghost predicate Moved(db: Db, w: Walk, exact: Counts, p: nat, n: nat, after: Walk, exactAfter: Counts)
    requires IsChain(db) && p < |TxOrder(db.blocks)| && n <= |MembersOf(db, TxOrder(db.blocks)[p])|
    requires Waiting(db, w.queue)
  {
    && Waiting(db, after.queue) && Tracks(after.counts, exactAfter)
    && Steps(db, after.queue) + 1 == Steps(db, w.queue) + WorkToOf(db, p, n)
    && forall a :: Val(exactAfter, a) + Ahead(db, after.queue, a) ==
                   Val(exact, a) + Ahead(db, w.queue, a) + CountToOf(db, p, n, a)
  }

  lemma {:induction false} MembersFollowed(db: Db, w: Walk, exact: Counts, p: nat, n: nat)
      returns (after: Walk, exactAfter: Counts)
    requires IsChain(db) && p < |TxOrder(db.blocks)| && n <= |MembersOf(db, TxOrder(db.blocks)[p])|
    requires Waiting(db, w.queue) && Tracks(w.counts, exact)
    ensures FollowAll(db, w, MembersOf(db, TxOrder(db.blocks)[p])[..n]) == Some(after)
    ensures Moved(db, w, exact, p, n, after, exactAfter)
  {
    hide IsChain, TxOrder, CountOf, WorkOf, CountToOf, WorkToOf, MembersOf, Ahead, Steps, Waiting, Tracks,
         CreatorOf, Bump;
    var ms := MembersOf(db, TxOrder(db.blocks)[p]);
    if n == 0 {
      assert ms[..0] == [];
      after, exactAfter := w, exact;
      forall a ensures CountToOf(db, p, 0, a) == 0 && WorkToOf(db, p, 0) == 1 {
        CountWhole(db, p, a);
      }
      assert WorkToOf(db, p, 0) == 1 by { CountWhole(db, p, Ancestor(0, 0)); }
    } else {
      var before, exactBefore := MembersFollowed(db, w, exact, p, n - 1);
      var m := ms[n - 1];
      assert ms[..n][..n - 1] == ms[..n - 1] && ms[..n][n - 1] == m;
      CountSteps(db, p, n - 1, m);
      var c := CreatorOf(db, m).value;
      after, exactAfter := Walk(Bump(before.counts, m), before.queue + [c]), exactBefore[m := Val(exactBefore, m) + 1];
      BumpTracks(before.counts, exactBefore, m);
      AheadOfPushed(db, before.queue, c, m);
      forall a
        ensures Val(exactAfter, a) + Ahead(db, after.queue, a) ==
                Val(exact, a) + Ahead(db, w.queue, a) + CountToOf(db, p, n, a)
      {
        CountSteps(db, p, n - 1, a);
        AheadOfPushed(db, before.queue, c, a);
      }
    }
  }

  function FollowTx(db: Db, w: Walk, t: Hash): Option<Walk> {
    if TxDataAt(db, t).None? then None else FollowAll(db, w, MembersOf(db, t))
  }

  /** Counts so far plus what the waiting transactions will add are the counts of the start. */
  ghost predicate Balanced(db: Db, start: Hash, w: Walk, exact: Counts)
    requires IsChain(db) && start in TxOrder(db.blocks)
  {
    && Waiting(db, w.queue) && Tracks(w.counts, exact)
    && forall a :: Val(exact, a) + Ahead(db, w.queue, a) == CountOf(db, start, a)
  }

  lemma StartBalanced(db: Db, start: Hash)
    requires IsChain(db) && start in TxOrder(db.blocks)
    ensures Balanced(db, start, Walk(map[], [start]), map[])
  {
    hide IsChain, TxOrder, CountOf, Ahead;
    var w := Walk(map[], [start]);
    forall a ensures Val(map[], a) + Ahead(db, w.queue, a) == CountOf(db, start, a) {
      AheadOfPushed(db, [], start, a);
      assert [] + [start] == w.queue;
      AheadOfNone(db, a);
    }
  }

  lemma AheadOfNone(db: Db, a: Ancestor)
    requires IsChain(db)
    ensures Ahead(db, [], a) == 0
  {
  }

  /** Taking the first transaction off the list keeps the balance and shortens the walk. */
  lemma TxFollowed(db: Db, start: Hash, w: Walk, exact: Counts) returns (after: Walk, exactAfter: Counts)
    requires IsChain(db) && start in TxOrder(db.blocks) && Balanced(db, start, w, exact) && w.queue != []
    ensures FollowTx(db, Walk(w.counts, w.queue[1..]), w.queue[0]) == Some(after)
    ensures Balanced(db, start, after, exactAfter)
    ensures Steps(db, after.queue) < Steps(db, w.queue)
  {
    hide TxOrder, CountOf, WorkOf, CountToOf, WorkToOf, MembersOf, Ahead, Steps, Tracks, FollowAll, TxDataAt,
         Members, CreatorOf, Resolves, Distinct;
    var order, t, rest := TxOrder(db.blocks), w.queue[0], Walk(w.counts, w.queue[1..]);
    var p := IndexOf(order, t);
    IndexUnique(order, p);
    Present(db, p);
    var ms := MembersOf(db, t);
    after, exactAfter := MembersFollowed(db, rest, exact, p, |ms|);
    assert ms[..|ms|] == ms;
    forall a ensures Val(exactAfter, a) + Ahead(db, after.queue, a) == CountOf(db, start, a) {
      CountWhole(db, p, a);
      AheadOfFront(db, w.queue, a);
    }
    CountWhole(db, p, Ancestor(0, 0));
    AheadOfFront(db, w.queue, Ancestor(0, 0));
  }

  /** What a finished walk reports: a counter for each output met, the count modulo 2^32. */
  ghost predicate Reports(db: Db, start: Hash, counts: Counts)
    requires IsChain(db) && start in TxOrder(db.blocks)
  {
    && (forall a :: a in counts <==> CountOf(db, start, a) > 0)
    && forall a :: a in counts ==> counts[a] == CountOf(db, start, a) % WRAP
  }

  lemma WalkDone(db: Db, start: Hash, w: Walk, exact: Counts)
    requires IsChain(db) && start in TxOrder(db.blocks) && Balanced(db, start, w, exact) && w.queue == []
    ensures Reports(db, start, w.counts)
  {
    hide IsChain, TxOrder, CountOf, Ahead;
    forall a ensures Val(exact, a) == CountOf(db, start, a) {
      AheadOfNone(db, a);
    }
    assert forall a :: a in w.counts <==> a in w.counts.Keys;
    assert forall a :: a in exact <==> a in exact.Keys;
  }

  /**
   The walk meets exactly the outputs of the forward table, and counts each as often as there
   are distinct ring-reference paths to it.
   */
  lemma BackwardIsForward(db: Db, includeCoinbase: bool, start: Hash, counts: Counts) returns (table: Table)
    requires IsChain(db) && start in TxOrder(db.blocks) && Reports(db, start, counts)
    ensures AddBlocks(db, includeCoinbase, map[], 0, |db.blocks|) == Some(table)
    ensures counts.Keys == Get(table, start)
    ensures Ordered(GraphOf(db))
    ensures forall a :: a in counts ==>
              counts[a] == |AllPaths(GraphOf(db), IndexOf(TxOrder(db.blocks), start), a)| % WRAP
  {
    hide TxOrder, IsChain, GraphOf, AllPaths, Count, Closure, AddBlocks, Get;
    table := FullPass(db, includeCoinbase, start);
    GraphIsOrdered(db);
    var g: Graph, p := GraphOf(db), IndexOf(TxOrder(db.blocks), start);
    forall a ensures a in counts <==> a in Get(table, start) {
      CountPositive(g, p, a);
    }
    forall a | a in counts ensures counts[a] == |AllPaths(g, p, a)| % WRAP {
      CountIsPathCount(g, p, a);
    }
  }
}
