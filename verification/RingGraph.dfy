/**
 Transactions as a graph of ring references.  A transaction stands at its position in the
 chain; each of its ring members names an output and the transaction that created it.
 */
module RingGraph {

  /** An output, by amount and index among the outputs of that amount. */
  datatype Ancestor = Ancestor(amount: nat, offset: nat)

  datatype Ref = Ref(output: Ancestor, creator: nat)

  /** refs[p] lists the ring members of the transaction at position p; a coinbase has none. */
  type Graph = seq<seq<Ref>>

  /** Ring members are created by transactions earlier in the chain. */
  ghost predicate Ordered(g: Graph) {
    forall p, i :: 0 <= p < |g| && 0 <= i < |g[p]| ==> g[p][i].creator < p
  }

  // ---- Paths -------------------------------------------------------------------------------

  /** A ring-reference path: the member picked in each transaction along the way. */
  ghost predicate IsPath(g: Graph, p: nat, path: seq<nat>)
    requires Ordered(g) && p < |g|
  {
    path != [] && path[0] < |g[p]| && (|path| > 1 ==> IsPath(g, g[p][path[0]].creator, path[1..]))
  }

  /** The output a path ends at. */
  ghost function EndOf(g: Graph, p: nat, path: seq<nat>): Ancestor
    requires Ordered(g) && p < |g| && IsPath(g, p, path)
  {
    var r := g[p][path[0]];
    if |path| == 1 then r.output else EndOf(g, r.creator, path[1..])
  }

  // ---- Closure -----------------------------------------------------------------------------

  /** The outputs reachable from the first n ring members of p. */
  ghost function ClosureTo(g: Graph, p: nat, n: nat): set<Ancestor>
    requires Ordered(g) && p < |g| && n <= |g[p]|
    decreases p, n
  {
    if n == 0 then {}
    else
      var r := g[p][n - 1];
      ClosureTo(g, p, n - 1) + {r.output} + Closure(g, r.creator)
  }

  /** Every output reachable from p. */
  ghost function Closure(g: Graph, p: nat): set<Ancestor>
    requires Ordered(g) && p < |g|
    decreases p, |g[p]| + 1
  {
    ClosureTo(g, p, |g[p]|)
  }

  ghost predicate Reaches(g: Graph, p: nat, a: Ancestor)
    requires Ordered(g) && p < |g|
  {
    exists path :: IsPath(g, p, path) && EndOf(g, p, path) == a
  }

  lemma {:induction false} PathsStayInside(g: Graph, p: nat, n: nat, path: seq<nat>)
    requires Ordered(g) && p < |g| && n <= |g[p]| && IsPath(g, p, path) && path[0] < n
    ensures EndOf(g, p, path) in ClosureTo(g, p, n)
    decreases p, n
  {
    if path[0] < n - 1 {
      PathsStayInside(g, p, n - 1, path);
    } else if |path| > 1 {
      var c := g[p][n - 1].creator;
      PathsStayInside(g, c, |g[c]|, path[1..]);
    }
  }

  lemma {:induction false} ClosureHasPaths(g: Graph, p: nat, n: nat, a: Ancestor) returns (path: seq<nat>)
    requires Ordered(g) && p < |g| && n <= |g[p]| && a in ClosureTo(g, p, n)
    ensures IsPath(g, p, path) && EndOf(g, p, path) == a
    decreases p, n
  {
    var r := g[p][n - 1];
    if a in ClosureTo(g, p, n - 1) {
      path := ClosureHasPaths(g, p, n - 1, a);
    } else if a == r.output {
      path := [n - 1];
    } else {
      var rest := ClosureHasPaths(g, r.creator, |g[r.creator]|, a);
      path := [n - 1] + rest;
      assert path[1..] == rest;
    }
  }

  /** The closure is exactly what ring-reference paths reach. */
  lemma ClosureIsReachability(g: Graph, p: nat, a: Ancestor)
    requires Ordered(g) && p < |g|
    ensures a in Closure(g, p) <==> Reaches(g, p, a)
  {
    if a in Closure(g, p) {
      var path := ClosureHasPaths(g, p, |g[p]|, a);
    }
    if Reaches(g, p, a) {
      var path :| IsPath(g, p, path) && EndOf(g, p, path) == a;
      PathsStayInside(g, p, |g[p]|, path);
    }
  }

  // ---- Path counts ---------------------------------------------------------------------------

  /** How often a walk from p that follows every reference meets output a. */
  ghost function CountTo(g: Graph, p: nat, n: nat, a: Ancestor): nat
    requires Ordered(g) && p < |g| && n <= |g[p]|
    decreases p, n
  {
    if n == 0 then 0
    else
      var r := g[p][n - 1];
      CountTo(g, p, n - 1, a) + (if r.output == a then 1 else 0) + Count(g, r.creator, a)
  }

  ghost function Count(g: Graph, p: nat, a: Ancestor): nat
    requires Ordered(g) && p < |g|
    decreases p, |g[p]| + 1
  {
    CountTo(g, p, |g[p]|, a)
  }

  /** The set of paths that start in the first n members of p and end at a. */
  ghost function PathsTo(g: Graph, p: nat, n: nat, a: Ancestor): set<seq<nat>>
    requires Ordered(g) && p < |g| && n <= |g[p]|
    decreases p, n
  {
    if n == 0 then {}
    else
      var r := g[p][n - 1];
      PathsTo(g, p, n - 1, a) + (if r.output == a then {[n - 1]} else {}) + Prefixed(n - 1, AllPaths(g, r.creator, a))
  }

  /** All paths from p that end at a. */
  ghost function AllPaths(g: Graph, p: nat, a: Ancestor): set<seq<nat>>
    requires Ordered(g) && p < |g|
    decreases p, |g[p]| + 1
  {
    PathsTo(g, p, |g[p]|, a)
  }

  ghost function Prefixed(i: nat, paths: set<seq<nat>>): set<seq<nat>> {
    set q | q in paths :: [i] + q
  }

  lemma {:induction false} PrefixedSize(i: nat, paths: set<seq<nat>>)
    ensures |Prefixed(i, paths)| == |paths|
  {
    if paths != {} {
      var q :| q in paths;
      PrefixedSize(i, paths - {q});
      assert Prefixed(i, paths) == Prefixed(i, paths - {q}) + {[i] + q};
      forall r | r in paths - {q} ensures [i] + r != [i] + q {
        assert ([i] + r)[1..] == r && ([i] + q)[1..] == q;
      }
    }
  }

  lemma PrefixedMember(i: nat, paths: set<seq<nat>>, path: seq<nat>)
    ensures path in Prefixed(i, paths) <==> path != [] && path[0] == i && path[1..] in paths
  {
    if path in Prefixed(i, paths) {
      var q :| q in paths && path == [i] + q;
      assert path[1..] == q;
    }
    if path != [] && path[0] == i {
      assert path == [i] + path[1..];
    }
  }

  /** Membership in the path set means what it says. */
  lemma {:induction false} PathsToMembers(g: Graph, p: nat, n: nat, a: Ancestor, path: seq<nat>)
    requires Ordered(g) && p < |g| && n <= |g[p]|
    ensures path in PathsTo(g, p, n, a) <==> IsPath(g, p, path) && path[0] < n && EndOf(g, p, path) == a
    decreases p, n
  {
    if n > 0 {
      var r := g[p][n - 1];
      PathsToMembers(g, p, n - 1, a, path);
      PrefixedMember(n - 1, AllPaths(g, r.creator, a), path);
      if path != [] && path[0] == n - 1 {
        PathsToMembers(g, r.creator, |g[r.creator]|, a, path[1..]);
        if |path| == 1 {
          assert path == [n - 1];
        }
      }
    }
  }

  lemma PathsToSize(g: Graph, p: nat, n: nat, a: Ancestor)
    requires Ordered(g) && p < |g| && 0 < n <= |g[p]|
    ensures |PathsTo(g, p, n, a)| == |PathsTo(g, p, n - 1, a)| + (if g[p][n - 1].output == a then 1 else 0)
                                     + |AllPaths(g, g[p][n - 1].creator, a)|
  {
    hide IsPath, EndOf, Prefixed, AllPaths;
    var r := g[p][n - 1];
    var before, rest := PathsTo(g, p, n - 1, a), AllPaths(g, r.creator, a);
    PrefixedSize(n - 1, rest);
    forall path | path in before ensures path != [] && path[0] != n - 1 {
      StartsInside(g, p, n - 1, a, path);
    }
    forall path | path in Prefixed(n - 1, rest) ensures |path| > 1 && path[0] == n - 1 {
      PrefixedMember(n - 1, rest, path);
      PathNotEmpty(g, r.creator, a, path[1..]);
    }
    SizeOfUnion(before, if r.output == a then {[n - 1]} else {}, Prefixed(n - 1, rest), n - 1);
  }

  lemma StartsInside(g: Graph, p: nat, n: nat, a: Ancestor, path: seq<nat>)
    requires Ordered(g) && p < |g| && n <= |g[p]| && path in PathsTo(g, p, n, a)
    ensures path != [] && path[0] < n
  {
    PathsToMembers(g, p, n, a, path);
  }

  lemma PathNotEmpty(g: Graph, p: nat, a: Ancestor, path: seq<nat>)
    requires Ordered(g) && p < |g| && path in AllPaths(g, p, a)
    ensures path != []
  {
    PathsToMembers(g, p, |g[p]|, a, path);
  }

  lemma NoPaths(g: Graph, p: nat, a: Ancestor)
    requires Ordered(g) && p < |g|
    ensures PathsTo(g, p, 0, a) == {}
  {
  }

  lemma {:induction false} CountIsSize(g: Graph, p: nat, n: nat, a: Ancestor)
    requires Ordered(g) && p < |g| && n <= |g[p]|
    ensures CountTo(g, p, n, a) == |PathsTo(g, p, n, a)|
    decreases p, n
  {
    hide PathsTo;
    if n == 0 {
      NoPaths(g, p, a);
    } else {
      var c := g[p][n - 1].creator;
      CountIsSize(g, p, n - 1, a);
      CountIsSize(g, c, |g[c]|, a);
      PathsToSize(g, p, n, a);
    }
  }

  /** Paths that start differently, a path of one member, and longer paths do not overlap. */
  lemma SizeOfUnion(before: set<seq<nat>>, own: set<seq<nat>>, far: set<seq<nat>>, i: nat)
    requires forall path :: path in before ==> path != [] && path[0] != i
    requires forall path :: path in own ==> path == [i]
    requires forall path :: path in far ==> |path| > 1 && path[0] == i
    ensures |before + own + far| == |before| + |own| + |far|
  {
    assert before !! own && before + own !! far;
  }

  /** The count is the number of distinct ring-reference paths from p to a. */
  lemma CountIsPathCount(g: Graph, p: nat, a: Ancestor)
    requires Ordered(g) && p < |g|
    ensures Count(g, p, a) == |AllPaths(g, p, a)|
    ensures forall path :: path in AllPaths(g, p, a) <==> IsPath(g, p, path) && EndOf(g, p, path) == a
  {
    CountIsSize(g, p, |g[p]|, a);
    forall path ensures path in AllPaths(g, p, a) <==> IsPath(g, p, path) && EndOf(g, p, path) == a {
      PathsToMembers(g, p, |g[p]|, a, path);
    }
  }

  /** The walk meets an output at all exactly when the output is in the closure. */
  lemma CountPositive(g: Graph, p: nat, a: Ancestor)
    requires Ordered(g) && p < |g|
    ensures Count(g, p, a) > 0 <==> a in Closure(g, p)
  {
    CountIsPathCount(g, p, a);
    ClosureIsReachability(g, p, a);
    if Reaches(g, p, a) {
      var path :| IsPath(g, p, path) && EndOf(g, p, path) == a;
      assert path in AllPaths(g, p, a);
    }
    if AllPaths(g, p, a) != {} {
      var path :| path in AllPaths(g, p, a);
    }
  }

  /** Transactions the walk from p takes off its list, p included. */
  ghost function WorkTo(g: Graph, p: nat, n: nat): nat
    requires Ordered(g) && p < |g| && n <= |g[p]|
    decreases p, n
  {
    if n == 0 then 1 else WorkTo(g, p, n - 1) + Work(g, g[p][n - 1].creator)
  }

  ghost function Work(g: Graph, p: nat): nat
    requires Ordered(g) && p < |g|
    decreases p, |g[p]| + 1
  {
    WorkTo(g, p, |g[p]|)
  }
}
