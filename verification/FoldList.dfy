/**
 The editor's fold ranges as it keeps them: two parallel arrays of fixed size and a count.
 */
module FoldList {
  import opened FoldedLine
  import opened LineOps

  function Zip(starts: seq<nat>, ends: seq<nat>): (folds: seq<Fold>)
    requires |starts| == |ends|
    ensures |folds| == |starts|
    ensures forall i :: 0 <= i < |folds| ==> folds[i] == Fold(starts[i], ends[i])
  {
    seq(|starts|, i requires 0 <= i < |starts| => Fold(starts[i], ends[i]))
  }

  /** Copies n elements within an array, as if through a temporary. */
  method MoveRange(a: array<nat>, dst: nat, src: nat, n: nat)
    requires dst + n <= a.Length && src + n <= a.Length
    modifies a
    ensures a[..] == old(a[..dst]) + old(a[src..src + n]) + old(a[dst + n..])
  {
    var t := a[src..src + n];
    for k := 0 to n
      invariant a[..dst + k] == old(a[..dst]) + t[..k] && a[dst + k..] == old(a[dst + k..])
    {
      a[dst + k] := t[k];
    }
    assert t[..n] == t && a[..] == a[..dst + n] + a[dst + n..];
  }

  lemma MovedDown(a: seq<nat>, moved: seq<nat>, j: nat, n: nat)
    requires j < n <= |a| && moved == a[..j] + a[j + 1..n] + a[n - 1..]
    ensures moved[..n - 1] == a[..n][..j] + a[..n][j + 1..]
  {
    assert a[..n][..j] == a[..j] && a[..n][j + 1..] == a[j + 1..n];
  }

  lemma ZipRemoved(starts: seq<nat>, ends: seq<nat>, j: nat)
    requires |starts| == |ends| && j < |starts|
    ensures Zip(starts[..j] + starts[j + 1..], ends[..j] + ends[j + 1..]) ==
            Zip(starts, ends)[..j] + Zip(starts, ends)[j + 1..]
  {
  }

  class Folds {
    const start: array<nat>
    const end: array<nat>
    var count: nat

    ghost predicate Valid()
      reads this
    {
      start.Length == MAX_FOLDS && end.Length == MAX_FOLDS && start != end && count <= MAX_FOLDS
    }

    function View(): (folds: seq<Fold>)
      requires Valid()
      reads this, start, end
      ensures |folds| == count
    {
      Zip(start[..count], end[..count])
    }

    constructor ()
      ensures Valid() && View() == [] && fresh(start) && fresh(end)
    {
      start, end, count := new nat[MAX_FOLDS], new nat[MAX_FOLDS], 0;
    }

    method Clear()
      requires Valid()
      modifies `count
      ensures Valid() && View() == []
    {
      count := 0;
    }

    method Remove(j: nat)
      requires Valid() && j < count
      modifies this, start, end
      ensures Valid() && View() == old(View()[..j]) + old(View()[j + 1..])
    {
      hide Zip;
      ghost var s, e, n := start[..], end[..], count;
      MoveRange(start, j, j + 1, count - j - 1);
      MoveRange(end, j, j + 1, count - j - 1);
      count := count - 1;
      MovedDown(s, start[..], j, n);
      MovedDown(e, end[..], j, n);
      ZipRemoved(s[..n], e[..n], j);
      assert s[..n] == old(start[..count]) && e[..n] == old(end[..count]);
      assert start[..][..n - 1] == start[..n - 1] && end[..][..n - 1] == end[..n - 1];
    }

    method Get(j: nat) returns (f: Fold)
      requires Valid() && j < count
      ensures f == View()[j]
    {
      f := Fold(start[j], end[j]);
    }

    method Set(j: nat, f: Fold)
      requires Valid() && j < count
      modifies start, end
      ensures Valid() && View() == old(View())[j := f]
    {
      start[j], end[j] := f.start, f.end;
    }

    /** One slot more, holding whatever the arrays hold there. */
    method Extend() returns (f: Fold)
      requires Valid() && count < MAX_FOLDS
      modifies `count
      ensures Valid() && View() == old(View()) + [f]
    {
      f := Fold(start[count], end[count]);
      count := count + 1;
    }

    /** Adds a range in order of its start; a full list stays as it is. */
    method Add(s: nat, e: nat)
      requires Valid()
      modifies this, start, end
      ensures Valid() && View() == FoldAdd(old(View()), s, e)
    {
      hide View;
      if s >= e || count == MAX_FOLDS {
        return;
      }
      ghost var folds := View();
      var j := count;
      var x := Extend();
      assert folds[..j] == folds && folds[j..] == [];
      while true
        invariant Valid() && j <= |folds| && AddIndex(folds, s) == AddIndex(folds[..j], s)
        invariant View() == folds[..j] + [x] + folds[j..]
        decreases j
      {
        if j == 0 {
          break;
        }
        var f := Get(j - 1);
        Shift(folds, j, x);
        if s >= f.start {
          break;
        }
        Set(j, f);
        x, j := f, j - 1;
      }
      Set(j, Fold(s, e));
      assert View() == folds[..j] + [Fold(s, e)] + folds[j..];
    }

    /** Moves, keeps or drops the fold at j, and returns the index of the next one. */
    method MoveForInsert(j: nat, pos: nat, len: nat) returns (next: nat)
      requires Valid() && j < count
      modifies this, start, end
      ensures Valid() && next == j + |FoldAfterInsert(old(View()[j]), pos, len)|
      ensures View() == old(View()[..j]) + FoldAfterInsert(old(View()[j]), pos, len) + old(View()[j + 1..])
    {
      hide View;
      var f := Get(j);
      if pos <= f.start {
        Set(j, Fold(f.start + len, f.end + len));
        next := j + 1;
      } else if pos < f.end {
        Remove(j);
        next := j;
      } else {
        next := j + 1;
      }
    }

    method AdjustAfterInsert(pos: nat, len: nat)
      requires Valid()
      modifies this, start, end
      ensures Valid() && View() == AfterInsert(old(View()), pos, len)
    {
      hide *;
      ghost var folds := View();
      var j := 0;
      ghost var k := 0;
      NoneMoved(folds[..0], pos, len);
      while j < count
        invariant Valid() && k <= |folds| && j == |AfterInsert(folds[..k], pos, len)|
        invariant View() == AfterInsert(folds[..k], pos, len) + folds[k..]
        decreases |folds| - k
      {
        StepThrough(View(), AfterInsert(folds[..k], pos, len), folds, k);
        AfterInsertStep(folds, k, pos, len);
        j := MoveForInsert(j, pos, len);
        k := k + 1;
      }
      assert folds[..|folds|] == folds;
    }

    /** Moves, keeps or drops the fold at j, and returns the index of the next one. */
    method MoveForDelete(j: nat, pos: nat, len: nat) returns (next: nat)
      requires Valid() && j < count
      modifies this, start, end
      ensures Valid() && next == j + |FoldAfterDelete(old(View()[j]), pos, len)|
      ensures View() == old(View()[..j]) + FoldAfterDelete(old(View()[j]), pos, len) + old(View()[j + 1..])
    {
      hide View;
      var f := Get(j);
      if pos + len <= f.start {
        // an end above its start is above len as well
        Set(j, Fold(f.start - len, if len <= f.end then f.end - len else 0));
        next := j + 1;
      } else if pos >= f.end {
        next := j + 1;
      } else {
        Remove(j);
        next := j;
      }
    }

    method AdjustAfterDelete(pos: nat, len: nat)
      requires Valid()
      modifies this, start, end
      ensures Valid() && View() == AfterDelete(old(View()), pos, len)
    {
      hide *;
      ghost var folds := View();
      var j := 0;
      ghost var k := 0;
      NoneMoved(folds[..0], pos, len);
      while j < count
        invariant Valid() && k <= |folds| && j == |AfterDelete(folds[..k], pos, len)|
        invariant View() == AfterDelete(folds[..k], pos, len) + folds[k..]
        decreases |folds| - k
      {
        StepThrough(View(), AfterDelete(folds[..k], pos, len), folds, k);
        AfterDeleteStep(folds, k, pos, len);
        j := MoveForDelete(j, pos, len);
        k := k + 1;
      }
      assert folds[..|folds|] == folds;
    }

    method OverlapsRange(s: nat, e: nat) returns (b: bool)
      requires Valid()
      ensures b == Overlaps(View(), s, e)
    {
      for j := 0 to count
        invariant forall i :: 0 <= i < j ==> !(e > View()[i].start && s < View()[i].end)
      {
        if e > start[j] && s < end[j] {
          assert e > View()[j].start && s < View()[j].end;
          return true;
        }
      }
      b := false;
    }

    /** The fold that begins at pos, or none. */
    method FindStart(pos: nat) returns (r: seq<Fold>)
      requires Valid()
      ensures r == BeginsAt(View(), pos)
    {
      assert View()[0..] == View();
      for j := 0 to count
        invariant BeginsAt(View(), pos) == BeginsAt(View()[j..], pos)
      {
        assert View()[j..][1..] == View()[j + 1..];
        if start[j] == pos {
          return [Fold(start[j], end[j])];
        }
      }
      r := [];
    }

    method FindEnd(pos: nat) returns (r: seq<Fold>)
      requires Valid()
      ensures r == EndsAt(View(), pos)
    {
      assert View()[0..] == View();
      for j := 0 to count
        invariant EndsAt(View(), pos) == EndsAt(View()[j..], pos)
      {
        assert View()[j..][1..] == View()[j + 1..];
        if end[j] == pos {
          return [Fold(start[j], end[j])];
        }
      }
      r := [];
    }
  }

  lemma Shift(folds: seq<Fold>, j: nat, x: Fold)
    requires 0 < j <= |folds|
    ensures (folds[..j] + [x] + folds[j..])[j := folds[j - 1]] == folds[..j - 1] + [folds[j - 1]] + folds[j - 1..]
    ensures folds[..j][..j - 1] == folds[..j - 1]
  {
  }

  lemma StepThrough(now: seq<Fold>, done: seq<Fold>, folds: seq<Fold>, k: nat)
    requires k <= |folds| && now == done + folds[k..] && |done| < |now|
    ensures k < |folds| && now[|done|] == folds[k]
    ensures now[..|done|] == done && now[|done| + 1..] == folds[k + 1..]
  {
  }

  lemma NoneMoved(folds: seq<Fold>, pos: nat, len: nat)
    requires folds == []
    ensures AfterInsert(folds, pos, len) == [] && AfterDelete(folds, pos, len) == []
  {
  }

  lemma AfterInsertStep(folds: seq<Fold>, k: nat, pos: nat, len: nat)
    requires k < |folds|
    ensures AfterInsert(folds[..k + 1], pos, len) ==
            AfterInsert(folds[..k], pos, len) + FoldAfterInsert(folds[k], pos, len)
  {
    hide FoldAfterInsert;
    assert folds[..k + 1][..k] == folds[..k];
  }

  lemma AfterDeleteStep(folds: seq<Fold>, k: nat, pos: nat, len: nat)
    requires k < |folds|
    ensures AfterDelete(folds[..k + 1], pos, len) ==
            AfterDelete(folds[..k], pos, len) + FoldAfterDelete(folds[k], pos, len)
  {
    hide FoldAfterDelete;
    assert folds[..k + 1][..k] == folds[..k];
  }
}
