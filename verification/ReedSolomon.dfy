/**
 The Reed-Solomon divisor and remainder of the QR encoder.  Polynomials are byte sequences
 with the highest power first; the divisor omits its leading coefficient, which is one.
 */
module ReedSolomon {
  import opened GaloisField

  // ---- Polynomials ----------------------------------------------------------------

  function Eval(p: seq<Byte>, x: Byte): Byte {
    if p == [] then ZERO else Add(Mul(Eval(p[..|p| - 1], x), x), p[|p| - 1])
  }

  function AddPoly(p: seq<Byte>, q: seq<Byte>): seq<Byte>
    requires |p| == |q|
  {
    seq(|p|, i requires 0 <= i < |p| => Add(p[i], q[i]))
  }

  function Scale(p: seq<Byte>, c: Byte): seq<Byte> {
    seq(|p|, i requires 0 <= i < |p| => Mul(p[i], c))
  }

  lemma {:induction false} EvalAddPoly(p: seq<Byte>, q: seq<Byte>, x: Byte)
    requires |p| == |q|
    ensures Eval(AddPoly(p, q), x) == Add(Eval(p, x), Eval(q, x))
  {
    hide Peasant, Add;
    if p == [] {
      AddLaws(ZERO, ZERO);
    } else {
      var n := |p| - 1;
      var s := AddPoly(p, q);
      assert s[..n] == AddPoly(p[..n], q[..n]) && s[n] == Add(p[n], q[n]);
      EvalAddPoly(p[..n], q[..n], x);
      MulDistributive(Eval(p[..n], x), Eval(q[..n], x), x);
      AddShuffle(Mul(Eval(p[..n], x), x), Mul(Eval(q[..n], x), x), p[n], q[n]);
    }
  }

  lemma {:induction false} EvalScale(p: seq<Byte>, c: Byte, x: Byte)
    ensures Eval(Scale(p, c), x) == Mul(Eval(p, x), c)
  {
    hide Peasant, Add;
    if p == [] {
      MulZero(c);
    } else {
      var n := |p| - 1;
      var e := Eval(p[..n], x);
      assert Scale(p, c)[..n] == Scale(p[..n], c) && Scale(p, c)[n] == Mul(p[n], c);
      EvalScale(p[..n], c, x);
      MulAssociative(e, c, x);
      MulAssociative(e, x, c);
      MulCommutative(c, x);
      MulDistributive(Mul(e, x), p[n], c);
    }
  }

  lemma {:induction false} EvalConcat(p: seq<Byte>, q: seq<Byte>, x: Byte)
    ensures Eval(p + q, x) == Add(Mul(Eval(p, x), Pow(x, |q|)), Eval(q, x))
  {
    hide Peasant, Add, Mul;
    var e := Eval(p, x);
    if q == [] {
      assert p + q == p;
      MulCommutative(e, ONE);
      OneTimes(e);
      AddLaws(e, ZERO);
    } else {
      var n := |q| - 1;
      assert (p + q)[..|p| + n] == p + q[..n] && (p + q)[|p| + n] == q[n];
      EvalConcat(p, q[..n], x);
      MulDistributive(Mul(e, Pow(x, n)), Eval(q[..n], x), x);
      MulAssociative(e, Pow(x, n), x);
      MulCommutative(Pow(x, n), x);
      AddAssociative(Mul(e, Pow(x, |q|)), Mul(Eval(q[..n], x), x), q[n]);
    }
  }

  lemma EvalHead(p: seq<Byte>, x: Byte)
    requires p != []
    ensures Eval(p, x) == Add(Mul(p[0], Pow(x, |p| - 1)), Eval(p[1..], x))
  {
    hide Peasant, Add;
    assert p == [p[0]] + p[1..];
    EvalConcat([p[0]], p[1..], x);
    assert [p[0]][..0] == [];
    MulZero(x);
    AddLaws(p[0], p[0]);
    assert Eval([p[0]], x) == p[0];
  }

  /** Multiplying by x and dropping the top coefficient. */
  lemma EvalShift(p: seq<Byte>, x: Byte)
    requires p != []
    ensures Eval(p[1..] + [ZERO], x) == Add(Mul(Eval(p, x), x), Mul(p[0], Pow(x, |p|)))
  {
    hide Peasant, Add;
    var n := |p| - 1;
    var top, rest := Mul(p[0], Pow(x, n)), Eval(p[1..], x);
    assert (p[1..] + [ZERO])[..n] == p[1..];
    AddLaws(Mul(rest, x), ZERO);
    EvalHead(p, x);
    MulDistributive(top, rest, x);
    MulAssociative(p[0], Pow(x, n), x);
    MulCommutative(Pow(x, n), x);
    var t := Mul(p[0], Pow(x, |p|));
    Cancel(t, Mul(rest, x));
  }

  lemma Cancel(a: Byte, b: Byte)
    ensures Add(Add(a, b), a) == b
  {
  }

  // ---- The divisor ------------------------------------------------------------------

  function Zeros(n: nat): seq<Byte> {
    seq(n, _ => ZERO)
  }

  /** One round of reedSolomonComputeDivisor: multiply by (x - root), dropping the top term. */
  function TimesFactor(p: seq<Byte>, root: Byte): seq<Byte>
    requires p != []
  {
    AddPoly(Scale(p, root), p[1..] + [ZERO])
  }

  function DivisorAfter(degree: nat, rounds: nat): (p: seq<Byte>)
    requires degree >= 1
    ensures |p| == degree
  {
    if rounds == 0 then Zeros(degree - 1) + [ONE]
    else TimesFactor(DivisorAfter(degree, rounds - 1), Pow(TWO, rounds - 1))
  }

  function Divisor(degree: nat): seq<Byte>
    requires degree >= 1
  {
    DivisorAfter(degree, degree)
  }

  datatype Result<T> = Ok(value: T) | DomainError

  /** The inner loop of reedSolomonComputeDivisor, in place. */
  method MultiplyByFactor(result: array<Byte>, root: Byte)
    requires result.Length > 0
    modifies result
    ensures result[..] == TimesFactor(old(result[..]), root)
  {
    hide Peasant, Add;
    var n := result.Length;
    for j := 0 to n
      invariant forall k :: j <= k < n ==> result[k] == old(result[k])
      invariant forall k :: 0 <= k < j ==> result[k] == TimesFactor(old(result[..]), root)[k]
    {
      var product := Multiply(result[j], root);
      if j + 1 < n {
        result[j] := Add(product, result[j + 1]);
      } else {
        AddLaws(product, ZERO);
        result[j] := product;
      }
    }
  }

  /** reedSolomonComputeDivisor. */
  method ComputeDivisor(degree: int) returns (r: Result<seq<Byte>>)
    ensures r == if 1 <= degree <= 255 then Ok(Divisor(degree)) else DomainError
  {
    if degree < 1 || degree > 255 {
      return DomainError;
    }
    var result := new Byte[degree](_ => ZERO);
    result[degree - 1] := ONE;
    assert result[..] == DivisorAfter(degree, 0);
    var root := ONE;
    hide *;
    PowStart();
    for i := 0 to degree
      invariant result[..] == DivisorAfter(degree, i)
      invariant root == Pow(TWO, i)
    {
      MultiplyByFactor(result, root);
      DivisorNext(degree, i);
      root := Multiply(root, TWO);
    }
    r := Ok(result[..]);
    DivisorIs(degree);
  }

  lemma PowStart()
    ensures Pow(TWO, 0) == ONE
  {
  }

  lemma DivisorIs(degree: nat)
    requires 1 <= degree <= 255
    ensures Divisor(degree) == DivisorAfter(degree, degree)
  {
  }

  /** One more root: the next divisor and the next power of 0x02. */
  lemma DivisorNext(degree: nat, i: nat)
    requires 1 <= degree <= 255 && i < degree
    ensures DivisorAfter(degree, i + 1) == TimesFactor(DivisorAfter(degree, i), Pow(TWO, i))
    ensures Pow(TWO, i + 1) == Mul(Pow(TWO, i), TWO)
  {
    hide Peasant, TimesFactor;
    MulCommutative(Pow(TWO, i), TWO);
  }

  /** (x - 2^0) (x - 2^1) ... (x - 2^(n-1)). */
  function RootProduct(x: Byte, n: nat): Byte {
    if n == 0 then ONE else Mul(RootProduct(x, n - 1), Add(x, Pow(TWO, n - 1)))
  }

  lemma {:induction false} RootProductVanishes(k: nat, n: nat)
    requires k < n
    ensures RootProduct(Pow(TWO, k), n) == ZERO
  {
    hide Peasant, Add, Pow;
    var x := Pow(TWO, k);
    if k == n - 1 {
      AddLaws(x, x);
      MulZero(RootProduct(x, n - 1));
    } else {
      RootProductVanishes(k, n - 1);
      MulZero(Add(x, Pow(TWO, n - 1)));
    }
  }

  lemma EvalTimesFactor(p: seq<Byte>, root: Byte, x: Byte)
    requires p != []
    ensures Eval(TimesFactor(p, root), x) == Add(Mul(Eval(p, x), Add(x, root)), Mul(p[0], Pow(x, |p|)))
  {
    hide Peasant, Add, Pow, Eval;
    EvalAddPoly(Scale(p, root), p[1..] + [ZERO], x);
    EvalScale(p, root, x);
    EvalShift(p, x);
    var e := Eval(p, x);
    MulDistributive(x, root, e);
    AddLaws(Mul(e, x), Mul(e, root));
    AddAssociative(Mul(e, root), Mul(e, x), Mul(p[0], Pow(x, |p|)));
  }

  /** The polynomial grows by one degree a round and stays monic. */
  lemma {:induction false} DivisorShape(degree: nat, rounds: nat)
    requires rounds < degree
    ensures DivisorAfter(degree, rounds)[degree - 1 - rounds] == ONE
    ensures forall j :: 0 <= j < degree - 1 - rounds ==> DivisorAfter(degree, rounds)[j] == ZERO
  {
    hide Peasant, Add, Pow;
    if rounds > 0 {
      DivisorShape(degree, rounds - 1);
      var root := Pow(TWO, rounds - 1);
      MulZero(root);
      AddLaws(ONE, ZERO);
      AddLaws(ZERO, ZERO);
    }
  }

  lemma {:induction false} EvalDivisorAfter(degree: nat, rounds: nat, x: Byte)
    requires rounds < degree
    ensures Eval(DivisorAfter(degree, rounds), x) == RootProduct(x, rounds)
  {
    hide Peasant, Add, Pow;
    if rounds == 0 {
      EvalConcat(Zeros(degree - 1), [ONE], x);
      EvalZeros(degree - 1, x);
      MulZero(Pow(x, 1));
      assert [ONE][..0] == [];
      MulZero(x);
      AddLaws(ONE, ZERO);
    } else {
      var p := DivisorAfter(degree, rounds - 1);
      EvalDivisorAfter(degree, rounds - 1, x);
      DivisorShape(degree, rounds - 1);
      hide Eval;
      EvalTimesFactor(p, Pow(TWO, rounds - 1), x);
      MulZero(Pow(x, degree));
      AddLaws(RootProduct(x, rounds), ZERO);
    }
  }

  lemma {:induction false} EvalZeros(n: nat, x: Byte)
    ensures Eval(Zeros(n), x) == ZERO
  {
    if n > 0 {
      assert Zeros(n)[..n - 1] == Zeros(n - 1);
      EvalZeros(n - 1, x);
      MulZero(x);
      AddLaws(ZERO, ZERO);
    }
  }

  /** With its implicit leading term, the divisor is the product of (x - 2^i) for i < degree. */
  lemma DivisorIsRootProduct(degree: nat, x: Byte)
    requires degree >= 1
    ensures Add(Pow(x, degree), Eval(Divisor(degree), x)) == RootProduct(x, degree)
  {
    hide Peasant, Add, Pow, Eval;
    var p := DivisorAfter(degree, degree - 1);
    EvalDivisorAfter(degree, degree - 1, x);
    DivisorShape(degree, degree - 1);
    EvalTimesFactor(p, Pow(TWO, degree - 1), x);
    var top := Pow(x, degree);
    OneTimes(top);
    AddLaws(RootProduct(x, degree), top);
    AddAssociative(top, top, RootProduct(x, degree));
    AddLaws(top, top);
    AddLaws(RootProduct(x, degree), ZERO);
  }

  // ---- The remainder ------------------------------------------------------------------

  function RemainderStep(r: seq<Byte>, divisor: seq<Byte>, b: Byte): seq<Byte>
    requires |r| == |divisor| > 0
  {
    AddPoly(r[1..] + [ZERO], Scale(divisor, Add(b, r[0])))
  }

  function Remainder(data: seq<Byte>, divisor: seq<Byte>): (r: seq<Byte>)
    requires divisor != []
    ensures |r| == |divisor|
  {
    if data == [] then Zeros(|divisor|)
    else RemainderStep(Remainder(data[..|data| - 1], divisor), divisor, data[|data| - 1])
  }

  /** reedSolomonComputeRemainder. */
  method ComputeRemainder(data: seq<Byte>, divisor: seq<Byte>) returns (r: seq<Byte>)
    requires divisor != []
    ensures r == Remainder(data, divisor)
  {
    var n := |divisor|;
    var result := Zeros(n);
    for k := 0 to |data|
      invariant result == Remainder(data[..k], divisor)
    {
      ghost var before := result;
      var factor := Add(data[k], result[0]);
      result := result[1..] + [ZERO];
      ghost var shifted := result;
      for i := 0 to n
        invariant |result| == n
        invariant forall j :: i <= j < n ==> result[j] == shifted[j]
        invariant forall j :: 0 <= j < i ==> result[j] == Add(shifted[j], Mul(divisor[j], factor))
      {
        hide Peasant, Add;
        var product := Multiply(divisor[i], factor);
        result := result[i := Add(result[i], product)];
      }
      hide Peasant, Add;
      assert result == RemainderStep(before, divisor, data[k]);
      assert data[..k + 1][..k] == data[..k];
    }
    assert data[..|data|] == data;
    r := result;
  }

  /** At a root of the generator the remainder is congruent to the shifted data. */
  lemma {:induction false} RemainderCongruent(data: seq<Byte>, degree: nat, x: Byte)
    requires degree >= 1 && RootProduct(x, degree) == ZERO
    ensures Eval(Remainder(data, Divisor(degree)), x) == Mul(Eval(data, x), Pow(x, degree))
  {
    hide Peasant, Add, Pow, RootProduct, DivisorAfter;
    var d := Divisor(degree);
    if data == [] {
      EvalZeros(degree, x);
      MulZero(Pow(x, degree));
    } else {
      var n := |data| - 1;
      var b, r := data[n], Remainder(data[..n], d);
      RemainderCongruent(data[..n], degree, x);
      StepCongruent(r, degree, b, Eval(data[..n], x), x);
    }
  }

  lemma StepCongruent(r: seq<Byte>, degree: nat, b: Byte, e: Byte, x: Byte)
    requires degree >= 1 && |r| == degree && RootProduct(x, degree) == ZERO
    requires Eval(r, x) == Mul(e, Pow(x, degree))
    ensures Eval(RemainderStep(r, Divisor(degree), b), x) == Mul(Add(Mul(e, x), b), Pow(x, degree))
  {
    hide Peasant, Add, Pow, RootProduct, DivisorAfter, Eval;
    var d, top := Divisor(degree), Pow(x, degree);
    var factor := Add(b, r[0]);
    EvalAddPoly(r[1..] + [ZERO], Scale(d, factor), x);
    EvalShift(r, x);
    EvalScale(d, factor, x);
    // the divisor evaluates to x^degree at a root
    DivisorIsRootProduct(degree, x);
    AddAssociative(top, top, Eval(d, x));
    AddLaws(top, top);
    AddLaws(Eval(d, x), Eval(d, x));
    AddLaws(top, ZERO);
    assert Eval(d, x) == top;
    MulCommutative(top, factor);
    MulDistributive(b, r[0], top);
    // and e * top * x == (e * x) * top
    MulAssociative(e, top, x);
    MulCommutative(top, x);
    MulAssociative(e, x, top);
    MulDistributive(Mul(e, x), b, top);
    CancelMiddle(Mul(Mul(e, x), top), Mul(r[0], top), Mul(b, top));
  }

  lemma CancelMiddle(a: Byte, c: Byte, b: Byte)
    ensures Add(Add(a, c), Add(b, c)) == Add(a, b)
  {
  }

  function Codeword(data: seq<Byte>, degree: nat): seq<Byte>
    requires degree >= 1
  {
    data + Remainder(data, Divisor(degree))
  }

  /** Data followed by its remainder vanishes at 2^0 .. 2^(degree-1), whatever the data length. */
  lemma CodewordVanishes(data: seq<Byte>, degree: nat, k: nat)
    requires k < degree
    ensures Eval(Codeword(data, degree), Pow(TWO, k)) == ZERO
  {
    hide Peasant, Add, Pow, Eval, DivisorAfter, Remainder;
    var x := Pow(TWO, k);
    RootProductVanishes(k, degree);
    hide RootProduct;
    RemainderCongruent(data, degree, x);
    EvalConcat(data, Remainder(data, Divisor(degree)), x);
    AddLaws(Mul(Eval(data, x), Pow(x, degree)), ZERO);
  }
}
