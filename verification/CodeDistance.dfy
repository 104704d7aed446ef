/**
 What the error-correction bytes buy: blocks whose data differ have codewords that differ in
 more than `degree` bytes, and the remainder is the only tail that makes a codeword.
 */
module CodeDistance {
  import opened GaloisField
  import opened FieldOrder
  import opened ReedSolomon

  // ---- A Vandermonde argument ----------------------------------------------------------

  /** One non-zero coefficient and the value its position takes at 0x02. */
  datatype Term = Term(coefficient: Byte, base: Byte)

  function PowerSum(terms: seq<Term>, k: nat): Byte {
    if terms == [] then ZERO
    else Add(Mul(terms[0].coefficient, Pow(terms[0].base, k)), PowerSum(terms[1..], k))
  }

  ghost predicate DistinctBases(terms: seq<Term>) {
    forall i, j :: 0 <= i < j < |terms| ==> terms[i].base != terms[j].base
  }

  /** Coefficients multiplied by (base - x), which drops any term based at x. */
  function Reduced(terms: seq<Term>, x: Byte): seq<Term> {
    seq(|terms|, i requires 0 <= i < |terms| =>
      terms[i].(coefficient := Mul(terms[i].coefficient, Add(terms[i].base, x))))
  }

  lemma {:induction false} ReducedSum(terms: seq<Term>, x: Byte, k: nat)
    ensures PowerSum(Reduced(terms, x), k) == Add(PowerSum(terms, k + 1), Mul(x, PowerSum(terms, k)))
  {
    hide Peasant, Add, Pow;
    if terms == [] {
      MulZero(x);
      AddLaws(ZERO, ZERO);
    } else {
      var c, b, p := terms[0].coefficient, terms[0].base, Pow(terms[0].base, k);
      assert Reduced(terms, x)[1..] == Reduced(terms[1..], x);
      ReducedSum(terms[1..], x, k);
      ReducedTerm(c, b, x, k);
      MulDistributive(Mul(c, p), PowerSum(terms[1..], k), x);
      AddShuffle(Mul(c, Pow(b, k + 1)), Mul(x, Mul(c, p)), PowerSum(terms[1..], k + 1),
                 Mul(x, PowerSum(terms[1..], k)));
    }
  }

  lemma ReducedTerm(c: Byte, b: Byte, x: Byte, k: nat)
    ensures Mul(Mul(c, Add(b, x)), Pow(b, k)) == Add(Mul(c, Pow(b, k + 1)), Mul(x, Mul(c, Pow(b, k))))
  {
    hide Peasant, Add;
    var p := Pow(b, k);
    MulAssociative(c, Add(b, x), p);
    MulDistributive(b, x, p);
    MulDistributive(Mul(b, p), Mul(x, p), c);
    MulAssociative(c, x, p);
    MulCommutative(c, x);
    MulAssociative(x, c, p);
  }

  /** n coefficients at distinct bases whose first n power sums vanish are all zero. */
  lemma {:induction false} Vandermonde(terms: seq<Term>)
    requires DistinctBases(terms)
    requires forall k :: 0 <= k < |terms| ==> PowerSum(terms, k) == ZERO
    ensures forall i :: 0 <= i < |terms| ==> terms[i].coefficient == ZERO
    decreases |terms|
  {
    hide Peasant, Add, Pow;
    if terms != [] {
      var x, rest := terms[0].base, terms[1..];
      var reduced := Reduced(rest, x);
      forall k | 0 <= k < |rest| ensures PowerSum(reduced, k) == ZERO {
        HeadDropsOut(terms, k);
      }
      Vandermonde(reduced);
      forall i | 0 <= i < |rest| ensures rest[i].coefficient == ZERO {
        assert reduced[i].coefficient == ZERO;
        var d := Add(rest[i].base, x);
        assert rest[i].base != x by { assert terms[0].base != terms[i + 1].base; }
        SumZero(rest[i].base, x);
        if rest[i].coefficient != ZERO {
          MulNonZero(rest[i].coefficient, d);
        }
      }
      forall i | 0 <= i < |terms| ensures terms[i].coefficient == ZERO {
        if i == 0 {
          HeadIsZero(terms);
        } else {
          assert terms[i] == rest[i - 1];
        }
      }
    }
  }

  lemma SumZero(a: Byte, b: Byte)
    ensures Add(a, b) == ZERO ==> a == b
  {
    if Add(a, b) == ZERO {
      AddAssociative(a, b, b);
      AddLaws(b, b);
      AddLaws(a, ZERO);
      AddLaws(b, ZERO);
    }
  }

  lemma HeadDropsOut(terms: seq<Term>, k: nat)
    requires terms != [] && PowerSum(terms, k) == ZERO && PowerSum(terms, k + 1) == ZERO
    ensures PowerSum(Reduced(terms[1..], terms[0].base), k) == ZERO
  {
    hide Peasant, Add, Pow;
    var c, x := terms[0].coefficient, terms[0].base;
    ReducedSum(terms, x, k);
    MulZero(x);
    AddLaws(ZERO, ZERO);
    var all := Reduced(terms, x);
    assert all[1..] == Reduced(terms[1..], x);
    AddLaws(x, x);
    MulZero(c);
    MulZero(Pow(x, k));
    AddLaws(PowerSum(all[1..], k), ZERO);
  }

  lemma {:induction false} ZeroSum(terms: seq<Term>, k: nat)
    requires forall i :: 0 <= i < |terms| ==> terms[i].coefficient == ZERO
    ensures PowerSum(terms, k) == ZERO
  {
    hide Peasant, Add, Pow;
    if terms != [] {
      MulZero(Pow(terms[0].base, k));
      ZeroSum(terms[1..], k);
      AddLaws(ZERO, ZERO);
    }
  }

  lemma PowZero(b: Byte)
    ensures Pow(b, 0) == ONE
  {
  }

  lemma {:induction false} HeadIsZero(terms: seq<Term>)
    requires terms != [] && PowerSum(terms, 0) == ZERO
    requires forall i :: 0 < i < |terms| ==> terms[i].coefficient == ZERO
    ensures terms[0].coefficient == ZERO
  {
    hide Peasant, Add, Pow;
    var c := terms[0].coefficient;
    var rest := terms[1..];
    ZeroSum(rest, 0);
    assert Add(Mul(c, Pow(terms[0].base, 0)), ZERO) == ZERO;
    hide *;
    PowZero(terms[0].base);
    AddLaws(Mul(c, ONE), ZERO);
    MulCommutative(c, ONE);
    OneTimes(c);
  }

  // ---- Sparse codewords ------------------------------------------------------------------

  /** The non-zero coefficients of a polynomial, each with 0x02 raised to its power. */
  function Terms(p: seq<Byte>): seq<Term> {
    if p == [] then []
    else (if p[0] != ZERO then [Term(p[0], Pow(TWO, |p| - 1))] else []) + Terms(p[1..])
  }

  function Weight(p: seq<Byte>): nat {
    if p == [] then 0 else (if p[0] != ZERO then 1 else 0) + Weight(p[1..])
  }

  ghost predicate IsPowerBelow(b: Byte, n: nat) {
    exists m :: 0 <= m < n && b == Pow(TWO, m)
  }

  lemma {:induction false} TermsOf(p: seq<Byte>)
    requires |p| <= 255
    ensures |Terms(p)| == Weight(p) && DistinctBases(Terms(p))
    ensures forall i :: 0 <= i < |Terms(p)| ==> IsPowerBelow(Terms(p)[i].base, |p|)
    ensures forall i :: 0 <= i < |Terms(p)| ==> Terms(p)[i].coefficient != ZERO
  {
    hide Pow, DistinctBases, IsPowerBelow;
    if p == [] {
      NoTerms();
    } else {
      var rest, n := Terms(p[1..]), |p| - 1;
      TermsOf(p[1..]);
      forall i | 0 <= i < |rest| ensures rest[i].base != Pow(TWO, n) && IsPowerBelow(rest[i].base, n + 1) {
        BelowOther(rest[i].base, n);
      }
      if p[0] != ZERO {
        NewTerm(Term(p[0], Pow(TWO, n)), rest, n);
      } else {
        assert Terms(p) == rest;
      }
    }
  }

  lemma NoTerms()
    ensures DistinctBases([])
  {
  }

  lemma BelowOther(b: Byte, n: nat)
    requires n < 255 && IsPowerBelow(b, n)
    ensures b != Pow(TWO, n) && IsPowerBelow(b, n + 1)
  {
    hide Pow;
    var m :| 0 <= m < n && b == Pow(TWO, m);
    PowersDistinct(m, n);
  }

  lemma NewTerm(first: Term, rest: seq<Term>, n: nat)
    requires DistinctBases(rest) && first.base == Pow(TWO, n) && first.coefficient != ZERO
    requires forall i :: 0 <= i < |rest| ==> rest[i].base != first.base && IsPowerBelow(rest[i].base, n + 1)
    requires forall i :: 0 <= i < |rest| ==> rest[i].coefficient != ZERO
    ensures DistinctBases([first] + rest)
    ensures forall i :: 0 <= i < |rest| + 1 ==> IsPowerBelow(([first] + rest)[i].base, n + 1)
    ensures forall i :: 0 <= i < |rest| + 1 ==> ([first] + rest)[i].coefficient != ZERO
  {
    hide Pow;
    assert IsPowerBelow(first.base, n + 1);
  }

  lemma {:induction false} PowSwap(m: nat, k: nat)
    ensures Pow(Pow(TWO, k), m) == Pow(Pow(TWO, m), k)
  {
    PowPow(k, m);
    PowPow(m, k);
  }

  lemma {:induction false} PowPow(k: nat, m: nat)
    ensures Pow(Pow(TWO, k), m) == Pow(TWO, k * m)
  {
    hide Peasant;
    if m > 0 {
      PowPow(k, m - 1);
      PowAdd(TWO, k, k * (m - 1));
      assert k * m == k + k * (m - 1);
    }
  }

  lemma {:induction false} EvalIsPowerSum(p: seq<Byte>, k: nat)
    ensures Eval(p, Pow(TWO, k)) == PowerSum(Terms(p), k)
  {
    hide Peasant, Add, Pow;
    if p != [] {
      var x, m := Pow(TWO, k), |p| - 1;
      EvalHead(p, x);
      EvalIsPowerSum(p[1..], k);
      PowSwap(m, k);
      if p[0] == ZERO {
        MulZero(Pow(x, m));
        AddLaws(Eval(p[1..], x), ZERO);
        assert Terms(p) == Terms(p[1..]);
      } else {
        assert Terms(p)[1..] == Terms(p[1..]);
      }
    }
  }

  ghost predicate IsZeroPoly(p: seq<Byte>) {
    forall i :: 0 <= i < |p| ==> p[i] == ZERO
  }

  lemma {:induction false} WeightZero(p: seq<Byte>)
    ensures Weight(p) == 0 <==> IsZeroPoly(p)
  {
    if p != [] {
      WeightZero(p[1..]);
      assert p == [p[0]] + p[1..];
    }
  }

  /** A word with at most `degree` non-zero bytes that vanishes at the roots is zero. */
  lemma SparseWordIsZero(p: seq<Byte>, degree: nat)
    requires |p| <= 255 && Weight(p) <= degree
    requires forall k :: 0 <= k < degree ==> Eval(p, Pow(TWO, k)) == ZERO
    ensures IsZeroPoly(p)
  {
    hide Pow, Eval;
    TermsOf(p);
    var terms := Terms(p);
    hide Terms, PowerSum;
    forall k | 0 <= k < |terms| ensures PowerSum(terms, k) == ZERO {
      EvalIsPowerSum(p, k);
    }
    Vandermonde(terms);
    assert terms == [];
    WeightZero(p);
  }

  /** Number of positions at which two words differ. */
  function Distance(p: seq<Byte>, q: seq<Byte>): nat
    requires |p| == |q|
  {
    if p == [] then 0 else (if p[0] != q[0] then 1 else 0) + Distance(p[1..], q[1..])
  }

  lemma {:induction false} DistanceIsWeight(p: seq<Byte>, q: seq<Byte>)
    requires |p| == |q|
    ensures Weight(AddPoly(p, q)) == Distance(p, q)
  {
    hide Add;
    if p != [] {
      assert AddPoly(p, q)[1..] == AddPoly(p[1..], q[1..]);
      DistanceIsWeight(p[1..], q[1..]);
      SumZero(p[0], q[0]);
      AddLaws(p[0], p[0]);
    }
  }

  ghost predicate IsCodeword(w: seq<Byte>, degree: nat) {
    forall k :: 0 <= k < degree ==> Eval(w, Pow(TWO, k)) == ZERO
  }

  /** Distinct words that vanish at the roots differ in more than `degree` bytes. */
  lemma CodewordsFarApart(p: seq<Byte>, q: seq<Byte>, degree: nat)
    requires |p| == |q| <= 255 && p != q
    requires IsCodeword(p, degree) && IsCodeword(q, degree)
    ensures Distance(p, q) > degree
  {
    hide Pow, Eval, Add;
    if Distance(p, q) <= degree {
      var e := AddPoly(p, q);
      DistanceIsWeight(p, q);
      forall k | 0 <= k < degree ensures Eval(e, Pow(TWO, k)) == ZERO {
        EvalAddPoly(p, q, Pow(TWO, k));
        AddLaws(ZERO, ZERO);
      }
      SparseWordIsZero(e, degree);
      forall i | 0 <= i < |p| ensures p[i] == q[i] {
        assert e[i] == ZERO;
        SumZero(p[i], q[i]);
      }
      assert false;
    }
  }

  lemma {:induction false} DistanceSymmetric(p: seq<Byte>, q: seq<Byte>)
    requires |p| == |q|
    ensures Distance(p, q) == Distance(q, p)
  {
    if p != [] {
      DistanceSymmetric(p[1..], q[1..]);
    }
  }

  lemma {:induction false} DistanceTriangle(p: seq<Byte>, w: seq<Byte>, q: seq<Byte>)
    requires |p| == |w| == |q|
    ensures Distance(p, q) <= Distance(p, w) + Distance(w, q)
  {
    if p != [] {
      DistanceTriangle(p[1..], w[1..], q[1..]);
    }
  }

  /** No word is within degree / 2 bytes of two different codewords: so much damage has one correction. */
  lemma CorrectionIsUnique(p: seq<Byte>, q: seq<Byte>, w: seq<Byte>, degree: nat)
    requires |p| == |q| == |w| <= 255 && IsCodeword(p, degree) && IsCodeword(q, degree)
    requires Distance(p, w) <= degree / 2 && Distance(q, w) <= degree / 2
    ensures p == q
  {
    hide Distance, IsCodeword;
    if p != q {
      CodewordsFarApart(p, q, degree);
      DistanceSymmetric(q, w);
      DistanceTriangle(p, w, q);
    }
  }

  /** Encoding two different blocks of one length gives codewords more than `degree` apart. */
  lemma EncodedBlocksFarApart(a: seq<Byte>, b: seq<Byte>, degree: nat)
    requires degree >= 1 && |a| == |b| && |a| + degree <= 255 && a != b
    ensures Distance(Codeword(a, degree), Codeword(b, degree)) > degree
  {
    hide Pow, Eval, Remainder, Distance;
    var p, q := Codeword(a, degree), Codeword(b, degree);
    forall k | 0 <= k < degree
      ensures Eval(p, Pow(TWO, k)) == ZERO && Eval(q, Pow(TWO, k)) == ZERO
    {
      CodewordVanishes(a, degree, k);
      CodewordVanishes(b, degree, k);
    }
    assert p[..|a|] == a && q[..|b|] == b;
    CodewordsFarApart(p, q, degree);
  }

  lemma {:induction false} DistanceOfTails(a: seq<Byte>, s: seq<Byte>, t: seq<Byte>)
    requires |s| == |t|
    ensures Distance(a + s, a + t) <= |s|
  {
    if a == [] {
      assert a + s == s && a + t == t;
      DistanceAtMostLength(s, t);
    } else {
      assert (a + s)[1..] == a[1..] + s && (a + t)[1..] == a[1..] + t;
      DistanceOfTails(a[1..], s, t);
    }
  }

  lemma {:induction false} DistanceAtMostLength(s: seq<Byte>, t: seq<Byte>)
    requires |s| == |t|
    ensures Distance(s, t) <= |s|
  {
    if s != [] {
      DistanceAtMostLength(s[1..], t[1..]);
    }
  }

  /** The computed remainder is exactly the tail of `degree` bytes that makes a codeword. */
  lemma RemainderIsUnique(data: seq<Byte>, ecc: seq<Byte>, degree: nat)
    requires degree >= 1 && |ecc| == degree && |data| + degree <= 255
    ensures IsCodeword(data + ecc, degree) <==> ecc == Remainder(data, Divisor(degree))
  {
    hide Pow, Eval, Remainder, Distance;
    var r := Remainder(data, Divisor(degree));
    forall k | 0 <= k < degree ensures Eval(data + r, Pow(TWO, k)) == ZERO {
      CodewordVanishes(data, degree, k);
    }
    if IsCodeword(data + ecc, degree) && ecc != r {
      assert (data + ecc)[|data|..] == ecc && (data + r)[|data|..] == r;
      CodewordsFarApart(data + ecc, data + r, degree);
      DistanceOfTails(data, ecc, r);
    }
  }
}
