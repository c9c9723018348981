/** Polynomials over the scalar field as coefficient vectors, lowest degree first: evaluation,
    the vector space of zero-padded vectors, products, division by a linear factor, and the
    theorem that a polynomial shorter than the number of points is determined by its values. */
module Polynomials {
  import opened Field

  type Poly = seq<Scalar>

  /** p(x), as an integer expression. */
  ghost function Eval(p: Poly, x: int): int {
    if p == [] then 0 else p[0] + Mul(x, Eval(p[1..], x))
  }

  /** p(x) in the field. */
  ghost function At(p: Poly, x: int): Scalar {
    Red(Eval(p, x))
  }

  ghost predicate AllZero(p: Poly) {
    forall i :: 0 <= i < |p| ==> p[i] == 0
  }

  lemma {:induction false} EvalAtCong(p: Poly, x: int, y: int)
    requires Cong(x, y)
    ensures Cong(Eval(p, x), Eval(p, y))
    decreases |p|
  {
    if p != [] {
      EvalAtCong(p[1..], x, y);
      CongMul(x, y, Eval(p[1..], x), Eval(p[1..], y));
      CongAdd(p[0], p[0], Mul(x, Eval(p[1..], x)), Mul(y, Eval(p[1..], y)));
    }
  }

  lemma {:induction false} EvalZero(p: Poly, x: int)
    requires AllZero(p)
    ensures Eval(p, x) == 0
    decreases |p|
  {
    if p != [] {
      EvalZero(p[1..], x);
    }
  }

  lemma EvalAtZero(p: Poly)
    ensures Eval(p, 0) == if p == [] then 0 else p[0]
  {
  }

  lemma AtZeroIs(p: Poly)
    requires p != []
    ensures At(p, 0) == p[0]
  {
  }

  // ---------------------------------------------------------------- vector space

  /** Componentwise sum; the shorter vector is padded with zeros. */
  function Add(p: Poly, q: Poly): (r: Poly)
    ensures |r| == if |p| >= |q| then |p| else |q|
  {
    if p == [] then q else if q == [] then p
    else [Plus(p[0], q[0])] + Add(p[1..], q[1..])
  }

  function Scale(p: Poly, c: int): (r: Poly)
    ensures |r| == |p|
  {
    if p == [] then [] else [Times(c, p[0])] + Scale(p[1..], c)
  }

  function AddConst(p: Poly, c: int): (r: Poly)
    requires p != []
    ensures |r| == |p|
  {
    p[0 := Plus(p[0], c)]
  }

  lemma ScaleLength(p: Poly, c: int)
    ensures |Scale(p, c)| == |p|
  {
  }

  lemma AddLength(p: Poly, q: Poly)
    requires |p| == |q|
    ensures |Add(p, q)| == |p|
  {
  }

  lemma {:induction false} EvalAdd(p: Poly, q: Poly, x: int)
    ensures Cong(Eval(Add(p, q), x), Eval(p, x) + Eval(q, x))
    decreases |p|
  {
    if p != [] && q != [] {
      EvalAdd(p[1..], q[1..], x);
      assert Add(p, q)[1..] == Add(p[1..], q[1..]);
      AddStep(Plus(p[0], q[0]), p[0], q[0], x, Eval(Add(p[1..], q[1..]), x), Eval(p[1..], x), Eval(q[1..], x));
    }
  }

  lemma AddStep(a: int, b: int, c: int, x: int, g: int, e: int, f: int)
    requires Cong(a, b + c) && Cong(g, e + f)
    ensures Cong(a + Mul(x, g), (b + Mul(x, e)) + (c + Mul(x, f)))
  {
    CongHorner(a, b + c, x, g, e + f);
    Distribute(x, e, f);
  }

  lemma {:induction false} EvalScale(p: Poly, c: int, x: int)
    ensures Cong(Eval(Scale(p, c), x), Mul(c, Eval(p, x)))
    decreases |p|
  {
    if p != [] {
      EvalScale(p[1..], c, x);
      assert Scale(p, c)[1..] == Scale(p[1..], c);
      ScaleStep(Times(c, p[0]), p[0], c, x, Eval(Scale(p[1..], c), x), Eval(p[1..], x));
    }
  }

  lemma ScaleStep(a: int, b: int, c: int, x: int, g: int, e: int)
    requires Cong(a, Mul(c, b)) && Cong(g, Mul(c, e))
    ensures Cong(a + Mul(x, g), Mul(c, b + Mul(x, e)))
  {
    CongHorner(a, Mul(c, b), x, g, Mul(c, e));
    Distribute(c, b, Mul(x, e));
    Regroup(x, c, e);
    Regroup(c, x, e);
  }

  lemma EvalAddConst(p: Poly, c: int, x: int)
    requires p != []
    ensures Cong(Eval(AddConst(p, c), x), Eval(p, x) + c)
  {
    var r := AddConst(p, c);
    assert r[1..] == p[1..];
    CongAdd(r[0], p[0] + c, Mul(x, Eval(p[1..], x)), Mul(x, Eval(p[1..], x)));
  }

  // ---------------------------------------------------------------- products

  /** The coefficients of p(X) * q(X). */
  function Convolve(p: Poly, q: Poly): (r: Poly)
    requires q != []
    ensures p != [] ==> |r| == |p| + |q| - 1
  {
    if p == [] then []
    else if |p| == 1 then Scale(q, p[0])
    else Add(Scale(q, p[0]), [0] + Convolve(p[1..], q))
  }

  lemma {:induction false} EvalConvolve(p: Poly, q: Poly, x: int)
    requires q != []
    ensures Cong(Eval(Convolve(p, q), x), Mul(Eval(p, x), Eval(q, x)))
    decreases |p|
  {
    var f := Eval(q, x);
    if p != [] {
      EvalScale(q, p[0], x);
      if |p| == 1 {
        assert Eval(p[1..], x) == 0;
      } else {
        var r: Poly := Convolve(p[1..], q);
        EvalConvolve(p[1..], q, x);
        EvalAdd(Scale(q, p[0]), [0] + r, x);
        EvalShift(r, x);
        ConvolveStep(Eval(Convolve(p, q), x), Eval(Scale(q, p[0]), x), Eval(r, x), p[0], x, Eval(p[1..], x), f);
      }
    }
  }

  lemma EvalShift(r: Poly, x: int)
    ensures Eval([0] + r, x) == Mul(x, Eval(r, x))
  {
    assert ([0] + r)[1..] == r;
  }

  lemma ConvolveStep(m: int, s: int, g: int, c: int, x: int, e: int, f: int)
    requires Cong(m, s + Mul(x, g)) && Cong(s, Mul(c, f)) && Cong(g, Mul(e, f))
    ensures Cong(m, Mul(c + Mul(x, e), f))
  {
    CongHorner(s, Mul(c, f), x, g, Mul(e, f));
    Distribute(f, c, Mul(x, e));
    Regroup(x, e, f);
  }

  /** prod (x - r) over the roots. */
  ghost function Prod(rs: seq<int>, x: int): int {
    if rs == [] then 1 else Mul(x - rs[0], Prod(rs[1..], x))
  }

  /** The coefficients of prod (X - r). */
  function FromRoots(rs: seq<int>): (p: Poly)
    ensures |p| == |rs| + 1
  {
    if rs == [] then [1] else Convolve([Minus(0, rs[0]), 1], FromRoots(rs[1..]))
  }

  lemma {:induction false} EvalFromRoots(rs: seq<int>, x: int)
    ensures Cong(Eval(FromRoots(rs), x), Prod(rs, x))
    decreases |rs|
  {
    hide Eval;
    hide Convolve;
    hide Red;
    if rs == [] {
      EvalConstant(1, x);
    } else {
      var lin: Poly := [Minus(0, rs[0]), 1];
      EvalFromRoots(rs[1..], x);
      EvalConvolve(lin, FromRoots(rs[1..]), x);
      EvalRootFactor(rs[0], x);
      CongMul(Eval(lin, x), x - rs[0], Eval(FromRoots(rs[1..]), x), Prod(rs[1..], x));
    }
  }

  lemma EvalRootFactor(r: int, x: int)
    ensures Cong(Eval([Minus(0, r), 1], x), x - r)
  {
    assert [Minus(0, r), 1][1..] == [1];
    EvalConstant(1, x);
    CongAdd(Minus(0, r), -r, x, x);
  }

  lemma EvalConstant(c: Scalar, x: int)
    ensures Eval([c], x) == c
  {
  }

  lemma {:induction false} ProdRoot(rs: seq<int>, k: nat)
    requires k < |rs|
    ensures Prod(rs, rs[k]) == 0
    decreases k
  {
    if k > 0 {
      ProdRoot(rs[1..], k - 1);
      assert rs[1..][k - 1] == rs[k];
    }
  }

  lemma {:induction false} ProdNonzero(rs: seq<int>, x: int)
    requires forall i :: 0 <= i < |rs| ==> !Cong(x, rs[i])
    ensures !Cong(Prod(rs, x), 0)
    decreases |rs|
  {
    if rs != [] {
      forall i | 0 <= i < |rs[1..]|
        ensures !Cong(x, rs[1..][i])
      {
        assert rs[1..][i] == rs[i + 1];
      }
      ProdNonzero(rs[1..], x);
      if Cong(Prod(rs, x), 0) {
        assert !Cong(x - rs[0], 0) by { if Cong(x - rs[0], 0) { CongFromDifference(x, rs[0]); } }
        CongCancel(x - rs[0], Prod(rs[1..], x));
      }
    }
  }

  // ---------------------------------------------------------------- uniqueness

  /** The quotient of p(X) - p(a) by X - a. */
  ghost function DivLinear(p: Poly, a: int): (r: Poly)
    requires p != []
    ensures |r| == |p| - 1
  {
    if |p| == 1 then [] else [At(p[1..], a)] + DivLinear(p[1..], a)
  }

  lemma {:induction false} EvalDivLinear(p: Poly, a: int, x: int)
    requires p != []
    ensures Cong(Eval(p, x), Mul(x - a, Eval(DivLinear(p, a), x)) + Eval(p, a))
    decreases |p|
  {
    var d := DivLinear(p, a);
    if |p| == 1 {
      assert p[1..] == [];
    } else {
      EvalDivLinear(p[1..], a, x);
      assert d[1..] == DivLinear(p[1..], a);
      DivStep(p[0], d[0], Eval(p[1..], x), Eval(p[1..], a), Eval(d[1..], x), x, a);
    }
  }

  lemma DivStep(p0: int, d0: int, e: int, f: int, g: int, x: int, a: int)
    requires Cong(e, Mul(x - a, g) + f) && Cong(d0, f)
    ensures Cong(p0 + Mul(x, e), Mul(x - a, d0 + Mul(x, g)) + (p0 + Mul(a, f)))
  {
    CongHorner(p0, p0, x, e, Mul(x - a, g) + f);
    Distribute(x, Mul(x - a, g), f);
    Regroup(x, x - a, g);
    DistributeMinus(f, x, a);
    // the left side is now c + (x - a) * f, the right side c + (x - a) * d0
    var c := p0 + Mul(x - a, Mul(x, g)) + Mul(a, f);
    CongHorner(c, c, x - a, f, d0);
    Distribute(x - a, d0, Mul(x, g));
  }

  lemma {:induction false} ZeroFromDivLinear(p: Poly, a: int)
    requires p != [] && AllZero(DivLinear(p, a)) && Cong(Eval(p, a), 0)
    ensures AllZero(p)
    decreases |p|
  {
    if |p| == 1 {
      assert Eval(p, a) == p[0];
    } else {
      var d := DivLinear(p, a);
      assert d[0] == 0 && d[1..] == DivLinear(p[1..], a);
      forall i | 0 <= i < |d[1..]| ensures d[1..][i] == 0 { assert d[1..][i] == d[i + 1]; }
      ZeroFromDivLinear(p[1..], a);
      EvalZero(p[1..], a);
      forall i | 0 <= i < |p| ensures p[i] == 0 { if i > 0 { assert p[i] == p[1..][i - 1]; } }
    }
  }

  ghost predicate Vanishes(p: Poly, xs: seq<int>) {
    forall i :: 0 <= i < |xs| ==> Cong(Eval(p, xs[i]), 0)
  }

  /** A polynomial with at least as many roots as coefficients is zero. */
  lemma {:induction false} TooManyRoots(p: Poly, xs: seq<int>)
    requires |p| <= |xs| && DistinctMod(xs) && Vanishes(p, xs)
    ensures AllZero(p)
    decreases |p|
  {
    if p != [] {
      var a, rest := xs[0], xs[1..];
      forall i | 0 <= i < |rest|
        ensures Cong(Eval(DivLinear(p, a), rest[i]), 0)
      {
        RootOfQuotient(p, a, xs[i + 1]);
      }
      TooManyRoots(DivLinear(p, a), rest);
      ZeroFromDivLinear(p, a);
    }
  }

  lemma RootOfQuotient(p: Poly, a: int, x: int)
    requires p != [] && !Cong(a, x) && Cong(Eval(p, a), 0) && Cong(Eval(p, x), 0)
    ensures Cong(Eval(DivLinear(p, a), x), 0)
  {
    var d := Eval(DivLinear(p, a), x);
    EvalDivLinear(p, a, x);
    CongSub(Mul(x - a, d) + Eval(p, a), 0, Eval(p, a), 0);
    if Cong(x - a, 0) {
      CongFromDifference(x, a);
    } else {
      CongCancel(x - a, d);
    }
  }

  ghost predicate Agree(p: Poly, q: Poly, xs: seq<int>) {
    forall i :: 0 <= i < |xs| ==> At(p, xs[i]) == At(q, xs[i])
  }

  /** p - q. */
  function Diff(p: Poly, q: Poly): Poly {
    Add(p, Scale(q, -1))
  }

  lemma EvalDiff(p: Poly, q: Poly, x: int)
    ensures Cong(Eval(Diff(p, q), x), Eval(p, x) - Eval(q, x))
  {
    hide Eval;
    hide Add;
    hide Scale;
    EvalScale(q, -1, x);
    EvalAdd(p, Scale(q, -1), x);
    CongAdd(Eval(p, x), Eval(p, x), Eval(Scale(q, -1), x), Mul(-1, Eval(q, x)));
    DistributeMinus(Eval(q, x), 0, 1);
  }

  lemma DiffOfAgreeing(p: Poly, q: Poly, xs: seq<int>)
    requires |p| <= |xs| && |q| <= |xs| && DistinctMod(xs) && Agree(p, q, xs)
    ensures AllZero(Diff(p, q))
  {
    forall i | 0 <= i < |xs|
      ensures Cong(Eval(Diff(p, q), xs[i]), 0)
    {
      EvalDiff(p, q, xs[i]);
      CongSub(Eval(p, xs[i]), Eval(q, xs[i]), Eval(q, xs[i]), Eval(q, xs[i]));
    }
    TooManyRoots(Diff(p, q), xs);
  }

  /** Values at enough distinct points determine every value. */
  lemma AgreeEverywhere(p: Poly, q: Poly, xs: seq<int>, x: int)
    requires |p| <= |xs| && |q| <= |xs| && DistinctMod(xs) && Agree(p, q, xs)
    ensures At(p, x) == At(q, x)
  {
    DiffOfAgreeing(p, q, xs);
    EvalZero(Diff(p, q), x);
    EvalDiff(p, q, x);
    CongFromDifference(Eval(p, x), Eval(q, x));
  }

  /** Values at enough distinct points determine the coefficients. */
  lemma AgreeSame(p: Poly, q: Poly, xs: seq<int>)
    requires |p| == |q| <= |xs| && DistinctMod(xs) && Agree(p, q, xs)
    ensures p == q
  {
    DiffOfAgreeing(p, q, xs);
    ZeroDiff(p, q);
  }

  lemma {:induction false} ZeroDiff(p: Poly, q: Poly)
    requires |p| == |q| && AllZero(Diff(p, q))
    ensures p == q
    decreases |p|
  {
    if p != [] {
      var d := Diff(p, q);
      assert d[1..] == Diff(p[1..], q[1..]);
      forall i | 0 <= i < |d[1..]| ensures d[1..][i] == 0 { assert d[1..][i] == d[i + 1]; }
      ZeroDiff(p[1..], q[1..]);
      assert d[0] == Plus(p[0], Times(-1, q[0])) == 0;
      var a: int, b: int := p[0], q[0];
      DistributeMinus(b, 0, 1);
      CongAdd(a, a, Times(-1, b), Mul(-1, b));
      CongFromDifference(a, b);
      assert p == [p[0]] + p[1..] && q == [q[0]] + q[1..];
    }
  }
}
