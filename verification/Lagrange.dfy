/** Lagrange interpolation at an arbitrary point, and its use on vectors of polynomials: weights
    that interpolate values at `e` also recombine committed sharings into a sharing at `e`. */
module Lagrange {
  import opened Field
  import opened Polynomials

  ghost function Without(xs: seq<int>, i: nat): seq<int>
    requires i < |xs|
  {
    xs[..i] + xs[i + 1..]
  }

  /** prod over k != i of (x_i - x_k). */
  ghost function Denominator(xs: seq<int>, i: nat): (d: Scalar)
    requires i < |xs| && DistinctMod(xs)
    ensures d != 0
  {
    DenominatorNonzero(xs, i);
    Red(Prod(Without(xs, i), xs[i]))
  }

  lemma DenominatorNonzero(xs: seq<int>, i: nat)
    requires i < |xs| && DistinctMod(xs)
    ensures Red(Prod(Without(xs, i), xs[i])) != 0
  {
    var w := Without(xs, i);
    forall k | 0 <= k < |w|
      ensures !Cong(xs[i], w[k])
    {
      assert w[k] == xs[if k < i then k else k + 1];
    }
    ProdNonzero(w, xs[i]);
  }

  /** The i-th Lagrange weight for interpolation at x. */
  ghost function Lambda(x: int, xs: seq<int>, i: nat): Scalar
    requires i < |xs| && DistinctMod(xs)
  {
    Times(Prod(Without(xs, i), x), Inv(Denominator(xs, i)))
  }

  ghost function Weights(x: int, xs: seq<int>): (ws: seq<Scalar>)
    requires DistinctMod(xs)
    ensures |ws| == |xs| && forall i :: 0 <= i < |xs| ==> ws[i] == Lambda(x, xs, i)
  {
    seq(|xs|, i requires 0 <= i < |xs| => Lambda(x, xs, i))
  }

  ghost function Dot(ws: seq<int>, ss: seq<int>, n: nat): int
    requires n <= |ws| && n <= |ss|
  {
    if n == 0 then 0 else Dot(ws, ss, n - 1) + Mul(ws[n - 1], ss[n - 1])
  }

  lemma {:induction false} DotCong(ws: seq<int>, ss: seq<int>, us: seq<int>, n: nat)
    requires n <= |ws| && n <= |ss| && n <= |us|
    requires forall i :: 0 <= i < n ==> Cong(ss[i], us[i])
    ensures Cong(Dot(ws, ss, n), Dot(ws, us, n))
  {
    if n > 0 {
      DotCong(ws, ss, us, n - 1);
      CongHorner(Dot(ws, ss, n - 1), Dot(ws, us, n - 1), ws[n - 1], ss[n - 1], us[n - 1]);
    }
  }

  lemma LambdaHere(xs: seq<int>, i: nat)
    requires i < |xs| && DistinctMod(xs)
    ensures Lambda(xs[i], xs, i) == Red(1)
  {
    var d, p := Denominator(xs, i), Prod(Without(xs, i), xs[i]);
    CongScale(Inv(d), p, d);
  }

  lemma LambdaElsewhere(xs: seq<int>, i: nat, j: nat)
    requires i < |xs| && j < |xs| && i != j && DistinctMod(xs)
    ensures Lambda(xs[j], xs, i) == 0
  {
    var w, k := Without(xs, i), if j < i then j else j - 1;
    assert w[k] == xs[j];
    ProdRoot(w, k);
  }

  lemma {:induction false} DotAtNode(xs: seq<int>, ss: seq<int>, j: nat, n: nat)
    requires |ss| == |xs| && DistinctMod(xs) && j < |xs| && n <= |xs|
    ensures Cong(Dot(Weights(xs[j], xs), ss, n), if j < n then ss[j] else 0)
  {
    hide Lambda;
    hide Weights;
    var ws := Weights(xs[j], xs);
    if n > 0 {
      DotAtNode(xs, ss, j, n - 1);
      if j == n - 1 {
        LambdaHere(xs, j);
        CongScale(ss[j], ws[j], 1);
        CongAdd(Dot(ws, ss, n - 1), 0, Mul(ws[j], ss[j]), ss[j]);
      } else {
        LambdaElsewhere(xs, n - 1, j);
      }
    }
  }

  /** The k-th summand of the interpolating polynomial: s times the k-th basis polynomial. */
  ghost function BasisTerm(xs: seq<int>, s: int, k: nat): (p: Poly)
    requires k < |xs| && DistinctMod(xs)
    ensures |p| == |xs|
  {
    Scale(FromRoots(Without(xs, k)), Mul(s, Inv(Denominator(xs, k))))
  }

  lemma EvalBasisTerm(xs: seq<int>, s: int, k: nat, x: int)
    requires k < |xs| && DistinctMod(xs)
    ensures Cong(Eval(BasisTerm(xs, s, k), x), Mul(Lambda(x, xs, k), s))
  {
    var w, i := Without(xs, k), Inv(Denominator(xs, k));
    EvalScale(FromRoots(w), Mul(s, i), x);
    EvalFromRoots(w, x);
    // (s * i) * f == s * (p * i) == s * lambda
    CongScale(Mul(s, i), Eval(FromRoots(w), x), Prod(w, x));
    CongScale(s, Lambda(x, xs, k), Mul(Prod(w, x), i));
    Regroup(s, i, Prod(w, x));
  }

  /** The polynomial with the given values at the given points. */
  ghost function Through(xs: seq<int>, ss: seq<int>, n: nat): (p: Poly)
    requires |ss| == |xs| && DistinctMod(xs) && n <= |xs|
    ensures |p| == |xs|
    decreases n
  {
    if n == 0 then seq(|xs|, _ => 0) else Add(Through(xs, ss, n - 1), BasisTerm(xs, ss[n - 1], n - 1))
  }

  lemma {:induction false} EvalThrough(xs: seq<int>, ss: seq<int>, n: nat, x: int)
    requires |ss| == |xs| && DistinctMod(xs) && n <= |xs|
    ensures Cong(Eval(Through(xs, ss, n), x), Dot(Weights(x, xs), ss, n))
    decreases n
  {
    hide Lambda;
    hide Weights;
    hide BasisTerm;
    hide Eval;
    hide Add;
    if n == 0 {
      EvalZero(Through(xs, ss, 0), x);
    } else {
      var k := n - 1;
      var ws, before, term := Weights(x, xs), Through(xs, ss, k), BasisTerm(xs, ss[k], k);
      EvalThrough(xs, ss, k, x);
      EvalAdd(before, term, x);
      EvalBasisTerm(xs, ss[k], k, x);
      CongAdd(Eval(before, x), Dot(ws, ss, k), Eval(term, x), Mul(ws[k], ss[k]));
    }
  }

  lemma ThroughHits(xs: seq<int>, ss: seq<int>, j: nat)
    requires |ss| == |xs| && DistinctMod(xs) && j < |xs|
    ensures At(Through(xs, ss, |xs|), xs[j]) == Red(ss[j])
  {
    EvalThrough(xs, ss, |xs|, xs[j]);
    DotAtNode(xs, ss, j, |xs|);
  }

  /** Values of p at the points. */
  ghost predicate ValuesOf(p: Poly, xs: seq<int>, ss: seq<int>) {
    |ss| == |xs| && forall i :: 0 <= i < |xs| ==> Cong(ss[i], Eval(p, xs[i]))
  }

  /** Interpolation is exact for every polynomial shorter than the number of points. */
  lemma InterpolationExact(p: Poly, xs: seq<int>, ss: seq<int>, x: int)
    requires |p| <= |xs| && DistinctMod(xs) && ValuesOf(p, xs, ss)
    ensures Cong(Dot(Weights(x, xs), ss, |xs|), Eval(p, x))
  {
    var q := Through(xs, ss, |xs|);
    forall i | 0 <= i < |xs|
      ensures At(q, xs[i]) == At(p, xs[i])
    {
      ThroughHits(xs, ss, i);
    }
    AgreeEverywhere(q, p, xs, x);
    EvalThrough(xs, ss, |xs|, x);
  }

  // ---------------------------------------------------------------- recombination

  /** sum over k < n of ws[k] * ps[k], componentwise. */
  function Combine(ws: seq<Scalar>, ps: seq<Poly>, n: nat): Poly
    requires n <= |ws| && n <= |ps|
  {
    if n == 0 then [] else Add(Combine(ws, ps, n - 1), Scale(ps[n - 1], ws[n - 1]))
  }

  lemma {:induction false} CombineLength(ws: seq<Scalar>, ps: seq<Poly>, n: nat, len: nat)
    requires 0 < n <= |ws| && n <= |ps| && forall k :: 0 <= k < n ==> |ps[k]| == len
    ensures |Combine(ws, ps, n)| == len
  {
    if n > 1 {
      CombineLength(ws, ps, n - 1, len);
    }
  }

  lemma {:induction false} EvalCombine(ws: seq<Scalar>, ps: seq<Poly>, vs: seq<int>, n: nat, y: int)
    requires n <= |ws| && n <= |ps| && n <= |vs|
    requires forall k :: 0 <= k < n ==> Cong(vs[k], Eval(ps[k], y))
    ensures Cong(Eval(Combine(ws, ps, n), y), Dot(ws, vs, n))
  {
    hide Eval;
    hide Add;
    hide Scale;
    if n == 0 {
      EvalZero([], y);
    } else {
      var k := n - 1;
      EvalCombine(ws, ps, vs, k, y);
      EvalAdd(Combine(ws, ps, k), Scale(ps[k], ws[k]), y);
      EvalScale(ps[k], ws[k], y);
      CongScale(ws[k], Eval(ps[k], y), vs[k]);
      CongAdd(Eval(Combine(ws, ps, k), y), Dot(ws, vs, k), Eval(Scale(ps[k], ws[k]), y), Mul(ws[k], vs[k]));
    }
  }

  /** If the value of ps[k] at y is f(xs[k]), the recombination with weights for e has value f(e)
      at y.  Degree reduction (f a product of degree up to |xs| - 1) and re-sharing (f the old key
      polynomial) are both this fact. */
  lemma Recombine(f: Poly, xs: seq<int>, ps: seq<Poly>, e: int, y: int)
    requires |f| <= |xs| == |ps| && DistinctMod(xs)
    requires forall k :: 0 <= k < |xs| ==> At(ps[k], y) == At(f, xs[k])
    ensures At(Combine(Weights(e, xs), ps, |ps|), y) == At(f, e)
  {
    var ws, vs := Weights(e, xs), seq(|ps|, k requires 0 <= k < |ps| => Eval(ps[k], y));
    EvalCombine(ws, ps, vs, |ps|, y);
    InterpolationExact(f, xs, vs, e);
  }
}
