/** Feldman commitments (src/primitives/vss.rs).  A committed point a*G is represented by its
    discrete logarithm a, so the commitment to a polynomial is its coefficient vector and share
    verification is equality with the committed polynomial's value. */
module Vss {
  import opened Field
  import opened Polynomials
  import opened Lagrange
  import opened Shamir

  /** The commitment accepts s as party j's share. */
  ghost predicate VerifyShare(com: Poly, j: int, s: Scalar) {
    s == At(com, j)
  }

  /** Public evaluation: sum of x^l * A_l with a running power. */
  method EvalAtPoint(points: Poly, x: int) returns (acc: Scalar)
    ensures acc == At(points, x)
  {
    hide Eval;
    hide Red;
    acc := 0;
    RedScalar(0);
    var xpow: Scalar := One();
    assert points[0..] == points;
    assert Mul(xpow, Eval(points, x)) + acc == Eval(points, x);
    for l := 0 to |points|
      invariant Cong(Mul(xpow, Eval(points[l..], x)) + acc, Eval(points, x))
    {
      ForwardStep(acc, xpow, points[l], x, Eval(points[l + 1..], x));
      EvalSuffix(points, l, x);
      acc := Plus(acc, Times(points[l], xpow));
      xpow := Times(xpow, x);
    }
    EvalZero(points[|points|..], x);
    RedScalar(acc);
  }

  lemma EvalSuffix(p: Poly, l: nat, x: int)
    requires l < |p|
    ensures Eval(p[l..], x) == p[l] + Mul(x, Eval(p[l + 1..], x))
  {
    assert p[l..][1..] == p[l + 1..];
  }

  lemma ForwardStep(acc: int, w: int, c: int, x: int, e: int)
    ensures Cong(Mul(Times(w, x), e) + Plus(acc, Times(c, w)), Mul(w, c + Mul(x, e)) + acc)
  {
    CongScale(e, Times(w, x), Mul(w, x));
    CongAdd(acc, acc, Times(c, w), Mul(c, w));
    CongAdd(Mul(e, Times(w, x)), Mul(e, Mul(w, x)), Plus(acc, Times(c, w)), acc + Mul(c, w));
    Distribute(w, c, Mul(x, e));
    Regroup(w, x, e);
  }

  lemma {:induction false} AddAt(p: Poly, q: Poly, i: nat)
    requires |q| <= |p| && i < |p|
    ensures Add(p, q)[i] == if i < |q| then Plus(p[i], q[i]) else p[i]
    decreases i
  {
    if q != [] && i > 0 {
      AddAt(p[1..], q[1..], i - 1);
    }
  }

  lemma {:induction false} AddCommutes(p: Poly, q: Poly)
    ensures Add(p, q) == Add(q, p)
    decreases |p|
  {
    if p != [] && q != [] {
      AddCommutes(p[1..], q[1..]);
    }
  }

  /** Componentwise sum into a copy of the longer vector. */
  method AddPoints(lhs: Poly, rhs: Poly) returns (points: Poly)
    ensures points == Add(lhs, rhs)
    ensures forall x: int :: Cong(Eval(points, x), Eval(lhs, x) + Eval(rhs, x))
  {
    hide Eval;
    hide Red;
    var long, short := lhs, rhs;
    if |lhs| < |rhs| {
      long, short := rhs, lhs;
      AddCommutes(lhs, rhs);
    }
    points := long;
    for i := 0 to |short|
      invariant |points| == |long|
      invariant forall k :: 0 <= k < |long| ==> points[k] == if k < i then Plus(long[k], short[k]) else long[k]
    {
      points := points[i := Plus(points[i], short[i])];
    }
    forall k | 0 <= k < |long| ensures points[k] == Add(long, short)[k] { AddAt(long, short, k); }
    assert points == Add(lhs, rhs);
    forall x: int ensures Cong(Eval(points, x), Eval(lhs, x) + Eval(rhs, x)) { EvalAdd(lhs, rhs, x); }
  }

  /** All weights one: the sum of many commitments. */
  function Ones(n: nat): (ws: seq<Scalar>)
    ensures |ws| == n && forall i :: 0 <= i < n ==> ws[i] == Red(1)
  {
    seq(n, _ => Red(1))
  }

  lemma {:induction false} ScaleByOne(p: Poly)
    ensures Scale(p, Red(1)) == p
    decreases |p|
  {
    if p != [] {
      ScaleByOne(p[1..]);
      CongScale(p[0], Red(1), 1);
    }
  }

  /** Fold of AddPoints over the commitments, in order. */
  method Sum(coms: seq<Poly>) returns (acc: Poly)
    requires coms != []
    ensures acc == Combine(Ones(|coms|), coms, |coms|)
  {
    acc := coms[0];
    ScaleByOne(coms[0]);
    assert Combine(Ones(|coms|), coms, 0) == [];
    for i := 1 to |coms|
      invariant acc == Combine(Ones(|coms|), coms, i)
    {
      ScaleByOne(coms[i]);
      acc := AddPoints(acc, coms[i]);
    }
  }

  /** The arithmetic of committed sharings: sums, multiples and shifts of valid shares are valid
      shares of the sum, multiple and shift of the commitments. */
  lemma HomomorphicShares(p: Poly, q: Poly, c: int, j: int)
    ensures At(Add(p, q), j) == Plus(At(p, j), At(q, j))
    ensures At(Scale(p, c), j) == Times(c, At(p, j))
    ensures p != [] ==> At(AddConst(p, c), j) == Plus(At(p, j), c)
  {
    hide Eval;
    hide Add;
    hide Scale;
    hide AddConst;
    EvalAdd(p, q, j);
    CongAdd(Eval(p, j), At(p, j), Eval(q, j), At(q, j));
    EvalScale(p, c, j);
    CongScale(c, Eval(p, j), At(p, j));
    if p != [] {
      EvalAddConst(p, c, j);
      CongAdd(Eval(p, j), At(p, j), c, c);
    }
  }
}
