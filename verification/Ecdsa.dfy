/** ECDSA verification (section 4.1.4 of SEC 1) over the model group: a point is its discrete
    logarithm, and the x-coordinate reduced modulo q is known only through its symmetry. */
module Ecdsa {
  import opened Field

  /** Opposite points have the same x-coordinate. */
  ghost predicate IsXCoordinate(f: Scalar -> Scalar) {
    forall k: Scalar :: f(k) == f(Minus(0, k))
  }

  function SomeXCoordinate(): (f: Scalar -> Scalar)
    ensures IsXCoordinate(f)
  {
    k => 1
  }

  type XCoordinate = f: Scalar -> Scalar | IsXCoordinate(f) witness SomeXCoordinate()

  /** F: the x-coordinate of a point, as a scalar. */
  const F: XCoordinate

  /** The check: R = (m + r * x) / s is not the identity and has x-coordinate r. */
  predicate Verify(x: Scalar, m: Scalar, r: Scalar, s: Scalar) {
    && r != 0 && s != 0
    && var w := Inv(s);
       var point := Plus(Times(m, w), Times(Times(r, w), x));
       point != 0 && F(point) == r
  }

  /** Low-s normalisation. */
  function Normalize(s: Scalar): Scalar {
    if 2 * s > Q then Q - s else s
  }

  /** What Verify recovers: the k with s * k == m + r * x. */
  lemma Recovered(x: Scalar, m: Scalar, r: Scalar, s: Scalar, k: Scalar)
    requires s != 0 && Cong(Mul(s, k), m + Mul(r, x))
    ensures Plus(Times(m, Inv(s)), Times(Times(r, Inv(s)), x)) == k
  {
    hide Red;
    hide Inv;
    var w := Inv(s);
    InvIs(s);
    // m * w + (r * w) * x == w * (m + r * x) == w * (s * k) == k
    TimesCong(m, w);
    TimesCong(r, w);
    CongScale(x, Times(r, w), Mul(r, w));
    TimesCong(Times(r, w), x);
    Regroup(r, w, x);
    CongAdd(Times(m, w), Mul(m, w), Times(Times(r, w), x), Mul(w, Mul(r, x)));
    Distribute(w, m, Mul(r, x));
    CongScale(w, Mul(s, k), m + Mul(r, x));
    Regroup(w, s, k);
    CongScale(k, Mul(s, w), 1);
    Regroup(s, w, k);
    RedScalar(k);
  }

  /** Verification is exact: a nonzero pair passes iff its nonce point has x-coordinate r. */
  lemma VerifyIff(x: Scalar, m: Scalar, r: Scalar, s: Scalar, k: Scalar)
    requires s != 0 && Cong(Mul(s, k), m + Mul(r, x))
    ensures Verify(x, m, r, s) <==> r != 0 && k != 0 && F(k) == r
  {
    hide Red;
    hide Inv;
    Recovered(x, m, r, s, k);
  }

  /** Normalisation changes neither validity nor invalidity. */
  lemma NormalizeVerifies(x: Scalar, m: Scalar, r: Scalar, s: Scalar)
    requires s != 0
    ensures Verify(x, m, r, Normalize(s)) <==> Verify(x, m, r, s)
    ensures 2 * Normalize(s) <= Q && Normalize(s) != 0
  {
    hide Red;
    hide Inv;
    var k := Plus(Times(m, Inv(s)), Times(Times(r, Inv(s)), x));
    NonceOf(x, m, r, s, k);
    VerifyIff(x, m, r, s, k);
    if 2 * s > Q {
      var n: Scalar := Q - s;
      var nk := Minus(0, k);
      Opposite(s, k);
      VerifyIff(x, m, r, n, nk);
      NegZero(k);
      assert F(nk) == F(k);
    }
  }

  lemma NegZero(k: Scalar)
    ensures Minus(0, k) == 0 <==> k == 0
  {
    if Minus(0, k) == 0 {
      CongFromDifference(0, k);
    }
  }

  /** (q - s) * (-k) == s * k. */
  lemma Opposite(s: Scalar, k: Scalar)
    requires s != 0
    ensures Cong(Mul(Q - s, Minus(0, k)), Mul(s, k))
  {
    CongScale(Q - s, Minus(0, k), 0 - k);
    DistributeMinus(0 - k, Q, s);
    DistributeMinus(s, 0, k);
    DistributeMinus(Q, 0, k);
    CongFromQuotient(Mul(Q - s, 0 - k), Mul(s, k), 0 - k);
  }

  /** The point that Verify computes does satisfy s * k == m + r * x. */
  lemma NonceOf(x: Scalar, m: Scalar, r: Scalar, s: Scalar, k: Scalar)
    requires s != 0 && k == Plus(Times(m, Inv(s)), Times(Times(r, Inv(s)), x))
    ensures Cong(Mul(s, k), m + Mul(r, x))
  {
    hide Red;
    hide Inv;
    var w, v := Inv(s), m + Mul(r, x);
    InvIs(s);
    TimesCong(m, w);
    TimesCong(r, w);
    CongScale(x, Times(r, w), Mul(r, w));
    TimesCong(Times(r, w), x);
    Regroup(r, w, x);
    CongAdd(Times(m, w), Mul(m, w), Times(Times(r, w), x), Mul(w, Mul(r, x)));
    Distribute(w, m, Mul(r, x));
    PlusIs(Times(m, w), Times(Times(r, w), x), Mul(w, v));
    CongScale(s, k, Mul(w, v));
    Regroup(s, w, v);
    CongScale(v, Mul(s, w), 1);
  }
}
