/** Beaver multiplication on committed sharings: the masked openings and the linear combination
    that presigning and key-independent signing share (src/protocol/presign.rs,
    src/protocol/sign.rs). */
module Beaver {
  import opened Field
  import opened Polynomials
  import opened Vss
  import opened Triples

  /** Commitment to a masked operand, x - a. */
  function MaskCom(x: Poly, a: Poly): (r: Poly)
    ensures |r| == if |x| >= |a| then |x| else |a|
  {
    Add(x, Scale(a, Minus(0, 1)))
  }

  lemma MaskAt(x: Poly, a: Poly, y: int)
    ensures At(MaskCom(x, a), y) == Minus(At(x, y), At(a, y))
  {
    hide Red;
    hide Eval;
    hide Add;
    hide Scale;
    var n := Minus(0, 1);
    HomomorphicShares(x, Scale(a, n), 0, y);
    HomomorphicShares(a, [], n, y);
    NegatedOnce(At(x, y), At(a, y));
  }

  lemma NegatedOnce(u: int, v: int)
    ensures Plus(u, Times(Minus(0, 1), v)) == Minus(u, v)
  {
    CongScale(v, Minus(0, 1), 0 - 1);
    DistributeMinus(v, 0, 1);
    CongAdd(u, u, Times(Minus(0, 1), v), 0 - v);
  }

  /** A party's share of a masked operand verifies against the mask commitment. */
  lemma MaskShare(x: Poly, a: Poly, j: int, sx: Scalar, sa: Scalar)
    requires VerifyShare(x, j, sx) && VerifyShare(a, j, sa)
    ensures VerifyShare(MaskCom(x, a), j, Minus(sx, sa))
  {
    MaskAt(x, a, j);
  }

  /** Commitment to the product: c + delta * b + eps * a + delta * eps. */
  function ProductCom(pub: TriplePublic, delta: Scalar, eps: Scalar): (r: Poly)
    requires pub.cc != []
    ensures |pub.ca| == |pub.cb| == |pub.cc| ==> |r| == |pub.cc|
  {
    AddConst(Add(Add(pub.cc, Scale(pub.cb, delta)), Scale(pub.ca, eps)), Times(delta, eps))
  }

  /** A party's share of the product. */
  function ProductShare(t: TripleShare, delta: Scalar, eps: Scalar): Scalar {
    Plus(Plus(Plus(t.c, Times(delta, t.b)), Times(eps, t.a)), Times(delta, eps))
  }

  lemma ProductComAt(pub: TriplePublic, delta: Scalar, eps: Scalar, y: int)
    requires pub.cc != []
    ensures At(ProductCom(pub, delta, eps), y)
      == Plus(Plus(Plus(At(pub.cc, y), Times(delta, At(pub.cb, y))), Times(eps, At(pub.ca, y))), Times(delta, eps))
  {
    hide Red;
    hide Eval;
    hide Add;
    hide Scale;
    hide AddConst;
    var db, ea := Scale(pub.cb, delta), Scale(pub.ca, eps);
    HomomorphicShares(pub.cb, [], delta, y);
    HomomorphicShares(pub.ca, [], eps, y);
    HomomorphicShares(pub.cc, db, 0, y);
    HomomorphicShares(Add(pub.cc, db), ea, 0, y);
    HomomorphicShares(Add(Add(pub.cc, db), ea), [], Times(delta, eps), y);
  }

  /** Every member's product share verifies against the product commitment. */
  lemma ProductShareVerifies(pub: TriplePublic, t: TripleShare, delta: Scalar, eps: Scalar)
    requires pub.cc != [] && ValidRecord(pub, t)
    ensures VerifyShare(ProductCom(pub, delta, eps), t.index, ProductShare(t, delta, eps))
  {
    hide ProductCom;
    ProductComAt(pub, delta, eps, t.index);
  }

  /** Beaver's identity at any point where the triple multiplies: opening x - a and y - b turns
      the triple into the product of x and y. */
  lemma ProductValue(pub: TriplePublic, x: Poly, y: Poly, e: int)
    requires pub.cc != [] && Multiplicative(pub, e)
    ensures var delta, eps := At(MaskCom(x, pub.ca), e), At(MaskCom(y, pub.cb), e);
            At(ProductCom(pub, delta, eps), e) == Times(At(x, e), At(y, e))
  {
    hide ProductCom;
    hide MaskCom;
    hide Red;
    hide Eval;
    var delta, eps := At(MaskCom(x, pub.ca), e), At(MaskCom(y, pub.cb), e);
    MaskAt(x, pub.ca, e);
    MaskAt(y, pub.cb, e);
    ProductComAt(pub, delta, eps, e);
    BeaverIdentity(At(x, e), At(y, e), At(pub.ca, e), At(pub.cb, e), At(pub.cc, e), delta, eps);
  }

  lemma BeaverIdentity(x: Scalar, y: Scalar, a: Scalar, b: Scalar, c: Scalar, d: Scalar, e: Scalar)
    requires c == Times(a, b) && d == Minus(x, a) && e == Minus(y, b)
    ensures Plus(Plus(Plus(c, Times(d, b)), Times(e, a)), Times(d, e)) == Times(x, y)
  {
    hide Red;
    var de, db, ea := Mul(d, e), Mul(d, b), Mul(e, a);
    // all four summands as products of representatives
    TimesCong(a, b);
    RedScalar(c);
    TimesCong(d, b);
    TimesCong(e, a);
    TimesCong(d, e);
    CongAdd(c, Mul(a, b), Times(d, b), db);
    PlusIs(c, Times(d, b), Mul(a, b) + db);
    CongAdd(Plus(c, Times(d, b)), Mul(a, b) + db, Times(e, a), ea);
    PlusIs(Plus(c, Times(d, b)), Times(e, a), Mul(a, b) + db + ea);
    CongAdd(Plus(Plus(c, Times(d, b)), Times(e, a)), Mul(a, b) + db + ea, Times(d, e), de);
    // a * b + d * b + e * a + d * e == (a + d) * (b + e)
    Distribute(a + d, b, e);
    Distribute(b, a, d);
    Distribute(e, a, d);
    Unmasked(x, a, d);
    Unmasked(y, b, e);
    CongMul(a + d, x, b + e, y);
  }

  lemma Unmasked(x: Scalar, a: Scalar, d: Scalar)
    requires d == Minus(x, a)
    ensures Cong(a + d, x)
  {
    CongAdd(a, a, d, x - a);
  }
}
