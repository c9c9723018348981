/** The scalar field Z_q of the curve group, for an arbitrary prime q.

    Values are canonical residues (`Scalar`); statements about them are made over the integers,
    modulo q (`Cong`), so that ring identities are ordinary integer identities.  A point of the
    group is its discrete logarithm to the generator, hence a `Scalar` too.

    Products and residues are named operations, each a constant known through its defining
    property, so that proofs use the ring laws stated here and no other arithmetic on products. */
module Field {

  ghost predicate Divides(d: int, p: int)
    requires d != 0
  {
    p % d == 0
  }

  ghost predicate IsPrime(p: int) {
    1 < p && forall d :: 1 < d < p ==> !Divides(d, p)
  }

  /** A prime that fits the 32-byte field encoding. */
  type GroupOrder = p: int |
    IsPrime(p) && p < 0x1_0000000000000000_0000000000000000_0000000000000000_0000000000000000
    witness 2

  /** The group order; nothing below depends on its value. */
  const Q: GroupOrder

  type Scalar = x: int | 0 <= x < Q witness 0

  // ---------------------------------------------------------------- products

  ghost predicate ProductAt(m: (int, int) -> int, a: int, b: int) {
    m(a, b) == a * b
  }

  ghost predicate IsProduct(m: (int, int) -> int) {
    && (forall a, b :: ProductAt(m, a, b))
    && (forall a, b :: m(a, b) == m(b, a))
    && (forall a :: m(0, a) == 0)
    && (forall a :: m(1, a) == a)
  }

  function NativeProduct(): (m: (int, int) -> int)
    ensures IsProduct(m)
  {
    (a, b) => a * b
  }

  type Product = m: (int, int) -> int | IsProduct(m) witness NativeProduct()

  const MULTIPLY: Product

  /** The integer product. */
  function Mul(a: int, b: int): int {
    MULTIPLY(a, b)
  }

  lemma MulIs(a: int, b: int)
    ensures Mul(a, b) == a * b
  {
    assert ProductAt(MULTIPLY, a, b);
  }

  lemma Distribute(a: int, b: int, c: int)
    ensures Mul(a, b + c) == Mul(a, b) + Mul(a, c)
    ensures Mul(b + c, a) == Mul(b, a) + Mul(c, a)
  {
    MulIs(a, b + c);
    MulIs(a, b);
    MulIs(a, c);
  }

  lemma DistributeMinus(a: int, b: int, c: int)
    ensures Mul(a, b - c) == Mul(a, b) - Mul(a, c)
    ensures Mul(b - c, a) == Mul(b, a) - Mul(c, a)
  {
    Distribute(a, b - c, c);
  }

  lemma Regroup(a: int, b: int, c: int)
    ensures Mul(Mul(a, b), c) == Mul(a, Mul(b, c)) == Mul(b, Mul(a, c))
  {
    MulIs(a, b);
    MulIs(a * b, c);
    MulIs(b, c);
    MulIs(a, b * c);
    MulIs(a, c);
    MulIs(b, a * c);
  }

  // ---------------------------------------------------------------- residues

  ghost predicate DividesAt(d: (int -> int, int -> int), a: int) {
    a == d.0(a) + Mul(d.1(a), Q)
  }

  /** Division with remainder by q: d.0 gives the canonical residue, d.1 the quotient. */
  ghost predicate IsDivision(d: (int -> int, int -> int)) {
    && (forall a :: 0 <= d.0(a) < Q)
    && (forall a :: 0 <= a < Q ==> d.0(a) == a)
    && (forall a :: DividesAt(d, a))
  }

  function Euclid(): (d: (int -> int, int -> int))
    ensures IsDivision(d)
  {
    var d := ((a: int) => a % Q, (a: int) => a / Q);
    EuclidDivides(d);
    d
  }

  lemma EuclidDivides(d: (int -> int, int -> int))
    requires forall a :: d.0(a) == a % Q && d.1(a) == a / Q
    ensures IsDivision(d)
  {
    forall a
      ensures 0 <= d.0(a) < Q && (0 <= a < Q ==> d.0(a) == a) && DividesAt(d, a)
    {
      EuclidAt(a, Q);
      MulIs(a / Q, Q);
      assert d.0(a) == a % Q && d.1(a) == a / Q;
    }
  }

  lemma EuclidAt(a: int, q: int)
    requires q > 0
    ensures 0 <= a % q < q && a == a % q + (a / q) * q && (0 <= a < q ==> a % q == a)
  {
  }

  type Division = d: (int -> int, int -> int) | IsDivision(d) witness Euclid()

  const DIVIDE: Division

  /** The canonical residue of an integer expression: one or more field operations. */
  function Red(a: int): Scalar {
    DIVIDE.0(a)
  }

  /** Equality of residues. */
  ghost predicate Cong(a: int, b: int) {
    Red(a) == Red(b)
  }

  lemma RedScalar(s: Scalar)
    ensures Red(s) == s
  {
  }

  lemma RedQuotient(a: int)
    ensures a == Red(a) + Mul(DIVIDE.1(a), Q)
  {
    assert DividesAt(DIVIDE, a);
  }

  lemma CongFromQuotient(a: int, b: int, k: int)
    requires a - b == Mul(k, Q)
    ensures Cong(a, b)
  {
    RedQuotient(a);
    RedQuotient(b);
    var m := k - DIVIDE.1(a) + DIVIDE.1(b);
    DistributeMinus(Q, k, DIVIDE.1(a));
    Distribute(Q, k - DIVIDE.1(a), DIVIDE.1(b));
    MulIs(m, Q);
    SmallMultiple(Red(a) - Red(b), m, Q);
  }

  lemma SmallMultiple(d: int, m: int, q: int)
    requires d == m * q && d < q && -d < q
    ensures d == 0
  {
    if m >= 1 {
      NonNegativeProduct(m - 1, q);
      assert false;
    } else if m <= -1 {
      NonNegativeProduct(-m - 1, q);
      assert false;
    }
  }

  lemma NonNegativeProduct(a: int, b: int)
    requires a >= 0 && b >= 0
    ensures a * b >= 0
  {
  }

  lemma CongQuotient(a: int, b: int) returns (k: int)
    requires Cong(a, b)
    ensures a == b + Mul(k, Q)
  {
    RedQuotient(a);
    RedQuotient(b);
    k := DIVIDE.1(a) - DIVIDE.1(b);
    DistributeMinus(Q, DIVIDE.1(a), DIVIDE.1(b));
  }

  lemma CongAdd(a: int, b: int, c: int, d: int)
    requires Cong(a, b) && Cong(c, d)
    ensures Cong(a + c, b + d)
  {
    var k := CongQuotient(a, b);
    var l := CongQuotient(c, d);
    Distribute(Q, k, l);
    CongFromQuotient(a + c, b + d, k + l);
  }

  lemma CongSub(a: int, b: int, c: int, d: int)
    requires Cong(a, b) && Cong(c, d)
    ensures Cong(a - c, b - d)
  {
    var k := CongQuotient(a, b);
    var l := CongQuotient(c, d);
    DistributeMinus(Q, k, l);
    CongFromQuotient(a - c, b - d, k - l);
  }

  lemma CongScale(c: int, a: int, b: int)
    requires Cong(a, b)
    ensures Cong(Mul(c, a), Mul(c, b))
  {
    var k := CongQuotient(a, b);
    Distribute(c, b, Mul(k, Q));
    Regroup(c, k, Q);
    CongFromQuotient(Mul(c, a), Mul(c, b), Mul(c, k));
  }

  lemma CongMul(a: int, b: int, c: int, d: int)
    requires Cong(a, b) && Cong(c, d)
    ensures Cong(Mul(a, c), Mul(b, d))
  {
    CongScale(c, a, b);
    CongScale(b, c, d);
  }

  lemma TimesCong(a: int, b: int)
    ensures Cong(Times(a, b), Mul(a, b))
  {
  }

  /** One Horner step. */
  lemma CongHorner(a: int, b: int, x: int, e: int, f: int)
    requires Cong(a, b) && Cong(e, f)
    ensures Cong(a + Mul(x, e), b + Mul(x, f))
  {
    CongScale(x, e, f);
    CongAdd(a, b, Mul(x, e), Mul(x, f));
  }

  lemma CongFromDifference(a: int, b: int)
    requires Cong(a - b, 0)
    ensures Cong(a, b)
  {
    CongAdd(a - b, 0, b, b);
  }

  /** The field operations. */
  function Plus(a: int, b: int): Scalar {
    Red(a + b)
  }

  function Minus(a: int, b: int): Scalar {
    Red(a - b)
  }

  function Times(a: int, b: int): Scalar {
    Red(Mul(a, b))
  }

  lemma PlusIs(a: int, b: int, v: int)
    requires Cong(a + b, v)
    ensures Cong(Plus(a, b), v)
  {
  }

  lemma TimesIs(a: int, b: int, v: int)
    requires Cong(Mul(a, b), v)
    ensures Times(a, b) == Red(v)
  {
  }

  lemma OneCong(a: Scalar)
    requires a == Red(1)
    ensures Cong(a, 1)
  {
  }

  /** Field inversion; the source gets it from the curve library. */
  function Inv(a: Scalar): (r: Scalar)
    requires a != 0
    ensures Cong(Mul(a, r), 1)
    decreases a
  {
    if a == 1 then 1
    else
      assert !Divides(a, Q);
      InvStep(a, Q / a, Q % a, Inv(Q % a));
      Times(-(Q / a), Inv(Q % a))
  }

  lemma InvStep(a: int, c: int, m: int, s: int)
    requires Q == c * a + m && Cong(Mul(m, s), 1)
    ensures Cong(Mul(a, Times(-c, s)), 1)
  {
    // a * (-c * s) == m * s - s * q
    CongScale(a, Times(-c, s), Mul(-c, s));
    Regroup(a, -c, s);
    MulIs(-c, a);
    assert -c * a == m - Q;
    DistributeMinus(s, m, Q);
    CongFromQuotient(Mul(a, Mul(-c, s)), Mul(m, s), -s) by {
      DistributeMinus(Q, 0, s);
    }
  }

  /** There are no zero divisors. */
  lemma CongCancel(a: int, b: int)
    requires Cong(Mul(a, b), 0) && !Cong(a, 0)
    ensures Cong(b, 0)
  {
    var i := Inv(Red(a));
    // b == 1 * b == (i * a) * b == i * (a * b) == 0
    CongScale(i, Red(a), a);
    CongScale(b, Mul(i, a), 1);
    CongScale(i, Mul(a, b), 0);
    Regroup(i, a, b);
  }

  lemma InvIs(a: Scalar)
    requires a != 0
    ensures Cong(Mul(a, Inv(a)), 1)
  {
  }

  /** Points that stay different modulo q. */
  ghost predicate DistinctMod(xs: seq<int>) {
    forall i, j :: 0 <= i < j < |xs| ==> !Cong(xs[i], xs[j])
  }
}
