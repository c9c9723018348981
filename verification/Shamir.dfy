/** Shamir sharing (src/primitives/shamir.rs): the evaluation and interpolation loops, and packed
    constant sharings whose values sit at the reserved slot points -b. */
module Shamir {
  import opened Field
  import opened Polynomials
  import opened Lagrange

  lemma HornerAt(p: Poly, x: int, i: nat)
    requires i < |p|
    ensures Plus(Times(At(p[i + 1..], x), x), p[i]) == At(p[i..], x)
  {
    var e, a := Eval(p[i + 1..], x), At(p[i + 1..], x);
    assert p[i..][1..] == p[i + 1..];
    CongScale(x, a, e);
    CongAdd(Times(a, x), Mul(x, e), p[i], p[i]);
  }

  /** Horner's rule, from the highest coefficient. */
  method EvalAt(coeffs: Poly, x: int) returns (acc: Scalar)
    ensures acc == At(coeffs, x)
  {
    acc := 0;
    var i := |coeffs|;
    while i > 0
      invariant 0 <= i <= |coeffs|
      invariant acc == At(coeffs[i..], x)
    {
      i := i - 1;
      HornerAt(coeffs, x, i);
      acc := Plus(Times(acc, x), coeffs[i]);
    }
    assert coeffs[0..] == coeffs;
  }

  /** Slot point of a packed sharing. */
  function SlotPoint(b: nat): (e: Scalar)
    ensures Cong(e, 0 - b)
  {
    Minus(0, b)
  }

  lemma {:induction false} ProdSnoc(rs: seq<int>, r: int, x: int)
    ensures Prod(rs + [r], x) == Mul(Prod(rs, x), x - r)
    decreases |rs|
  {
    if rs == [] {
      assert (rs + [r])[1..] == [];
      assert Prod([], x) == 1;
    } else {
      assert (rs + [r])[1..] == rs[1..] + [r];
      ProdSnoc(rs[1..], r, x);
      Regroup(x - rs[0], Prod(rs[1..], x), x - r);
    }
  }

  /** The first k points without the i-th. */
  ghost function Skip(xs: seq<int>, i: nat, k: nat): seq<int>
    requires i < |xs| && k <= |xs|
  {
    if k <= i then xs[..k] else xs[..i] + xs[i + 1..k]
  }

  lemma SkipStep(xs: seq<int>, i: nat, k: nat)
    requires i < |xs| && k < |xs| && k != i
    ensures Skip(xs, i, k + 1) == Skip(xs, i, k) + [xs[k]]
  {
  }

  lemma ProductStep(acc: Scalar, rs: seq<int>, r: int, x: int)
    requires acc == Red(Prod(rs, x))
    ensures Times(acc, x - r) == Red(Prod(rs + [r], x))
  {
    CongScale(x - r, acc, Prod(rs, x));
    ProdSnoc(rs, r, x);
  }

  /** The inner loop: numerator and denominator of the i-th weight. */
  method Factors(x: int, parties: seq<int>, i: nat) returns (num: Scalar, den: Scalar)
    requires i < |parties|
    ensures num == Red(Prod(Without(parties, i), x)) && den == Red(Prod(Without(parties, i), parties[i]))
  {
    hide Prod;
    hide Red;
    var xi := parties[i];
    num, den := One(), One();
    assert Skip(parties, i, 0) == [];
    EmptyProduct(x);
    EmptyProduct(xi);
    for k := 0 to |parties|
      invariant num == Red(Prod(Skip(parties, i, k), x))
      invariant den == Red(Prod(Skip(parties, i, k), xi))
    {
      if k == i {
        assert Skip(parties, i, k + 1) == Skip(parties, i, k);
      } else {
        SkipStep(parties, i, k);
        ProductStep(num, Skip(parties, i, k), parties[k], x);
        ProductStep(den, Skip(parties, i, k), parties[k], xi);
        num := Times(num, x - parties[k]);
        den := Times(den, xi - parties[k]);
      }
    }
    assert Skip(parties, i, |parties|) == Without(parties, i);
  }

  /** Lagrange weights for interpolation at x over the parties. */
  method LagrangeCoeffsAt(x: int, parties: seq<int>) returns (out: seq<Scalar>)
    requires DistinctMod(parties)
    ensures out == Weights(x, parties)
  {
    hide Prod;
    hide Red;
    out := [];
    for i := 0 to |parties|
      invariant out == Weights(x, parties)[..i]
    {
      var num, den := Factors(x, parties, i);
      assert den == Denominator(parties, i);
      ReducedFactor(num, Prod(Without(parties, i), x), Inv(den));
      out := out + [Times(num, Inv(den))];
    }
  }

  lemma EmptyProduct(x: int)
    ensures Red(Prod([], x)) == 1
  {
  }

  function One(): (r: Scalar)
    ensures r == 1
  {
    1
  }

  lemma ReducedFactor(a: Scalar, p: int, i: int)
    requires a == Red(p)
    ensures Times(a, i) == Times(p, i)
  {
    CongScale(i, a, p);
  }

  /** The interpolation sum. */
  ghost function Interpolated(x: int, parties: seq<int>, shares: seq<int>): Scalar
    requires DistinctMod(parties) && |shares| == |parties|
  {
    Red(Dot(Weights(x, parties), shares, |parties|))
  }

  method InterpolateAt(x: int, parties: seq<int>, shares: seq<Scalar>) returns (acc: Scalar)
    requires DistinctMod(parties) && |shares| == |parties|
    ensures acc == Interpolated(x, parties, shares)
  {
    var lambdas := LagrangeCoeffsAt(x, parties);
    acc := 0;
    for i := 0 to |shares|
      invariant acc == Red(Dot(lambdas, shares, i))
    {
      DotStep(acc, lambdas, shares, i);
      acc := Plus(acc, Times(lambdas[i], shares[i]));
    }
  }

  lemma DotStep(acc: Scalar, ws: seq<int>, ss: seq<int>, i: nat)
    requires i < |ws| && i < |ss| && acc == Red(Dot(ws, ss, i))
    ensures Plus(acc, Times(ws[i], ss[i])) == Red(Dot(ws, ss, i + 1))
  {
    CongAdd(acc, Dot(ws, ss, i), Times(ws[i], ss[i]), Mul(ws[i], ss[i]));
  }

  /** Interpolating any |p| values of a polynomial p at distinct points gives p(x). */
  lemma InterpolatedIs(p: Poly, x: int, parties: seq<int>, shares: seq<int>)
    requires |p| <= |parties| && DistinctMod(parties) && ValuesOf(p, parties, shares)
    ensures Interpolated(x, parties, shares) == At(p, x)
  {
    InterpolationExact(p, parties, shares, x);
  }

  // ---------------------------------------------------------------- packed constant sharings

  ghost function Pow(y: int, k: nat): int {
    if k == 0 then 1 else Mul(y, Pow(y, k - 1))
  }

  lemma {:induction false} PowAdd(y: int, k: nat, l: nat)
    ensures Pow(y, k + l) == Mul(Pow(y, k), Pow(y, l))
    decreases k
  {
    if k > 0 {
      PowAdd(y, k - 1, l);
      Regroup(y, Pow(y, k - 1), Pow(y, l));
    }
  }

  /** p[k] += a. */
  function Bump(p: Poly, k: nat, a: int): (r: Poly)
    requires k < |p|
    ensures |r| == |p|
  {
    p[k := Plus(p[k], a)]
  }

  lemma BumpedHead(c: Scalar, a: int)
    ensures Cong(Plus(c, a), c + a)
  {
  }

  lemma {:induction false} EvalBump(p: Poly, k: nat, a: int, y: int)
    requires k < |p|
    ensures Cong(Eval(Bump(p, k, a), y), Eval(p, y) + Mul(a, Pow(y, k)))
    decreases k
  {
    hide Red;
    var q := Bump(p, k, a);
    if k == 0 {
      assert q[1..] == p[1..];
      BumpedHead(p[0], a);
      CongAdd(q[0], p[0] + a, Mul(y, Eval(p[1..], y)), Mul(y, Eval(p[1..], y)));
    } else {
      assert q[1..] == Bump(p[1..], k - 1, a);
      EvalBump(p[1..], k - 1, a, y);
      CongHorner(p[0], p[0], y, Eval(q[1..], y), Eval(p[1..], y) + Mul(a, Pow(y, k - 1)));
      Distribute(y, Eval(p[1..], y), Mul(a, Pow(y, k - 1)));
      Regroup(a, y, Pow(y, k - 1));
    }
  }

  lemma {:induction false} EvalPrefix(p: Poly, k: nat, y: int)
    requires k < |p|
    ensures Eval(p[..k + 1], y) == Eval(p[..k], y) + Mul(p[k], Pow(y, k))
    decreases k
  {
    var q, r := p[..k + 1], p[..k];
    if k == 0 {
      assert q[1..] == [];
    } else {
      assert q[1..] == p[1..][..k] && r[1..] == p[1..][..k - 1];
      EvalPrefix(p[1..], k - 1, y);
      Distribute(y, Eval(r[1..], y), Mul(p[k], Pow(y, k - 1)));
      Regroup(p[k], y, Pow(y, k - 1));
    }
  }

  /** The slot points 0, -1, ..., -(b-1). */
  ghost function Slots(b: nat): (s: seq<int>)
    ensures |s| == b
  {
    seq(b, k => -k)
  }

  /** (X + i) * v, the inner loop of the vanishing polynomial. */
  method TimesXPlus(v: Poly, i: nat) returns (nv: Poly)
    ensures |nv| == |v| + 1
    ensures forall y: int :: Cong(Eval(nv, y), Mul(y + i, Eval(v, y)))
  {
    nv := seq(|v| + 1, _ => 0);
    forall y: int
      ensures Cong(Eval(nv, y), Mul(y + i, Eval(v[..0], y)))
    {
      EvalZero(nv, y);
    }
    for k := 0 to |v|
      invariant |nv| == |v| + 1
      invariant forall y: int :: Cong(Eval(nv, y), Mul(y + i, Eval(v[..k], y)))
    {
      ghost var was := nv;
      nv := Bump(nv, k, Times(v[k], i));
      nv := Bump(nv, k + 1, v[k]);
      forall y: int
        ensures Cong(Eval(nv, y), Mul(y + i, Eval(v[..k + 1], y)))
      {
        TimesXPlusStep(v, i, k, was, y);
      }
    }
    assert v[..|v|] == v;
  }

  lemma TimesXPlusStep(v: Poly, i: nat, k: nat, was: Poly, y: int)
    requires k < |v| && |was| == |v| + 1
    requires Cong(Eval(was, y), Mul(y + i, Eval(v[..k], y)))
    ensures Cong(Eval(Bump(Bump(was, k, Times(v[k], i)), k + 1, v[k]), y), Mul(y + i, Eval(v[..k + 1], y)))
  {
    hide Eval;
    hide Bump;
    var mid := Bump(was, k, Times(v[k], i));
    EvalBump(was, k, Times(v[k], i), y);
    EvalBump(mid, k + 1, v[k], y);
    EvalPrefix(v, k, y);
    XPlusIdentity(Eval(was, y), Eval(mid, y), Eval(Bump(mid, k + 1, v[k]), y), Eval(v[..k], y), v[k], Times(v[k], i),
                  Pow(y, k), y, i);
  }

  lemma XPlusIdentity(was: int, mid: int, now: int, e: int, c: int, ci: int, w: int, y: int, i: int)
    requires Cong(was, Mul(y + i, e)) && Cong(mid, was + Mul(ci, w)) && Cong(ci, Mul(c, i))
    requires Cong(now, mid + Mul(c, Mul(y, w)))
    ensures Cong(now, Mul(y + i, e + Mul(c, w)))
  {
    CongScale(w, ci, Mul(c, i));
    CongAdd(was, Mul(y + i, e), Mul(ci, w), Mul(w, Mul(c, i)));
    CongAdd(mid, Mul(y + i, e) + Mul(w, Mul(c, i)), Mul(c, Mul(y, w)), Mul(c, Mul(y, w)));
    Distribute(y + i, e, Mul(c, w));
    Distribute(Mul(c, w), y, i);
    Regroup(c, y, w);
    Regroup(w, c, i);
    Regroup(c, w, i);
    Regroup(y, c, w);
  }

  /** prod over slots of (X + slot index). */
  method VanishingPoly(b: nat) returns (v: Poly)
    ensures |v| == b + 1
    ensures forall y: int :: Cong(Eval(v, y), Prod(Slots(b), y))
  {
    hide Eval;
    v := [One()];
    forall y: int
      ensures Cong(Eval(v, y), Prod(Slots(0), y))
    {
      EvalConstant(1, y);
    }
    for i := 0 to b
      invariant |v| == i + 1
      invariant forall y: int :: Cong(Eval(v, y), Prod(Slots(i), y))
    {
      ghost var was := v;
      v := TimesXPlus(v, i);
      forall y: int
        ensures Cong(Eval(v, y), Prod(Slots(i + 1), y))
      {
        SlotProduct(i, y);
        CongScale(y + i, Eval(was, y), Prod(Slots(i), y));
      }
    }
  }

  lemma SlotProduct(i: nat, y: int)
    ensures Prod(Slots(i + 1), y) == Mul(Prod(Slots(i), y), y + i)
  {
    assert Slots(i + 1) == Slots(i) + [0 - i];
    ProdSnoc(Slots(i), 0 - i, y);
  }

  /** value + V(y) * r(y): what a packed constant sharing with mask r evaluates to. */
  ghost function PackedValue(value: int, b: nat, r: Poly, y: int): int {
    value + Mul(Prod(Slots(b), y), Eval(r, y))
  }

  /** The sampled coefficients are the parameter r (the t - 1 masking coefficients). */
  method RandomPackedConst(value: Scalar, b: nat, t: nat, r: Poly) returns (q: Poly)
    requires 1 <= b && 1 <= t && |r| == t - 1
    ensures |q| == t + b - 1
    ensures forall y: int :: Cong(Eval(q, y), PackedValue(value, b, r, y))
    ensures forall slot :: 0 <= slot < b ==> At(q, SlotPoint(slot)) == value
  {
    hide *;
    var d := t + b - 2;
    var v := VanishingPoly(b);
    q := seq(d + 1, _ => 0);
    q := q[0 := value];
    assert q[1..] == seq(d, _ => 0);
    forall y: int
      ensures Cong(Eval(q, y), value + Mul(Eval(v[..0], y), Eval(r, y)))
    {
      NoRowsYet(q, value, v, r, y);
    }
    for i := 0 to |v|
      invariant |q| == d + 1
      invariant forall y: int :: Cong(Eval(q, y), value + Mul(Eval(v[..i], y), Eval(r, y)))
    {
      q := AddScaledShifted(q, v, i, r, value);
    }
    assert v[..|v|] == v;
    forall y: int
      ensures Cong(Eval(q, y), PackedValue(value, b, r, y))
    {
      MaskedValue(q, value, b, v, r, y);
    }
    forall slot | 0 <= slot < b
      ensures At(q, SlotPoint(slot)) == value
    {
      ValueAtSlot(q, value, b, r, slot);
    }
  }

  lemma NoRowsYet(q: Poly, value: Scalar, v: Poly, r: Poly, y: int)
    requires q != [] && q[0] == value && q[1..] == seq(|q| - 1, _ => 0)
    ensures Cong(Eval(q, y), value + Mul(Eval(v[..0], y), Eval(r, y)))
  {
    EvalZero(q[1..], y);
  }

  lemma MaskedValue(q: Poly, value: Scalar, b: nat, v: Poly, r: Poly, y: int)
    requires Cong(Eval(q, y), value + Mul(Eval(v, y), Eval(r, y))) && Cong(Eval(v, y), Prod(Slots(b), y))
    ensures Cong(Eval(q, y), PackedValue(value, b, r, y))
  {
    hide Eval;
    hide Prod;
    hide Red;
    CongScale(Eval(r, y), Eval(v, y), Prod(Slots(b), y));
    CongAdd(value, value, Mul(Eval(v, y), Eval(r, y)), Mul(Prod(Slots(b), y), Eval(r, y)));
  }

  lemma ValueAtSlot(q: Poly, value: Scalar, b: nat, r: Poly, slot: nat)
    requires slot < b && Cong(Eval(q, 0 - slot), PackedValue(value, b, r, 0 - slot))
    ensures At(q, SlotPoint(slot)) == value
  {
    hide Eval;
    ProdRoot(Slots(b), slot);
    EvalAtCong(q, SlotPoint(slot), 0 - slot);
  }

  /** The inner product loop: q += v[i] * X^i * r. */
  method AddScaledShifted(q0: Poly, v: Poly, i: nat, r: Poly, value: Scalar) returns (q: Poly)
    requires i < |v| && |q0| >= |v| + |r| - 1
    requires forall y: int :: Cong(Eval(q0, y), value + Mul(Eval(v[..i], y), Eval(r, y)))
    ensures |q| == |q0|
    ensures forall y: int :: Cong(Eval(q, y), value + Mul(Eval(v[..i + 1], y), Eval(r, y)))
  {
    hide *;
    q := q0;
    forall y: int
      ensures Cong(Eval(q, y), Eval(q0, y) + Mul(Mul(v[i], Pow(y, i)), Eval(r[..0], y)))
    {
      EmptyRow(v[i], Pow(y, i), r, y, Eval(q0, y));
    }
    for l := 0 to |r|
      invariant |q| == |q0|
      invariant forall y: int :: Cong(Eval(q, y), Eval(q0, y) + Mul(Mul(v[i], Pow(y, i)), Eval(r[..l], y)))
    {
      ghost var was := q;
      q := Bump(q, i + l, Times(v[i], r[l]));
      forall y: int
        ensures Cong(Eval(q, y), Eval(q0, y) + Mul(Mul(v[i], Pow(y, i)), Eval(r[..l + 1], y)))
      {
        ShiftedStep(q0, was, v[i], i, r, l, y);
      }
    }
    assert r[..|r|] == r;
    forall y: int
      ensures Cong(Eval(q, y), value + Mul(Eval(v[..i + 1], y), Eval(r, y)))
    {
      RowAdded(Eval(q, y), Eval(q0, y), value, v, i, y, Eval(r, y));
    }
  }

  lemma EmptyRow(a: int, w: int, r: Poly, y: int, e: int)
    ensures Cong(e, e + Mul(Mul(a, w), Eval(r[..0], y)))
  {
  }

  lemma RowAdded(now: int, was: int, value: int, v: Poly, i: nat, y: int, f: int)
    requires i < |v| && Cong(was, value + Mul(Eval(v[..i], y), f))
    requires Cong(now, was + Mul(Mul(v[i], Pow(y, i)), f))
    ensures Cong(now, value + Mul(Eval(v[..i + 1], y), f))
  {
    hide Eval;
    var e, row := Eval(v[..i], y), Mul(v[i], Pow(y, i));
    EvalPrefix(v, i, y);
    CongAdd(was, value + Mul(e, f), Mul(row, f), Mul(row, f));
    Distribute(f, e, row);
  }

  lemma ShiftedStep(q0: Poly, was: Poly, a: int, i: nat, r: Poly, l: nat, y: int)
    requires l < |r| && i + l < |was|
    requires Cong(Eval(was, y), Eval(q0, y) + Mul(Mul(a, Pow(y, i)), Eval(r[..l], y)))
    ensures Cong(Eval(Bump(was, i + l, Times(a, r[l])), y), Eval(q0, y) + Mul(Mul(a, Pow(y, i)), Eval(r[..l + 1], y)))
  {
    hide Eval;
    hide Bump;
    hide Pow;
    hide Red;
    var m, w, u, e := Times(a, r[l]), Pow(y, i), Pow(y, l), Eval(r[..l], y);
    EvalBump(was, i + l, m, y);
    EvalPrefix(r, l, y);
    PowAdd(y, i, l);
    // m * (w * u) == (a * w) * (c * u)
    TimesCong(a, r[l]);
    CongScale(Mul(w, u), m, Mul(a, r[l]));
    Regroup(a, w, Mul(r[l], u));
    Regroup(a, r[l], Mul(w, u));
    Regroup(w, r[l], u);
    Distribute(Mul(a, w), e, Mul(r[l], u));
    CongAdd(Eval(was, y), Eval(q0, y) + Mul(Mul(a, w), e), Mul(m, Mul(w, u)), Mul(Mul(a, r[l]), Mul(w, u)));
  }
}
