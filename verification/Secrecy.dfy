/** Threshold secrecy as exact counting (src/primitives/shamir.rs): whatever t - 1 parties hold,
    every secret is consistent with exactly one choice of the dealer's random coefficients. */
module Secrecy {
  import opened Field
  import opened Polynomials
  import opened Lagrange
  import opened Shamir

  /** The polynomial has the given values at the given points. */
  ghost predicate Fits(p: Poly, xs: seq<int>, ss: seq<Scalar>) {
    |ss| == |xs| && forall i :: 0 <= i < |xs| ==> At(p, xs[i]) == ss[i]
  }

  /** p is the only vector of its length that fits. */
  ghost predicate OnlyFit(p: Poly, xs: seq<int>, ss: seq<Scalar>) {
    Fits(p, xs, ss) && forall q: Poly :: |q| == |p| && Fits(q, xs, ss) ==> q == p
  }

  /** As many values as coefficients determine exactly one polynomial. */
  lemma ExactlyOneFit(xs: seq<int>, ss: seq<Scalar>)
    requires DistinctMod(xs) && |ss| == |xs|
    ensures |Through(xs, ss, |xs|)| == |xs| && OnlyFit(Through(xs, ss, |xs|), xs, ss)
  {
    hide Eval;
    hide Through;
    var p := Through(xs, ss, |xs|);
    forall i | 0 <= i < |xs|
      ensures At(p, xs[i]) == ss[i]
    {
      ThroughHits(xs, ss, i);
      RedScalar(ss[i]);
    }
    forall q: Poly | |q| == |p| && Fits(q, xs, ss)
      ensures q == p
    {
      FitsSame(p, q, xs, ss);
    }
  }

  lemma FitsSame(p: Poly, q: Poly, xs: seq<int>, ss: seq<Scalar>)
    requires |p| == |q| == |xs| && DistinctMod(xs) && Fits(p, xs, ss) && Fits(q, xs, ss)
    ensures q == p
  {
    hide At;
    AgreeSame(q, p, xs);
  }

  /** Points of t - 1 corrupt parties, apart from each other and from zero. */
  ghost predicate PartyPoints(ids: seq<nat>) {
    DistinctMod(ids) && forall i :: 0 <= i < |ids| ==> 1 <= ids[i] < Q
  }

  /** A dealt sharing of the secret that gives these parties these shares. */
  ghost predicate Explains(p: Poly, t: nat, secret: Scalar, ids: seq<nat>, ss: seq<Scalar>) {
    |p| == t && p != [] && p[0] == secret && Fits(p, ids, ss)
  }

  /** Shamir: any t - 1 shares leave every secret possible, each in exactly one way. */
  lemma ShamirSecrecy(t: nat, ids: seq<nat>, ss: seq<Scalar>, secret: Scalar) returns (p: Poly)
    requires t >= 1 && PartyPoints(ids) && |ids| == |ss| == t - 1
    ensures Explains(p, t, secret, ids, ss)
    ensures forall q: Poly :: Explains(q, t, secret, ids, ss) ==> q == p
  {
    var xs: seq<int>, vs := [0] + ids, [secret] + ss;
    DistinctWithZero(ids);
    ExactlyOneFit(xs, vs);
    p := Through(xs, vs, t);
    ZeroPoint(p, secret, ids, ss);
    forall q: Poly | Explains(q, t, secret, ids, ss)
      ensures q == p
    {
      ZeroPoint(q, secret, ids, ss);
    }
  }

  lemma DistinctWithZero(ids: seq<nat>)
    requires PartyPoints(ids)
    ensures DistinctMod([0] + ids)
  {
    var xs: seq<int> := [0] + ids;
    forall i, j | 0 <= i < j < |xs|
      ensures !Cong(xs[i], xs[j])
    {
      assert xs[j] == ids[j - 1];
      if i == 0 {
        RedScalar(0);
        RedScalar(xs[j]);
      } else {
        assert xs[i] == ids[i - 1];
      }
    }
  }

  /** Having the secret as constant is having it as value at 0. */
  lemma ZeroPoint(p: Poly, secret: Scalar, ids: seq<nat>, ss: seq<Scalar>)
    requires p != [] && |ss| == |ids|
    ensures Fits(p, [0] + ids, [secret] + ss) <==> p[0] == secret && Fits(p, ids, ss)
  {
    hide Eval;
    var xs: seq<int>, vs := [0] + ids, [secret] + ss;
    AtZeroIs(p);
    if Fits(p, xs, vs) {
      forall i | 0 <= i < |ids| ensures At(p, ids[i]) == ss[i] { assert xs[i + 1] == ids[i] && vs[i + 1] == ss[i]; }
      assert At(p, xs[0]) == vs[0];
    }
    if p[0] == secret && Fits(p, ids, ss) {
      forall i | 0 <= i < |xs|
        ensures At(p, xs[i]) == vs[i]
      {
        if i > 0 {
          assert xs[i] == ids[i - 1] && vs[i] == ss[i - 1];
        }
      }
    }
  }

  // ---------------------------------------------------------------- packed sharings

  /** Party points that also stay apart from the b slot points. */
  ghost predicate AwayFromSlots(ids: seq<nat>, b: nat) {
    PartyPoints(ids) && forall i :: 0 <= i < |ids| ==> ids[i] + b <= Q
  }

  lemma SlotApart(id: nat, k: nat, b: nat)
    requires 1 <= id && id + b <= Q && k < b
    ensures !Cong(id, 0 - k)
  {
    RedScalar(id + k);
    RedScalar(0);
    if Cong(id, 0 - k) {
      CongAdd(id, 0 - k, k, k);
    }
  }

  /** The vanishing polynomial of the slots is nonzero at every party. */
  lemma VanishingNonzero(id: nat, b: nat)
    requires 1 <= id && id + b <= Q
    ensures !Cong(Prod(Slots(b), id), 0)
  {
    forall k | 0 <= k < b
      ensures !Cong(id, Slots(b)[k])
    {
      SlotApart(id, k, b);
    }
    ProdNonzero(Slots(b), id);
  }

  /** The mask explains the parties' shares of a packed constant sharing of the value. */
  ghost predicate MaskExplains(r: Poly, value: Scalar, b: nat, ids: seq<nat>, ss: seq<Scalar>) {
    |r| == |ids| == |ss| && forall i :: 0 <= i < |ids| ==> Cong(PackedValue(value, b, r, ids[i]), ss[i])
  }

  /** What the mask must be worth at party i. */
  ghost function MaskValue(value: Scalar, b: nat, id: nat, s: Scalar): Scalar
    requires Red(Prod(Slots(b), id)) != 0
  {
    Times(Minus(s, value), Inv(Red(Prod(Slots(b), id))))
  }

  lemma MaskValueExplains(value: Scalar, b: nat, id: nat, s: Scalar, e: int)
    requires Red(Prod(Slots(b), id)) != 0
    ensures Red(e) == MaskValue(value, b, id, s) <==> Cong(value + Mul(Prod(Slots(b), id), e), s)
  {
    hide Prod;
    hide Inv;
    var v := Prod(Slots(b), id);
    var i := Inv(Red(v));
    InvIs(Red(v));
    CongScale(i, Red(v), v);
    if Red(e) == MaskValue(value, b, id, s) {
      // v * e == v * ((s - value) * i) == s - value
      CongScale(v, e, Mul(Minus(s, value), i));
      Regroup(v, Minus(s, value), i);
      CongScale(Minus(s, value), Mul(i, v), 1);
      CongAdd(value, value, Mul(v, e), s - value);
    }
    if Cong(value + Mul(v, e), s) {
      // (s - value) * i == (v * e) * i == e
      CongSub(value + Mul(v, e), s, value, value);
      CongScale(i, Mul(v, e), Minus(s, value));
      Regroup(i, v, e);
      CongScale(e, Mul(i, v), 1);
    }
  }

  /** Packed constant sharings: any t - 1 shares leave every value possible, with exactly one
      mask each. */
  lemma PackedConstSecrecy(t: nat, b: nat, ids: seq<nat>, ss: seq<Scalar>, value: Scalar) returns (r: Poly)
    requires t >= 1 && b >= 1 && AwayFromSlots(ids, b) && |ids| == |ss| == t - 1
    ensures |r| == t - 1 && MaskExplains(r, value, b, ids, ss)
    ensures forall q: Poly :: MaskExplains(q, value, b, ids, ss) ==> q == r
  {
    hide MaskValue;
    hide Slots;
    hide Prod;
    hide Eval;
    hide Red;
    forall i | 0 <= i < |ids|
      ensures Red(Prod(Slots(b), ids[i])) != 0
    {
      NonzeroRed(ids[i], b);
    }
    var ms := seq(|ids|, i requires 0 <= i < |ids| => MaskValue(value, b, ids[i], ss[i]));
    ExactlyOneFit(ids, ms);
    r := Through(ids, ms, |ids|);
    MaskFits(r, value, b, ids, ss, ms);
    forall q: Poly | MaskExplains(q, value, b, ids, ss)
      ensures q == r
    {
      MaskFits(q, value, b, ids, ss, ms);
    }
  }

  lemma NonzeroRed(id: nat, b: nat)
    requires 1 <= id && id + b <= Q
    ensures Red(Prod(Slots(b), id)) != 0
  {
    VanishingNonzero(id, b);
    RedScalar(0);
  }

  lemma MaskFits(r: Poly, value: Scalar, b: nat, ids: seq<nat>, ss: seq<Scalar>, ms: seq<Scalar>)
    requires |r| == |ids| == |ss| == |ms|
    requires forall i :: 0 <= i < |ids| ==>
      Red(Prod(Slots(b), ids[i])) != 0 && ms[i] == MaskValue(value, b, ids[i], ss[i])
    ensures MaskExplains(r, value, b, ids, ss) <==> Fits(r, ids, ms)
  {
    hide MaskValue;
    hide Slots;
    hide Prod;
    hide Eval;
    hide Red;
    forall i | 0 <= i < |ids|
      ensures At(r, ids[i]) == ms[i] <==> Cong(PackedValue(value, b, r, ids[i]), ss[i])
    {
      MaskValueExplains(value, b, ids[i], ss[i], Eval(r, ids[i]));
    }
  }

  /** The slot points followed by the party points. */
  ghost function SlotsAndParties(b: nat, ids: seq<nat>): (xs: seq<int>)
    ensures |xs| == b + |ids|
  {
    Slots(b) + ids
  }

  lemma AllApart(b: nat, ids: seq<nat>)
    requires AwayFromSlots(ids, b) && b <= Q
    ensures DistinctMod(SlotsAndParties(b, ids))
  {
    var xs := SlotsAndParties(b, ids);
    forall i, j | 0 <= i < j < |xs|
      ensures !Cong(xs[i], xs[j])
    {
      if j < b {
        SlotsApart(i, j);
      } else if i < b {
        assert xs[j] == ids[j - b];
        SlotApart(ids[j - b], i, b);
      } else {
        assert xs[i] == ids[i - b] && xs[j] == ids[j - b];
      }
    }
  }

  lemma SlotsApart(i: nat, j: nat)
    requires i < j < Q
    ensures !Cong(0 - i, 0 - j)
  {
    RedScalar(j - i);
    RedScalar(0);
    if Cong(0 - i, 0 - j) {
      CongAdd(0 - i, 0 - j, j, j);
    }
  }

  /** Packed sharings: any t - 1 shares leave every vector of slot values possible, each with
      exactly one polynomial of the packed degree. */
  lemma PackedVectorSecrecy(t: nat, b: nat, ids: seq<nat>, ss: seq<Scalar>, slots: seq<Scalar>) returns (p: Poly)
    requires t >= 1 && 1 <= b <= Q && AwayFromSlots(ids, b) && |ids| == |ss| == t - 1 && |slots| == b
    ensures |p| == t + b - 1 && Fits(p, ids, ss) && Fits(p, Slots(b), slots)
    ensures forall q: Poly :: |q| == t + b - 1 && Fits(q, ids, ss) && Fits(q, Slots(b), slots) ==> q == p
  {
    hide At;
    hide Slots;
    var xs, vs := SlotsAndParties(b, ids), slots + ss;
    AllApart(b, ids);
    ExactlyOneFit(xs, vs);
    p := Through(xs, vs, |xs|);
    FitsBoth(p, Slots(b), slots, ids, ss);
    forall q: Poly | |q| == t + b - 1 && Fits(q, ids, ss) && Fits(q, Slots(b), slots)
      ensures q == p
    {
      FitsBoth(q, Slots(b), slots, ids, ss);
    }
  }

  lemma FitsBoth(p: Poly, xs: seq<int>, us: seq<Scalar>, ys: seq<int>, ss: seq<Scalar>)
    requires |us| == |xs| && |ss| == |ys|
    ensures Fits(p, xs + ys, us + ss) <==> Fits(p, xs, us) && Fits(p, ys, ss)
  {
    hide At;
    var zs, vs := xs + ys, us + ss;
    if Fits(p, zs, vs) {
      forall i | 0 <= i < |xs| ensures At(p, xs[i]) == us[i] { assert zs[i] == xs[i] && vs[i] == us[i]; }
      forall i | 0 <= i < |ys| ensures At(p, ys[i]) == ss[i] { assert zs[|xs| + i] == ys[i] && vs[|xs| + i] == ss[i]; }
    }
    if Fits(p, xs, us) && Fits(p, ys, ss) {
      forall i | 0 <= i < |zs|
        ensures At(p, zs[i]) == vs[i]
      {
        if i < |xs| {
          assert zs[i] == xs[i] && vs[i] == us[i];
        } else {
          assert zs[i] == ys[i - |xs|] && vs[i] == ss[i - |xs|];
        }
      }
    }
  }
}
