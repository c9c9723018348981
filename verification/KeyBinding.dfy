/** Binding a presignature to a key other than at generation time: additive tweaks
    (src/protocol/presign.rs) and multiplicative re-randomisation (src/protocol/sign.rs). */
module KeyBinding {
  import opened Field
  import opened Polynomials
  import opened Vss
  import opened Outcomes
  import opened Opening
  import opened Sign
  import Ecdsa

  // ---------------------------------------------------------------- tweaks

  /** The record for key x + tau. */
  function Tweaked(p: Presignature, tau: Scalar): Presignature {
    p.(zShare := Plus(p.zShare, Times(tau, p.uShare)), zCom := Add(p.zCom, Scale(p.uCom, tau)))
  }

  function TweakedAll(p: Presignature, taus: seq<Scalar>): Presignature {
    if taus == [] then p else Tweaked(TweakedAll(p, taus[..|taus| - 1]), taus[|taus| - 1])
  }

  /** The child key after tweaks. */
  function Child(x: Scalar, taus: seq<Scalar>): Scalar {
    if taus == [] then x else Plus(Child(x, taus[..|taus| - 1]), taus[|taus| - 1])
  }

  ghost function Total(taus: seq<Scalar>): int {
    if taus == [] then 0 else taus[0] + Total(taus[1..])
  }

  lemma {:induction false} TotalAppend(taus: seq<Scalar>, tau: Scalar)
    ensures Total(taus + [tau]) == Total(taus) + tau
    decreases |taus|
  {
    if taus == [] {
      assert taus + [tau] == [tau];
    } else {
      assert (taus + [tau])[1..] == taus[1..] + [tau];
      TotalAppend(taus[1..], tau);
    }
  }

  /** The child key is the key plus the sum of the tweaks, whatever their order. */
  lemma {:induction false} ChildIs(x: Scalar, taus: seq<Scalar>)
    ensures Child(x, taus) == Plus(x, Total(taus))
    decreases |taus|
  {
    if taus == [] {
      RedScalar(x);
    } else {
      var n := |taus| - 1;
      ChildIs(x, taus[..n]);
      TotalAppend(taus[..n], taus[n]);
      assert taus[..n] + [taus[n]] == taus;
      CongAdd(Child(x, taus[..n]), x + Total(taus[..n]), taus[n], taus[n]);
    }
  }

  /** The holder's mutable record. */
  class Holder {
    var record: Presignature

    constructor (p: Presignature)
      ensures record == p
    {
      record := p;
    }

    /** `apply_tweak`: rebinds this record in place. */
    method ApplyTweak(tau: Scalar)
      modifies this
      ensures record == Tweaked(old(record), tau)
    {
      record := record.(zShare := Plus(record.zShare, Times(tau, record.uShare)));
      record := record.(zCom := Add(record.zCom, Scale(record.uCom, tau)));
    }

    /** Successive calls. */
    method ApplyTweaks(taus: seq<Scalar>)
      modifies this
      ensures record == TweakedAll(old(record), taus)
    {
      for i := 0 to |taus|
        invariant record == TweakedAll(old(record), taus[..i])
      {
        assert taus[..i + 1][..i] == taus[..i];
        ApplyTweak(taus[i]);
      }
      assert taus[..|taus|] == taus;
    }
  }

  lemma TweakKeeps(p: Presignature, tau: Scalar, e: int, x: Scalar)
    ensures RecordOk(p) ==> RecordOk(Tweaked(p, tau))
    ensures Bound(p, e, x) ==> Bound(Tweaked(p, tau), e, Plus(x, tau))
    ensures |p.uCom| == |p.zCom| ==> |Tweaked(p, tau).zCom| == |p.uCom|
  {
    hide Red;
    hide Eval;
    hide Add;
    hide Scale;
    TweakedAt(p, tau, p.index);
    TweakedAt(p, tau, e);
    if Bound(p, e, x) {
      TweakAlgebra(At(p.uCom, e), x, tau);
    }
  }

  lemma TweakedAt(p: Presignature, tau: Scalar, y: int)
    ensures At(Tweaked(p, tau).zCom, y) == Plus(At(p.zCom, y), Times(tau, At(p.uCom, y)))
  {
    hide Red;
    hide Eval;
    hide Add;
    hide Scale;
    HomomorphicShares(p.uCom, [], tau, y);
    HomomorphicShares(p.zCom, Scale(p.uCom, tau), 0, y);
  }

  lemma TweakAlgebra(u: Scalar, x: Scalar, tau: Scalar)
    ensures Plus(Times(u, x), Times(tau, u)) == Times(u, Plus(x, tau))
  {
    CongAdd(Times(u, x), Mul(u, x), Times(tau, u), Mul(u, tau));
    Distribute(u, x, tau);
    CongScale(u, Plus(x, tau), x + tau);
  }

  /** After any tweaks the record is good, bound to the child key, with the same nonce. */
  lemma {:induction false} TweaksKeep(p: Presignature, taus: seq<Scalar>, e: int, x: Scalar)
    ensures RecordOk(p) ==> RecordOk(TweakedAll(p, taus))
    ensures Bound(p, e, x) ==> Bound(TweakedAll(p, taus), e, Child(x, taus))
    ensures |p.uCom| == |p.zCom| ==> |TweakedAll(p, taus).zCom| == |p.uCom|
    ensures var q := TweakedAll(p, taus); q.uCom == p.uCom && q.r == p.r && q.bigR == p.bigR && q.index == p.index
    decreases |taus|
  {
    hide RecordOk;
    hide Bound;
    if taus != [] {
      var n := |taus| - 1;
      TweaksKeep(p, taus[..n], e, x);
      TweakKeeps(TweakedAll(p, taus[..n]), taus[n], e, Child(x, taus[..n]));
    }
  }

  /** All holders tweak. */
  ghost function TweakedSet(ps: seq<Presignature>, taus: seq<Scalar>): (r: seq<Presignature>)
    ensures |r| == |ps| && forall k :: 0 <= k < |r| ==> r[k] == TweakedAll(ps[k], taus)
  {
    seq(|ps|, k requires 0 <= k < |ps| => TweakedAll(ps[k], taus))
  }

  lemma {:induction false} SameMetaTweaked(p: Presignature, q: Presignature, taus: seq<Scalar>)
    requires SameMeta(p, q)
    ensures SameMeta(TweakedAll(p, taus), TweakedAll(q, taus))
    decreases |taus|
  {
    if taus != [] {
      SameMetaTweaked(p, q, taus[..|taus| - 1]);
    }
  }

  /** A set of records stays one under tweaks, so signing with it meets all of RunSign's needs;
      the signature verifies under the child key. */
  lemma TweakedSetSigns(ps: seq<Presignature>, taus: seq<Scalar>, e: int, x: Scalar)
    requires RecordSet(ps) && |ps[0].uCom| == |ps[0].zCom| && Bound(ps[0], e, x)
    ensures var qs := TweakedSet(ps, taus);
      RecordSet(qs) && |qs[0].uCom| == |qs[0].zCom| == |ps[0].uCom| && Bound(qs[0], e, Child(x, taus))
  {
    hide RecordOk;
    hide Bound;
    hide Red;
    hide TweakedAll;
    var qs := TweakedSet(ps, taus);
    TweaksKeep(ps[0], taus, e, x);
    forall k | 0 <= k < |qs|
      ensures SameMeta(qs[k], qs[0]) && RecordOk(qs[k]) && qs[k].index == ps[k].index
    {
      TweaksKeep(ps[k], taus, e, x);
      SameMetaTweaked(ps[k], ps[0], taus);
    }
  }

  // ---------------------------------------------------------------- re-randomisation

  datatype MaybeTweak = NoTweak | Tweak(tau: Scalar)

  function MaybeTweaked(p: Presignature, w: MaybeTweak): Presignature {
    match w case NoTweak => p case Tweak(tau) => Tweaked(p, tau)
  }

  function MaybeChild(x: Scalar, w: MaybeTweak): Scalar {
    match w case NoTweak => x case Tweak(tau) => Plus(x, tau)
  }

  /** The record with nonce gamma * k. */
  function WithNonce(p: Presignature, gamma: Scalar): Presignature
    requires gamma != 0
  {
    var i, big := Inv(gamma), Times(p.bigR, gamma);
    p.(r := Ecdsa.F(big), bigR := big, uShare := Times(i, p.uShare), zShare := Times(i, p.zShare),
       uCom := Scale(p.uCom, i), zCom := Scale(p.zCom, i))
  }

  /** `sign_share_rerand`. */
  function SignShareRerand(p: Presignature, m: Scalar, gamma: Scalar, w: MaybeTweak): Share
    requires gamma != 0
  {
    var i, r := Inv(gamma), Ecdsa.F(Times(p.bigR, gamma));
    var u := Times(i, p.uShare);
    var z := match w
      case Tweak(tau) => Times(i, Plus(p.zShare, Times(tau, p.uShare)))
      case NoTweak => Times(i, p.zShare);
    Share(p.index, Plus(Times(m, u), Times(r, z)))
  }

  /** `combine_rerand`. */
  method CombineRerand(t: nat, meta: Presignature, m: Scalar, gamma: Scalar, w: MaybeTweak, shares: seq<Share>)
    returns (res: Outcome<(Scalar, Scalar)>)
    requires gamma != 0 && |meta.uCom| == |meta.zCom| <= t
    requires var q := WithNonce(MaybeTweaked(meta, w), gamma); Combinable(t, SignCom(q.uCom, q.zCom, m, q.r), shares)
    ensures var q := WithNonce(MaybeTweaked(meta, w), gamma);
      var com := SignCom(q.uCom, q.zCom, m, q.r);
      res == if Blamed(com, shares) != [] then Abort(Blamed(com, shares))
             else if |shares| < t then NotEnoughShares(|shares|, t)
             else Ok((q.r, At(com, 0)))
  {
    hide SignCom;
    hide Eval;
    hide Red;
    hide Inv;
    var i, r := Inv(gamma), Ecdsa.F(Times(meta.bigR, gamma));
    var u := Scale(meta.uCom, i);
    var z := match w
      case Tweak(tau) => Scale(Add(meta.zCom, Scale(meta.uCom, tau)), i)
      case NoTweak => Scale(meta.zCom, i);
    res := CombineVerified(t, 0, r, SignCom(u, z, m, r), shares);
  }

  /** Re-randomised signing is ordinary signing with the tweaked record and nonce gamma * k. */
  lemma RerandIsTweakThenScale(p: Presignature, m: Scalar, gamma: Scalar, w: MaybeTweak)
    requires gamma != 0
    ensures SignShareRerand(p, m, gamma, w) == SignShare(WithNonce(MaybeTweaked(p, w), gamma), m)
  {
  }

  /** That record is good and bound to the child key, so its signatures verify under it. */
  lemma RerandBinds(p: Presignature, gamma: Scalar, w: MaybeTweak, e: int, x: Scalar)
    requires gamma != 0
    ensures var q := WithNonce(MaybeTweaked(p, w), gamma);
      && (RecordOk(p) ==> RecordOk(q))
      && (Bound(p, e, x) ==> Bound(q, e, MaybeChild(x, w)))
      && MaybeChild(x, w) == (if w.Tweak? then Plus(x, w.tau) else x)
      && (|p.uCom| == |p.zCom| ==> |q.uCom| == |q.zCom| == |p.uCom|)
  {
    hide RecordOk;
    hide Bound;
    var p' := MaybeTweaked(p, w);
    if w.Tweak? {
      TweakKeeps(p, w.tau, e, x);
    }
    NonceKeeps(p', gamma, e, MaybeChild(x, w));
  }

  lemma NonceKeeps(p: Presignature, gamma: Scalar, e: int, x: Scalar)
    requires gamma != 0
    ensures RecordOk(p) ==> RecordOk(WithNonce(p, gamma))
    ensures Bound(p, e, x) ==> Bound(WithNonce(p, gamma), e, x)
  {
    hide Red;
    hide Eval;
    hide Scale;
    hide Inv;
    var i := Inv(gamma);
    HomomorphicShares(p.uCom, [], i, p.index);
    HomomorphicShares(p.zCom, [], i, p.index);
    HomomorphicShares(p.uCom, [], i, e);
    HomomorphicShares(p.zCom, [], i, e);
    if Bound(p, e, x) {
      NonceAlgebra(At(p.uCom, e), p.bigR, gamma, x);
    }
  }

  lemma NonceAlgebra(u: Scalar, k: Scalar, gamma: Scalar, x: Scalar)
    requires gamma != 0 && Times(k, u) == Red(1) && u != 0
    ensures var i := Inv(gamma);
      && Times(i, u) != 0
      && Times(Times(k, gamma), Times(i, u)) == Red(1)
      && Times(i, Times(u, x)) == Times(Times(i, u), x)
  {
    hide Red;
    hide Inv;
    var i := Inv(gamma);
    InvIs(gamma);
    // (k * gamma) * (i * u) == (gamma * i) * (k * u)
    TimesCong(k, gamma);
    TimesCong(i, u);
    TimesCong(Times(k, gamma), Times(i, u));
    CongMul(Times(k, gamma), Mul(k, gamma), Times(i, u), Mul(i, u));
    FourFactors(k, gamma, i, u);
    TimesCong(k, u);
    OneCong(Times(k, u));
    CongMul(Mul(gamma, i), 1, Mul(k, u), 1);
    TimesIs(Times(k, gamma), Times(i, u), 1);
    FactorNonzero(Times(k, gamma), Times(i, u));
    // i * (u * x) == (i * u) * x
    TimesCong(u, x);
    CongScale(i, Times(u, x), Mul(u, x));
    CongScale(x, Times(i, u), Mul(i, u));
    Regroup(i, u, x);
    SameTimes(i, Times(u, x), Times(i, u), x);
  }

  lemma FourFactors(k: int, g: int, i: int, u: int)
    ensures Mul(Mul(k, g), Mul(i, u)) == Mul(Mul(g, i), Mul(k, u))
  {
    Regroup(k, g, Mul(i, u));
    Regroup(g, i, u);
    Regroup(k, Mul(g, i), u);
  }

  lemma SameTimes(a: int, b: int, c: int, d: int)
    requires Cong(Mul(a, b), Mul(c, d))
    ensures Times(a, b) == Times(c, d)
  {
  }

  lemma FactorNonzero(a: Scalar, b: Scalar)
    requires Times(a, b) == Red(1)
    ensures b != 0
  {
  }
}
