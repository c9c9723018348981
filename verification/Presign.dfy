/** Presigning (src/protocol/presign.rs): plain and key-independent.  After dealing, every
    broadcast may be replaced by the adversary; what a run yields is stated in terms of the
    committed sharings alone. */
module Presign {
  import opened Field
  import opened Polynomials
  import opened Shamir
  import opened Vss
  import opened Outcomes
  import opened Committees
  import opened Dkg
  import opened Triples
  import opened Beaver
  import opened Broadcasts
  import opened Sign
  import opened Keys
  import KiSigning
  import Ecdsa

  /** Replaced values, per broadcast round. */
  datatype PresignFaults = PresignFaults(delta: Faults, eps: Faults, v: Faults, nonce: Faults, d2: Faults, e2: Faults)

  // ---------------------------------------------------------------- the fault-free run

  /** The committed polynomials of one run, opened at e (0, or a slot point), and the commitments
      of everything broadcast in it. */
  datatype Context = Context(e: int, uCom: Poly, aCom: Poly, xCom: Poly, pub1: TriplePublic, pub2: TriplePublic) {
    ghost predicate Sized(len: nat) {
      && len > 0 && |uCom| == |aCom| == len && |xCom| <= len
      && |pub1.ca| == |pub1.cb| == |pub1.cc| == len && |pub2.ca| == |pub2.cb| == |pub2.cc| == len
    }

    ghost predicate Multiplies() {
      Multiplicative(pub1, e) && Multiplicative(pub2, e)
    }

    ghost function DeltaCom(): Poly { MaskCom(uCom, pub1.ca) }

    ghost function EpsCom(): Poly { MaskCom(aCom, pub1.cb) }

    ghost function VCom(): Poly
      requires pub1.cc != []
    {
      ProductCom(pub1, At(DeltaCom(), e), At(EpsCom(), e))
    }

    ghost function V(): Scalar
      requires pub1.cc != []
    {
      At(VCom(), e)
    }

    /** Commitment to k = a / v. */
    ghost function KCom(): Poly
      requires pub1.cc != [] && V() != 0
    {
      Scale(aCom, Inv(V()))
    }

    ghost function D2Com(): Poly { MaskCom(uCom, pub2.ca) }

    ghost function E2Com(): Poly { MaskCom(xCom, pub2.cb) }

    ghost function ZCom(): Poly
      requires pub2.cc != []
    {
      ProductCom(pub2, At(D2Com(), e), At(E2Com(), e))
    }
  }

  ghost function ContextOf(e: int, u: Sharing, a: Sharing, xCom: Poly, t1: Triple, t2: Triple): Context {
    Context(e, u.com, a.com, xCom, t1.pub, t2.pub)
  }

  /** The outcome when nobody cheats, as a function of what was dealt. */
  ghost function Ideal(id: nat, ids: seq<nat>, x: Context, u: Sharing, t2: Triple): Outcome<seq<Presignature>>
    requires x.pub1.cc != [] && x.pub2.cc != [] && |u.shares| == |t2.shares| == |ids|
  {
    if x.V() == 0 then ZeroValue
    else
      var big := At(x.KCom(), x.e);
      if Ecdsa.F(big) == 0 then ZeroValue
      else Ok(RecordsOf(id, ids, Ecdsa.F(big), big, u, t2, At(x.D2Com(), x.e), At(x.E2Com(), x.e), x.ZCom()))
  }

  function RecordsOf(id: nat, ids: seq<nat>, r: Scalar, big: Scalar, u: Sharing, t2: Triple, d2: Scalar, e2: Scalar,
                     zCom: Poly)
    : (rs: seq<Presignature>)
    requires |u.shares| == |t2.shares| == |ids|
    ensures |rs| == |ids|
    ensures forall k :: 0 <= k < |ids| ==>
      rs[k] == Presignature(id, ids[k], r, big, u.shares[k], ProductShare(t2.shares[k], d2, e2), u.com, zCom)
  {
    seq(|ids|, k requires 0 <= k < |ids| =>
      Presignature(id, ids[k], r, big, u.shares[k], ProductShare(t2.shares[k], d2, e2), u.com, zCom))
  }

  /** v = u * a. */
  lemma VIs(x: Context)
    requires x.pub1.cc != [] && x.Multiplies()
    ensures x.V() == Times(At(x.uCom, x.e), At(x.aCom, x.e))
  {
    hide MaskCom;
    hide ProductCom;
    hide Red;
    hide Eval;
    ProductValue(x.pub1, x.uCom, x.aCom, x.e);
  }

  /** z = u * key. */
  lemma ZIs(x: Context)
    requires x.pub2.cc != [] && x.Multiplies()
    ensures At(x.ZCom(), x.e) == Times(At(x.uCom, x.e), At(x.xCom, x.e))
  {
    hide MaskCom;
    hide ProductCom;
    hide Red;
    hide Eval;
    ProductValue(x.pub2, x.uCom, x.xCom, x.e);
  }

  /** The nonce is the inverse of u. */
  lemma NonceIs(x: Context)
    requires x.pub1.cc != [] && x.Multiplies() && x.V() != 0
    ensures At(x.uCom, x.e) != 0 && Times(At(x.KCom(), x.e), At(x.uCom, x.e)) == Red(1)
  {
    hide Eval;
    hide Scale;
    hide Inv;
    hide ProductCom;
    hide MaskCom;
    VIs(x);
    HomomorphicShares(x.aCom, [], Inv(x.V()), x.e);
    InverseNonce(At(x.uCom, x.e), At(x.aCom, x.e));
  }

  lemma InverseNonce(u: Scalar, a: Scalar)
    requires Times(u, a) != 0
    ensures u != 0 && Times(Times(Inv(Times(u, a)), a), u) == Red(1)
  {
    hide Inv;
    var i := Inv(Times(u, a));
    InvIs(Times(u, a));
    // (i * a) * u == i * (u * a) == 1
    CongScale(u, Times(i, a), Mul(i, a));
    Regroup(i, a, u);
    CongScale(i, Times(u, a), Mul(u, a));
  }

  /** The dealt u and a leave no usable nonce: u * a is zero, or the point 1/u has x-coordinate 0. */
  ghost predicate ZeroNonce(u: Scalar, a: Scalar) {
    Times(u, a) == 0 || u == 0 || Ecdsa.F(Inv(u)) == 0
  }

  /** The nonce is exactly the inverse of u, and v is zero exactly when u * a is. */
  lemma NonceExactly(x: Context)
    requires x.pub1.cc != [] && x.Multiplies()
    ensures x.V() == 0 <==> Times(At(x.uCom, x.e), At(x.aCom, x.e)) == 0
    ensures x.V() != 0 ==> At(x.uCom, x.e) != 0 && At(x.KCom(), x.e) == Inv(At(x.uCom, x.e))
  {
    hide MaskCom;
    hide ProductCom;
    hide Eval;
    hide Scale;
    hide Inv;
    VIs(x);
    if x.V() != 0 {
      NonceIs(x);
      InverseUnique(At(x.KCom(), x.e), At(x.uCom, x.e));
    }
  }

  lemma InverseUnique(k: Scalar, u: Scalar)
    requires u != 0 && Times(k, u) == Red(1)
    ensures k == Inv(u)
  {
    hide Inv;
    var i := Inv(u);
    InvIs(u);
    // k == k * (u * i) == (k * u) * i == i
    CongScale(k, Mul(u, i), 1);
    Regroup(k, u, i);
    TimesCong(k, u);
    OneCong(Times(k, u));
    CongScale(i, Mul(k, u), 1);
    RedScalar(k);
    RedScalar(i);
  }

  /** Records of one presignature id, one per member in order, with the given nonce point. */
  ghost predicate Numbered(ps: seq<Presignature>, id: nat, ids: seq<nat>, big: Scalar) {
    && |ps| == |ids|
    && forall k :: 0 <= k < |ps| ==>
      ps[k].id == id && ps[k].index == ids[k] && ps[k].bigR == big && ps[k].r == Ecdsa.F(big)
  }

  /** What a fault-free run returns, in terms of the values of u and a. */
  lemma IdealExactly(id: nat, ids: seq<nat>, x: Context, u: Sharing, t2: Triple)
    requires x.pub1.cc != [] && x.pub2.cc != [] && x.Multiplies() && |u.shares| == |t2.shares| == |ids|
    ensures var uv, av, r := At(x.uCom, x.e), At(x.aCom, x.e), Ideal(id, ids, x, u, t2);
      && (r.ZeroValue? <==> ZeroNonce(uv, av)) && (r.Ok? <==> !ZeroNonce(uv, av))
      && (r.Ok? ==> uv != 0 && Numbered(r.value, id, ids, Inv(uv)))
  {
    hide MaskCom;
    hide ProductCom;
    hide ProductShare;
    hide Red;
    hide Eval;
    hide Scale;
    hide Inv;
    NonceExactly(x);
    NoneOfZero(At(x.aCom, x.e));
  }

  lemma NoneOfZero(a: Scalar)
    ensures Times(0, a) == 0
  {
    MulIs(0, a);
    RedScalar(0);
  }

  /** A fault-free run that returns records returns a presignature of the key: all records agree
      and verify, u is the inverse of the nonce, and z = u * x. */
  lemma IdealIsPresignature(id: nat, ids: seq<nat>, x: Context, u: Sharing, t2: Triple, len: nat)
    requires x.Sized(len) && x.Multiplies() && ids != [] && DistinctMod(ids)
    requires u.com == x.uCom && t2.pub == x.pub2 && Shared(ids, u, len) && WellShared(ids, t2, len)
    requires Ideal(id, ids, x, u, t2).Ok?
    ensures var ps := Ideal(id, ids, x, u, t2).value;
      RecordSet(ps) && |ps[0].uCom| == |ps[0].zCom| == len && Bound(ps[0], x.e, At(x.xCom, x.e)) && ps[0].r != 0
  {
    hide MaskCom;
    hide ProductCom;
    hide ProductShare;
    hide VerifyShare;
    hide Scale;
    hide Red;
    hide Eval;
    var ps := Ideal(id, ids, x, u, t2).value;
    ZIs(x);
    NonceIs(x);
    forall k | 0 <= k < |ps|
      ensures RecordOk(ps[k])
    {
      assert ValidRecord(t2.pub, t2.shares[k]) && t2.shares[k].index == ids[k];
      ProductShareVerifies(t2.pub, t2.shares[k], At(x.D2Com(), x.e), At(x.E2Com(), x.e));
    }
    forall i, j | 0 <= i < j < |ps| ensures !Cong(ps[i].index, ps[j].index) { assert ps[i].index == ids[i]; }
  }

  // ---------------------------------------------------------------- cheating

  /** Party j broadcast a value off its committed polynomial before the key entered. */
  ghost predicate CheatsEarly(x: Context, f: PresignFaults, j: nat)
    requires x.pub1.cc != []
  {
    || Cheats(x.DeltaCom(), f.delta, j)
    || Cheats(x.EpsCom(), f.eps, j)
    || Cheats(x.VCom(), f.v, j)
    || (x.V() != 0 && Cheats(x.KCom(), f.nonce, j))
  }

  /** Party j broadcast a value off its committed polynomial in some round. */
  ghost predicate CheatsIn(x: Context, f: PresignFaults, j: nat)
    requires x.pub1.cc != [] && x.pub2.cc != []
  {
    || CheatsEarly(x, f, j)
    || Cheats(x.D2Com(), f.d2, j)
    || Cheats(x.E2Com(), f.e2, j)
  }

  /** One side of a triple, as a committed sharing. */
  function ASide(t: Triple): Sharing {
    Sharing(t.pub.ca, seq(|t.shares|, k requires 0 <= k < |t.shares| => t.shares[k].a))
  }

  function BSide(t: Triple): Sharing {
    Sharing(t.pub.cb, seq(|t.shares|, k requires 0 <= k < |t.shares| => t.shares[k].b))
  }

  lemma SidesShared(ids: seq<nat>, t: Triple, len: nat)
    requires WellShared(ids, t, len)
    ensures Shared(ids, ASide(t), len) && Shared(ids, BSide(t), len)
  {
    hide VerifyShare;
    forall k | 0 <= k < |ids|
      ensures VerifyShare(t.pub.ca, ids[k], ASide(t).shares[k]) && VerifyShare(t.pub.cb, ids[k], BSide(t).shares[k])
    {
      assert ValidRecord(t.pub, t.shares[k]);
    }
  }

  function MaskShares(x: Sharing, a: Sharing): (r: seq<Scalar>)
    requires |x.shares| == |a.shares|
    ensures |r| == |x.shares| && forall k :: 0 <= k < |r| ==> r[k] == Minus(x.shares[k], a.shares[k])
  {
    seq(|x.shares|, k requires 0 <= k < |x.shares| => Minus(x.shares[k], a.shares[k]))
  }

  lemma MaskSharesHonest(ids: seq<nat>, x: Sharing, a: Sharing, lx: nat, la: nat)
    requires Shared(ids, x, lx) && Shared(ids, a, la)
    ensures HonestShares(MaskCom(x.com, a.com), ids, MaskShares(x, a))
  {
    hide MaskCom;
    hide VerifyShare;
    forall k | 0 <= k < |ids|
      ensures VerifyShare(MaskCom(x.com, a.com), ids[k], MaskShares(x, a)[k])
    {
      MaskShare(x.com, a.com, ids[k], x.shares[k], a.shares[k]);
    }
  }

  function ProductShares(t: Triple, delta: Scalar, eps: Scalar): (r: seq<Scalar>)
    ensures |r| == |t.shares| && forall k :: 0 <= k < |r| ==> r[k] == ProductShare(t.shares[k], delta, eps)
  {
    seq(|t.shares|, k requires 0 <= k < |t.shares| => ProductShare(t.shares[k], delta, eps))
  }

  lemma ProductSharesHonest(ids: seq<nat>, t: Triple, delta: Scalar, eps: Scalar, len: nat)
    requires len > 0 && WellShared(ids, t, len)
    ensures HonestShares(ProductCom(t.pub, delta, eps), ids, ProductShares(t, delta, eps))
  {
    hide ProductCom;
    hide ProductShare;
    hide VerifyShare;
    forall k | 0 <= k < |ids|
      ensures VerifyShare(ProductCom(t.pub, delta, eps), ids[k], ProductShares(t, delta, eps)[k])
    {
      ProductShareVerifies(t.pub, t.shares[k], delta, eps);
    }
  }

  /** The nonce points the parties would broadcast: k_j = a_j / v. */
  function NonceShares(a: Sharing, vInv: Scalar): (r: seq<Scalar>)
    ensures |r| == |a.shares| && forall k :: 0 <= k < |r| ==> r[k] == Times(vInv, a.shares[k])
  {
    seq(|a.shares|, k requires 0 <= k < |a.shares| => Times(vInv, a.shares[k]))
  }

  lemma NonceSharesHonest(ids: seq<nat>, a: Sharing, vInv: Scalar, len: nat)
    requires Shared(ids, a, len)
    ensures HonestShares(Scale(a.com, vInv), ids, NonceShares(a, vInv))
  {
    hide Scale;
    hide Red;
    hide Eval;
    forall k | 0 <= k < |ids|
      ensures VerifyShare(Scale(a.com, vInv), ids[k], NonceShares(a, vInv)[k])
    {
      HomomorphicShares(a.com, [], vInv, ids[k]);
      assert VerifyShare(a.com, ids[k], a.shares[k]);
    }
  }

  // ---------------------------------------------------------------- plain rounds

  /** Everything a run starts from: committed sharings of one length, and triples that multiply
      where they will be opened. */
  ghost predicate Ingredients(ids: seq<nat>, len: nat, u: Sharing, a: Sharing, t1: Triple, t2: Triple) {
    && ids != [] && DistinctMod(ids) && 0 < len <= |ids|
    && Shared(ids, u, len) && Shared(ids, a, len) && WellShared(ids, t1, len) && WellShared(ids, t2, len)
  }

  /** P2: open u - alpha and a - beta, then v. */
  method OpenV(e: int, len: nat, ids: seq<nat>, u: Sharing, a: Sharing, t1: Triple, ghost x: Context, f: PresignFaults)
    returns (r: Outcome<Scalar>)
    requires ids != [] && DistinctMod(ids) && 0 < len <= |ids|
    requires Shared(ids, u, len) && Shared(ids, a, len) && WellShared(ids, t1, len)
    requires x.e == e && x.uCom == u.com && x.aCom == a.com && x.pub1 == t1.pub
    ensures r.Ok? || r.Abort?
    ensures r.Ok? ==> r.value == x.V()
    ensures r.Ok? <==> Cheaters(x.DeltaCom(), f.delta, ids) == [] && Cheaters(x.EpsCom(), f.eps, ids) == []
                       && Cheaters(x.VCom(), f.v, ids) == []
    ensures r.Abort? ==> r.blamed != [] && (r.blamed == Cheaters(x.DeltaCom(), f.delta, ids)
                         || r.blamed == Cheaters(x.EpsCom(), f.eps, ids) || r.blamed == Cheaters(x.VCom(), f.v, ids))
  {
    hide MaskCom;
    hide ProductCom;
    hide Cheaters;
    hide Red;
    hide Eval;
    hide HonestShares;
    hide VerifyShare;
    SidesShared(ids, t1, len);
    MaskSharesHonest(ids, u, ASide(t1), len, len);
    MaskSharesHonest(ids, a, BSide(t1), len, len);
    var delta := OpenRound(e, len, MaskCom(u.com, t1.pub.ca), ids, MaskShares(u, ASide(t1)), f.delta);
    if !delta.Ok? {
      return Abort(delta.blamed);
    }
    var eps := OpenRound(e, len, MaskCom(a.com, t1.pub.cb), ids, MaskShares(a, BSide(t1)), f.eps);
    if !eps.Ok? {
      return Abort(eps.blamed);
    }
    ProductSharesHonest(ids, t1, delta.value, eps.value, len);
    var vCom, vShares := ProductCom(t1.pub, delta.value, eps.value), ProductShares(t1, delta.value, eps.value);
    r := OpenRound(e, len, vCom, ids, vShares, f.v);
  }

  /** P3: check every nonce point, then interpolate them in the exponent. */
  method NonceRound(e: int, len: nat, ids: seq<nat>, kCom: Poly, honest: seq<Scalar>, fake: Faults)
    returns (bad: seq<nat>, bigR: Scalar)
    requires |kCom| == len <= |ids| && DistinctMod(ids) && HonestShares(kCom, ids, honest)
    ensures bad == [] <==> Cheaters(kCom, fake, ids) == []
    ensures bad == [] ==> bigR == At(kCom, e)
    ensures bad != [] ==> |bad| == 1 && bad[0] in ids && Cheats(kCom, fake, bad[0])
  {
    hide VerifyShare;
    hide Red;
    hide Eval;
    bad, bigR := [], 0;
    var points: seq<Scalar> := [];
    for k := 0 to |ids|
      invariant bad == [] && |points| == k
      invariant forall i :: 0 <= i < k ==> !Cheats(kCom, fake, ids[i]) && VerifyShare(kCom, ids[i], points[i])
    {
      var j := ids[k];
      var point := if j in fake then fake[j] else honest[k];
      var expected := EvalAtPoint(kCom, j);
      PointCheck(kCom, j, point, expected);
      if point != expected {
        CheatersExactly(kCom, fake, ids, j);
        return [j], 0;
      }
      points := points + [point];
    }
    NobodyCheats(kCom, fake, ids);
    forall i | 0 <= i < |ids| ensures Cong(points[i], Eval(kCom, ids[i])) { PointValue(kCom, ids[i], points[i]); }
    InterpolatedIs(kCom, e, ids, points);
    bigR := InterpolateAt(e, ids, points);
  }

  lemma PointCheck(com: Poly, j: int, point: Scalar, expected: Scalar)
    requires expected == At(com, j)
    ensures VerifyShare(com, j, point) <==> point == expected
  {
  }

  lemma PointValue(com: Poly, j: int, s: Scalar)
    requires VerifyShare(com, j, s)
    ensures Cong(s, Eval(com, j))
  {
  }

  lemma NobodyCheats(com: Poly, fake: Faults, ids: seq<nat>)
    requires forall i :: 0 <= i < |ids| ==> !Cheats(com, fake, ids[i])
    ensures Cheaters(com, fake, ids) == []
  {
    hide Cheats;
    hide Cheaters;
    if Cheaters(com, fake, ids) != [] {
      var j := Cheaters(com, fake, ids)[0];
      CheatersExactly(com, fake, ids, j);
    }
  }

  lemma SomebodyCheats(com: Poly, fake: Faults, ids: seq<nat>)
    requires Cheaters(com, fake, ids) != []
    ensures exists j :: j in ids && Cheats(com, fake, j)
    ensures forall j :: j in Cheaters(com, fake, ids) ==> j in ids && Cheats(com, fake, j)
  {
    hide Cheats;
    hide Cheaters;
    forall j | j in Cheaters(com, fake, ids)
      ensures j in ids && Cheats(com, fake, j)
    {
      CheatersExactly(com, fake, ids, j);
    }
    assert Cheaters(com, fake, ids)[0] in Cheaters(com, fake, ids);
  }

  /** Nobody in the list cheats in any round. */
  ghost predicate NoneCheats(x: Context, f: PresignFaults, ids: seq<nat>)
    requires x.pub1.cc != [] && x.pub2.cc != []
  {
    forall j :: j in ids ==> !CheatsIn(x, f, j)
  }

  /** A non-empty blame list that names cheaters only. */
  ghost predicate NamesCheaters(x: Context, f: PresignFaults, ids: seq<nat>, blamed: seq<nat>)
    requires x.pub1.cc != [] && x.pub2.cc != []
  {
    blamed != [] && forall j :: j in blamed ==> j in ids && CheatsIn(x, f, j)
  }

  /** The same for the rounds before the key enters. */
  ghost predicate NamesEarly(x: Context, f: PresignFaults, ids: seq<nat>, blamed: seq<nat>)
    requires x.pub1.cc != []
  {
    blamed != [] && forall j :: j in blamed ==> j in ids && CheatsEarly(x, f, j)
  }

  lemma EarlyNames(x: Context, f: PresignFaults, ids: seq<nat>, blamed: seq<nat>)
    requires x.pub1.cc != [] && x.pub2.cc != [] && NamesEarly(x, f, ids, blamed)
    ensures NamesCheaters(x, f, ids, blamed) && !NoneCheats(x, f, ids)
  {
    hide CheatsEarly;
    assert blamed[0] in blamed;
  }

  /** The first three rounds pass for these parties. */
  ghost predicate QuietSoFar(x: Context, f: PresignFaults, ids: seq<nat>)
    requires x.pub1.cc != []
  {
    && Cheaters(x.DeltaCom(), f.delta, ids) == [] && Cheaters(x.EpsCom(), f.eps, ids) == []
    && Cheaters(x.VCom(), f.v, ids) == [] && (x.V() != 0 ==> Cheaters(x.KCom(), f.nonce, ids) == [])
  }

  lemma QuietMeansNone(x: Context, f: PresignFaults, ids: seq<nat>)
    requires x.pub1.cc != [] && x.pub2.cc != []
    requires QuietSoFar(x, f, ids) && Cheaters(x.D2Com(), f.d2, ids) == [] && Cheaters(x.E2Com(), f.e2, ids) == []
    ensures NoneCheats(x, f, ids)
  {
    hide Cheats;
    hide Cheaters;
    hide MaskCom;
    hide ProductCom;
    hide Scale;
    hide Inv;
    hide At;
    forall j | j in ids
      ensures !CheatsIn(x, f, j)
    {
      CheatersExactly(x.DeltaCom(), f.delta, ids, j);
      CheatersExactly(x.EpsCom(), f.eps, ids, j);
      CheatersExactly(x.VCom(), f.v, ids, j);
      if x.V() != 0 {
        CheatersExactly(x.KCom(), f.nonce, ids, j);
      }
      CheatersExactly(x.D2Com(), f.d2, ids, j);
      CheatersExactly(x.E2Com(), f.e2, ids, j);
    }
  }

  lemma EarlyRoundNames(x: Context, f: PresignFaults, ids: seq<nat>, com: Poly, fake: Faults, blamed: seq<nat>)
    requires x.pub1.cc != [] && blamed != [] && blamed == Cheaters(com, fake, ids)
    requires (com == x.DeltaCom() && fake == f.delta) || (com == x.EpsCom() && fake == f.eps)
          || (com == x.VCom() && fake == f.v)
    ensures NamesEarly(x, f, ids, blamed)
  {
    hide Cheats;
    hide Cheaters;
    hide MaskCom;
    hide ProductCom;
    hide At;
    SomebodyCheats(com, fake, ids);
  }

  /** A round with a cheater justifies an abort naming its cheaters. */
  lemma RoundNames(x: Context, f: PresignFaults, ids: seq<nat>, com: Poly, fake: Faults, blamed: seq<nat>)
    requires x.pub1.cc != [] && x.pub2.cc != []
    requires blamed != [] && blamed == Cheaters(com, fake, ids)
    requires (com == x.DeltaCom() && fake == f.delta) || (com == x.EpsCom() && fake == f.eps)
          || (com == x.VCom() && fake == f.v)
          || (x.V() != 0 && com == x.KCom() && fake == f.nonce)
          || (com == x.D2Com() && fake == f.d2) || (com == x.E2Com() && fake == f.e2)
    ensures NamesCheaters(x, f, ids, blamed) && !NoneCheats(x, f, ids)
  {
    hide Cheats;
    hide Cheaters;
    hide MaskCom;
    hide ProductCom;
    hide Scale;
    hide Inv;
    hide At;
    SomebodyCheats(com, fake, ids);
  }

  /** P1 to P3: the nonce point R and r = F(R). */
  method NoncePhase(e: int, len: nat, ids: seq<nat>, u: Sharing, a: Sharing, t1: Triple, ghost x: Context,
                    f: PresignFaults)
    returns (r: Outcome<Scalar>)
    requires ids != [] && DistinctMod(ids) && 0 < len <= |ids|
    requires Shared(ids, u, len) && Shared(ids, a, len) && WellShared(ids, t1, len)
    requires x.e == e && x.uCom == u.com && x.aCom == a.com && x.pub1 == t1.pub
    ensures r.Ok? || r.Abort? || r.ZeroValue?
    ensures r.Ok? ==> x.V() != 0 && r.value == At(x.KCom(), e) && Ecdsa.F(r.value) != 0 && QuietSoFar(x, f, ids)
    ensures r.ZeroValue? ==> x.V() == 0 || Ecdsa.F(At(x.KCom(), e)) == 0
    ensures r.Abort? ==> NamesEarly(x, f, ids, r.blamed)
  {
    hide MaskCom;
    hide ProductCom;
    hide Cheaters;
    hide Cheats;
    hide NamesEarly;
    hide CheatsEarly;
    hide Red;
    hide Eval;
    hide Inv;
    hide HonestShares;
    var v := OpenV(e, len, ids, u, a, t1, x, f);
    if !v.Ok? {
      if v.blamed == Cheaters(x.DeltaCom(), f.delta, ids) {
        EarlyRoundNames(x, f, ids, x.DeltaCom(), f.delta, v.blamed);
      } else if v.blamed == Cheaters(x.EpsCom(), f.eps, ids) {
        EarlyRoundNames(x, f, ids, x.EpsCom(), f.eps, v.blamed);
      } else {
        EarlyRoundNames(x, f, ids, x.VCom(), f.v, v.blamed);
      }
      return Abort(v.blamed);
    }
    if v.value == 0 {
      return ZeroValue;
    }
    var vInv := Inv(v.value);
    NonceSharesHonest(ids, a, vInv, len);
    var bad, bigR := NonceRound(e, len, ids, Scale(a.com, vInv), NonceShares(a, vInv), f.nonce);
    if bad != [] {
      OneNonceCheater(x, f, ids, bad);
      return Abort(bad);
    }
    if Ecdsa.F(bigR) == 0 {
      return ZeroValue;
    }
    return Ok(bigR);
  }

  lemma OneNonceCheater(x: Context, f: PresignFaults, ids: seq<nat>, bad: seq<nat>)
    requires x.pub1.cc != [] && x.V() != 0
    requires |bad| == 1 && bad[0] in ids && Cheats(x.KCom(), f.nonce, bad[0])
    ensures NamesEarly(x, f, ids, bad)
  {
    hide Cheats;
    hide MaskCom;
    hide ProductCom;
    hide Scale;
    hide Inv;
    hide At;
  }

  /** P4: open the two masks of the key product. */
  method BindKey(e: int, len: nat, ids: seq<nat>, u: Sharing, key: Sharing, t2: Triple, ghost x: Context,
                 f: PresignFaults)
    returns (r: Outcome<(Scalar, Scalar)>)
    requires ids != [] && DistinctMod(ids) && 0 < len <= |ids|
    requires Shared(ids, u, len) && Shared(ids, key, len) && WellShared(ids, t2, len)
    requires x.e == e && x.uCom == u.com && x.xCom == key.com && x.pub2 == t2.pub && x.pub1.cc != []
    ensures r.Ok? || r.Abort?
    ensures r.Ok? ==> r.value == (At(x.D2Com(), e), At(x.E2Com(), e))
    ensures r.Ok? ==> Cheaters(x.D2Com(), f.d2, ids) == [] && Cheaters(x.E2Com(), f.e2, ids) == []
    ensures r.Abort? ==> NamesCheaters(x, f, ids, r.blamed) && !NoneCheats(x, f, ids)
  {
    hide MaskCom;
    hide ProductCom;
    hide Cheaters;
    hide NamesCheaters;
    hide NoneCheats;
    hide Red;
    hide Eval;
    hide HonestShares;
    hide VerifyShare;
    SidesShared(ids, t2, len);
    MaskSharesHonest(ids, u, ASide(t2), len, len);
    MaskSharesHonest(ids, key, BSide(t2), len, len);
    var d2 := OpenRound(e, len, MaskCom(u.com, t2.pub.ca), ids, MaskShares(u, ASide(t2)), f.d2);
    if !d2.Ok? {
      RoundNames(x, f, ids, x.D2Com(), f.d2, d2.blamed);
      return Abort(d2.blamed);
    }
    var e2 := OpenRound(e, len, MaskCom(key.com, t2.pub.cb), ids, MaskShares(key, BSide(t2)), f.e2);
    if !e2.Ok? {
      RoundNames(x, f, ids, x.E2Com(), f.e2, e2.blamed);
      return Abort(e2.blamed);
    }
    return Ok((d2.value, e2.value));
  }

  /** The key shares as a committed sharing. */
  function KeySide(keys: seq<KeyShare>): Sharing
    requires keys != []
  {
    Sharing(keys[0].com, seq(|keys|, k requires 0 <= k < |keys| => keys[k].share))
  }

  lemma KeySideShared(ids: seq<nat>, keys: seq<KeyShare>, len: nat)
    requires KeySet(keys, len) && Matches(ids, keys)
    ensures Shared(ids, KeySide(keys), len) && |keys[0].com| == len
  {
    hide VerifyShare;
  }

  /** `presign_with_committee`, after dealing. */
  method WithCommittee(c: Committee, keys: seq<KeyShare>, id: nat, u: Sharing, a: Sharing, t1: Triple, t2: Triple,
                       f: PresignFaults)
    returns (r: Outcome<seq<Presignature>>)
    requires c.Valid() && Ingredients(c.ids, c.t, u, a, t1, t2) && Multiplicative(t1.pub, 0)
      && Multiplicative(t2.pub, 0)
    requires Matches(c.ids, keys) ==> KeySet(keys, c.t)
    ensures r.Ok? || r.Abort? || r.ZeroValue? || r.InvalidParams?
    ensures r.InvalidParams? <==> !Matches(c.ids, keys)
    ensures !r.InvalidParams? ==>
      var x := ContextOf(0, u, a, keys[0].com, t1, t2);
      && (r.Abort? ==> NamesCheaters(x, f, c.ids, r.blamed))
      && (!r.Abort? ==> r == Ideal(id, c.ids, x, u, t2))
      && (NoneCheats(x, f, c.ids) ==> !r.Abort?)
      && (r.Ok? ==> NoneCheats(x, f, c.ids))
    ensures r.Ok? ==> RecordSet(r.value) && |r.value[0].uCom| == |r.value[0].zCom| == c.t
    ensures r.Ok? ==> Bound(r.value[0], 0, PublicKey(keys)) && r.value[0].r != 0
    ensures r.ZeroValue? ==> ZeroNonce(At(u.com, 0), At(a.com, 0))
    ensures r.Ok? ==>
      !ZeroNonce(At(u.com, 0), At(a.com, 0)) && At(u.com, 0) != 0 && Numbered(r.value, id, c.ids, Inv(At(u.com, 0)))
  {
    hide ZeroNonce;
    hide Numbered;
    hide MaskCom;
    hide ProductCom;
    hide ProductShare;
    hide Cheaters;
    hide NamesCheaters;
    hide NoneCheats;
    hide QuietSoFar;
    hide Multiplicative;
    hide VerifyShare;
    hide WellShared;
    hide KeySet;
    hide Shared;
    hide RecordSet;
    hide Bound;
    hide Red;
    hide Eval;
    hide Inv;
    var matches := CheckInputs(c.ids, keys);
    if !matches {
      return InvalidParams;
    }
    NonEmpty(c.ids, c.t, u, a, t1, t2);
    ghost var x := ContextOf(0, u, a, keys[0].com, t1, t2);
    IdealExactly(id, c.ids, x, u, t2);
    var nonce := NoncePhase(0, c.t, c.ids, u, a, t1, x, f);
    if !nonce.Ok? {
      if nonce.Abort? {
        EarlyNames(x, f, c.ids, nonce.blamed);
        return Abort(nonce.blamed);
      }
      return ZeroValue;
    }
    KeySideShared(c.ids, keys, c.t);
    var masks := BindKey(0, c.t, c.ids, u, KeySide(keys), t2, x, f);
    if !masks.Ok? {
      return Abort(masks.blamed);
    }
    QuietMeansNone(x, f, c.ids);
    var zCom := ProductCom(t2.pub, masks.value.0, masks.value.1);
    var records := RecordsOf(id, c.ids, Ecdsa.F(nonce.value), nonce.value, u, t2, masks.value.0, masks.value.1, zCom);
    IdealIsPresignature(id, c.ids, x, u, t2, c.t);
    return Ok(records);
  }

  lemma NonEmpty(ids: seq<nat>, len: nat, u: Sharing, a: Sharing, t1: Triple, t2: Triple)
    requires Ingredients(ids, len, u, a, t1, t2)
    ensures t1.pub.cc != [] && t2.pub.cc != [] && |u.shares| == |a.shares| == |t1.shares| == |t2.shares| == |ids|
    ensures forall xCom: Poly, e: int {:trigger ContextOf(e, u, a, xCom, t1, t2)} ::
      |xCom| <= len ==> ContextOf(e, u, a, xCom, t1, t2).Sized(len)
  {
    hide VerifyShare;
  }

  // ---------------------------------------------------------------- key-independent records

  /** `presign_ki_with_committee`: P1 to P3 only; no key enters. */
  method KeyIndependent(c: Committee, id: nat, u: Sharing, a: Sharing, t1: Triple, f: PresignFaults)
    returns (r: Outcome<seq<KiSigning.KiPresignature>>)
    requires c.Valid() && Ingredients(c.ids, c.t, u, a, t1, t1) && Multiplicative(t1.pub, 0)
    ensures r.Ok? || r.Abort? || r.ZeroValue?
    ensures var x := ContextOf(0, u, a, [], t1, t1);
      && t1.pub.cc != []
      && (r.Abort? ==> NamesEarly(x, f, c.ids, r.blamed))
      && (r.ZeroValue? ==> x.V() == 0 || Ecdsa.F(At(x.KCom(), 0)) == 0)
      && (r.Ok? ==> QuietSoFar(x, f, c.ids) && x.V() != 0 && r.value != [] && r.value[0].bigR == At(x.KCom(), 0))
    ensures r.Ok? ==> KiSigning.KiSet(r.value, c.t) && KiSigning.KiBound(r.value[0]) && r.value[0].r != 0
    ensures r.Ok? ==>
      |r.value| == |c.ids| && forall k :: 0 <= k < |c.ids| ==> r.value[k].index == c.ids[k] && r.value[k].id == id
    ensures r.ZeroValue? ==> ZeroNonce(At(u.com, 0), At(a.com, 0))
    ensures r.Ok? ==>
      !ZeroNonce(At(u.com, 0), At(a.com, 0)) && At(u.com, 0) != 0 && r.value[0].bigR == Inv(At(u.com, 0))
  {
    hide MaskCom;
    hide ProductCom;
    hide Cheaters;
    hide NamesEarly;
    hide QuietSoFar;
    hide Multiplicative;
    hide VerifyShare;
    hide WellShared;
    hide Shared;
    hide Red;
    hide Eval;
    hide Inv;
    hide KiSigning.KiSet;
    hide KiSigning.KiBound;
    NonEmpty(c.ids, c.t, u, a, t1, t1);
    ghost var x := ContextOf(0, u, a, [], t1, t1);
    NonceExactly(x);
    NoneOfZero(At(a.com, 0));
    var nonce := NoncePhase(0, c.t, c.ids, u, a, t1, x, f);
    if !nonce.Ok? {
      return if nonce.Abort? then Abort(nonce.blamed) else ZeroValue;
    }
    NonceIs(x);
    var records := seq(|c.ids|, k requires 0 <= k < |c.ids| =>
      KiSigning.KiPresignature(id, c.ids[k], Ecdsa.F(nonce.value), nonce.value, u.shares[k], u.com));
    KiRecords(c.ids, c.t, u, records);
    KiRecordBound(records[0], x);
    return Ok(records);
  }

  lemma KiRecords(ids: seq<nat>, len: nat, u: Sharing, rs: seq<KiSigning.KiPresignature>)
    requires ids != [] && DistinctMod(ids) && Shared(ids, u, len) && |rs| == |ids|
    requires forall k :: 0 <= k < |ids| ==> rs[k].index == ids[k] && rs[k].uShare == u.shares[k] && rs[k].uCom == u.com
    requires forall k :: 0 <= k < |ids| ==> rs[k].r == rs[0].r && rs[k].bigR == rs[0].bigR
    ensures KiSigning.KiSet(rs, len)
  {
    hide VerifyShare;
    hide Red;
    forall i, j | 0 <= i < j < |rs| ensures !Cong(rs[i].index, rs[j].index) { assert rs[i].index == ids[i]; }
  }

  lemma KiRecordBound(p: KiSigning.KiPresignature, x: Context)
    requires x.pub1.cc != [] && x.V() != 0 && x.e == 0
    requires At(x.uCom, 0) != 0 && Times(At(x.KCom(), 0), At(x.uCom, 0)) == Red(1)
    requires p.uCom == x.uCom && p.bigR == At(x.KCom(), 0) && p.r == Ecdsa.F(p.bigR)
    ensures KiSigning.KiBound(p)
  {
  }
}
