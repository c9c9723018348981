/** Online signing (src/protocol/sign.rs) over presignature records (src/protocol/presign.rs):
    verified combination, key tweaks, re-randomisation, and key-independent records. */
module Sign {
  import opened Field
  import opened Polynomials
  import opened Vss
  import opened Outcomes
  import opened Committees
  import opened IdLists
  import opened Opening
  import Ecdsa

  /** One party's single-use record: shares of u = 1/k and z = u * x, and their commitments. */
  datatype Presignature = Presignature(
    id: nat, index: nat, r: Scalar, bigR: Scalar, uShare: Scalar, zShare: Scalar, uCom: Poly, zCom: Poly)

  /** The record's shares are on its commitments. */
  ghost predicate RecordOk(p: Presignature) {
    VerifyShare(p.uCom, p.index, p.uShare) && VerifyShare(p.zCom, p.index, p.zShare)
  }

  /** The committed values at e are a presignature for key x: u = 1/R is nonzero, z = u * x. */
  ghost predicate Bound(p: Presignature, e: int, x: Scalar) {
    && At(p.uCom, e) != 0
    && Times(p.bigR, At(p.uCom, e)) == Red(1)
    && At(p.zCom, e) == Times(At(p.uCom, e), x)
    && p.r == Ecdsa.F(p.bigR)
  }

  /** Same public part. */
  ghost predicate SameMeta(p: Presignature, q: Presignature) {
    p.r == q.r && p.bigR == q.bigR && p.uCom == q.uCom && p.zCom == q.zCom
  }

  // ---------------------------------------------------------------- shares and their commitment

  function SignShare(p: Presignature, m: Scalar): Share {
    Share(p.index, Plus(Times(m, p.uShare), Times(p.r, p.zShare)))
  }

  /** m * A[u] + r * A[z]. */
  function SignCom(uCom: Poly, zCom: Poly, m: Scalar, r: Scalar): (c: Poly)
    ensures |uCom| == |zCom| ==> |c| == |uCom|
  {
    Add(Scale(uCom, m), Scale(zCom, r))
  }

  lemma SignComAt(uCom: Poly, zCom: Poly, m: Scalar, r: Scalar, y: int)
    ensures At(SignCom(uCom, zCom, m, r), y) == Plus(Times(m, At(uCom, y)), Times(r, At(zCom, y)))
  {
    hide Red;
    hide Eval;
    hide Add;
    hide Scale;
    HomomorphicShares(uCom, [], m, y);
    HomomorphicShares(zCom, [], r, y);
    HomomorphicShares(Scale(uCom, m), Scale(zCom, r), 0, y);
  }

  /** An honest signature share always verifies. */
  lemma SignShareVerifies(p: Presignature, m: Scalar)
    requires RecordOk(p)
    ensures Valid(SignCom(p.uCom, p.zCom, m, p.r), SignShare(p, m))
  {
    hide SignCom;
    SignComAt(p.uCom, p.zCom, m, p.r, p.index);
  }

  /** The committed signature value u * (m + r * x), tied to the nonce. */
  lemma SignatureValue(p: Presignature, e: int, x: Scalar, m: Scalar)
    requires Bound(p, e, x)
    ensures var s := At(SignCom(p.uCom, p.zCom, m, p.r), e);
            s == Times(At(p.uCom, e), Plus(m, Times(p.r, x))) && Cong(Mul(s, p.bigR), m + Mul(p.r, x))
  {
    hide SignCom;
    hide Red;
    hide Eval;
    SignComAt(p.uCom, p.zCom, m, p.r, e);
    SignatureAlgebra(At(p.uCom, e), At(p.zCom, e), p.bigR, p.r, x, m);
  }

  lemma SignatureAlgebra(u: Scalar, z: Scalar, k: Scalar, r: Scalar, x: Scalar, m: Scalar)
    requires Times(k, u) == Red(1) && z == Times(u, x)
    ensures var s := Plus(Times(m, u), Times(r, z));
            s == Times(u, Plus(m, Times(r, x))) && Cong(Mul(s, k), m + Mul(r, x))
  {
    hide Red;
    var s, v := Plus(Times(m, u), Times(r, z)), m + Mul(r, x);
    // s == m * u + r * (u * x) == u * (m + r * x)
    TimesCong(m, u);
    TimesCong(r, z);
    TimesCong(u, x);
    RedScalar(z);
    CongScale(r, z, Mul(u, x));
    Regroup(r, u, x);
    Regroup(u, r, x);
    CongAdd(Times(m, u), Mul(m, u), Times(r, z), Mul(u, Mul(r, x)));
    Distribute(u, m, Mul(r, x));
    PlusIs(Times(m, u), Times(r, z), Mul(u, v));
    TimesCong(r, x);
    CongAdd(m, m, Times(r, x), Mul(r, x));
    PlusIs(m, Times(r, x), v);
    CongScale(u, Plus(m, Times(r, x)), v);
    TimesCong(u, Plus(m, Times(r, x)));
    SameResidue(s, Times(u, Plus(m, Times(r, x))));
    // s * k == (k * u) * v == v
    CongScale(k, s, Mul(u, v));
    Regroup(k, u, v);
    TimesCong(k, u);
    OneCong(Times(k, u));
    CongScale(v, Mul(k, u), 1);
  }

  lemma SameResidue(a: Scalar, b: Scalar)
    requires Cong(a, b)
    ensures a == b
  {
  }

  /** A combined signature is valid: whatever the key, the message and the slot, if neither
      component is zero the pair verifies, normalised or not. */
  lemma SignatureValid(p: Presignature, e: int, x: Scalar, m: Scalar)
    requires Bound(p, e, x)
    requires p.r != 0 && At(SignCom(p.uCom, p.zCom, m, p.r), e) != 0
    ensures Ecdsa.Verify(x, m, p.r, At(SignCom(p.uCom, p.zCom, m, p.r), e))
    ensures Ecdsa.Verify(x, m, p.r, Ecdsa.Normalize(At(SignCom(p.uCom, p.zCom, m, p.r), e)))
  {
    hide SignCom;
    hide Red;
    hide Eval;
    hide Ecdsa.Verify;
    var s := At(SignCom(p.uCom, p.zCom, m, p.r), e);
    SignatureValue(p, e, x, m);
    NonceNonzero(p.bigR, At(p.uCom, e));
    Ecdsa.VerifyIff(x, m, p.r, s, p.bigR);
    Ecdsa.NormalizeVerifies(x, m, p.r, s);
  }

  /** Records with this r give a signature on m under key x: neither r nor m + r * x is zero. */
  ghost predicate Signable(r: Scalar, m: Scalar, x: Scalar) {
    r != 0 && Plus(m, Times(r, x)) != 0
  }

  /** The committed signature value is zero exactly when m + r * x is. */
  lemma SignableExactly(p: Presignature, e: int, x: Scalar, m: Scalar)
    requires Bound(p, e, x)
    ensures p.r != 0 && At(SignCom(p.uCom, p.zCom, m, p.r), e) != 0 <==> Signable(p.r, m, x)
  {
    hide SignCom;
    hide Eval;
    SignatureValue(p, e, x, m);
    var u, v := At(p.uCom, e), Plus(m, Times(p.r, x));
    if v == 0 {
      MulIs(u, 0);
      RedScalar(0);
    } else if Times(u, v) == 0 {
      RedScalar(0);
      RedScalar(u);
      RedScalar(v);
      CongCancel(u, v);
    }
  }

  lemma NonceNonzero(k: Scalar, u: Scalar)
    requires Times(k, u) == Red(1)
    ensures k != 0
  {
  }

  // ---------------------------------------------------------------- combination

  /** A signature as the signature type accepts it: both components nonzero, low s. */
  function Finished(r: Scalar, s: Scalar): Outcome<(Scalar, Scalar)> {
    if r == 0 || s == 0 then BadSignature else Ok((r, Ecdsa.Normalize(s)))
  }

  /** Refused exactly when a component is zero; otherwise r unchanged and a low s. */
  lemma FinishedLow(r: Scalar, s: Scalar)
    ensures Finished(r, s).Ok? <==> r != 0 && s != 0
    ensures Finished(r, s).Ok? || Finished(r, s).BadSignature?
    ensures Finished(r, s).Ok? ==> Finished(r, s).value.0 == r && 2 * Finished(r, s).value.1 <= Q
  {
    if s != 0 {
      Ecdsa.NormalizeVerifies(0, 0, r, s);
    }
  }

  /** What the combination needs of its share list when it gets as far as interpolating. */
  ghost predicate Combinable(t: nat, com: Poly, shares: seq<Share>) {
    Blamed(com, shares) == [] ==> FirstDistinct(t, com, shares)
  }

  /** `combine_at` (and `combine`, at point 0 with quorum t). */
  method CombineAt(quorum: nat, point: int, meta: Presignature, m: Scalar, shares: seq<Share>)
    returns (r: Outcome<(Scalar, Scalar)>)
    requires |meta.uCom| == |meta.zCom| <= quorum
    requires Combinable(quorum, SignCom(meta.uCom, meta.zCom, m, meta.r), shares)
    ensures var com := SignCom(meta.uCom, meta.zCom, m, meta.r);
      r == if Blamed(com, shares) != [] then Abort(Blamed(com, shares))
           else if |shares| < quorum then NotEnoughShares(|shares|, quorum)
           else Ok((meta.r, At(com, point)))
  {
    hide SignCom;
    hide Eval;
    r := CombineVerified(quorum, point, meta.r, SignCom(meta.uCom, meta.zCom, m, meta.r), shares);
  }

  /** `combine_verified`: any bad share aborts, naming every sender of one. */
  method CombineVerified(quorum: nat, point: int, r: Scalar, sCom: Poly, shares: seq<Share>)
    returns (res: Outcome<(Scalar, Scalar)>)
    requires |sCom| <= quorum && Combinable(quorum, sCom, shares)
    ensures res == if Blamed(sCom, shares) != [] then Abort(Blamed(sCom, shares))
                   else if |shares| < quorum then NotEnoughShares(|shares|, quorum)
                   else Ok((r, At(sCom, point)))
  {
    hide Eval;
    hide Red;
    var parties, values, blamed := Filter(sCom, shares);
    if blamed != [] {
      return Abort(blamed);
    }
    if |parties| < quorum {
      return NotEnoughShares(|parties|, quorum);
    }
    var s := InterpolateFirst(point, quorum, sCom, shares, parties, values);
    return Ok((r, s));
  }

  /** `combine_robust_verified`: bad shares are filtered, their senders returned. */
  method CombineRobust(t: nat, meta: Presignature, m: Scalar, shares: seq<Share>)
    returns (res: Outcome<((Scalar, Scalar), seq<nat>)>)
    requires |meta.uCom| == |meta.zCom| <= t && FirstDistinct(t, SignCom(meta.uCom, meta.zCom, m, meta.r), shares)
    ensures var com := SignCom(meta.uCom, meta.zCom, m, meta.r);
      res == if |ValidShares(com, shares)| < t then NotEnoughShares(|ValidShares(com, shares)|, t)
             else Ok(((meta.r, At(com, 0)), Blamed(com, shares)))
  {
    hide SignCom;
    hide Eval;
    hide Red;
    var sCom := SignCom(meta.uCom, meta.zCom, m, meta.r);
    var parties, values, blamed := Filter(sCom, shares);
    if |parties| < t {
      return NotEnoughShares(|parties|, t);
    }
    var s := InterpolateFirst(0, t, sCom, shares, parties, values);
    return Ok(((meta.r, s), blamed));
  }

  /** Records of one presignature: common public part, distinct indices, shares on it. */
  ghost predicate RecordSet(ps: seq<Presignature>) {
    && ps != []
    && (forall k :: 0 <= k < |ps| ==> SameMeta(ps[k], ps[0]) && RecordOk(ps[k]))
    && forall i, j :: 0 <= i < j < |ps| ==> !Cong(ps[i].index, ps[j].index)
  }

  /** What the holders broadcast: their own share, or the value the adversary chose for them. */
  function Broadcast(ps: seq<Presignature>, m: Scalar, fake: map<nat, Scalar>): (r: seq<Share>)
    ensures |r| == |ps|
    ensures forall k :: 0 <= k < |r| ==>
      r[k] == if ps[k].index in fake then Share(ps[k].index, fake[ps[k].index]) else SignShare(ps[k], m)
  {
    seq(|ps|, k requires 0 <= k < |ps| =>
      if ps[k].index in fake then Share(ps[k].index, fake[ps[k].index]) else SignShare(ps[k], m))
  }

  /** A holder that broadcast something other than its share. */
  ghost predicate Lied(p: Presignature, m: Scalar, fake: map<nat, Scalar>) {
    p.index in fake && fake[p.index] != SignShare(p, m).s
  }

  /** `run_sign` and `run_sign_packed`: a broadcast share per holder, combination at the slot
      point, and the signature type's checks. */
  method RunSign(quorum: nat, point: int, ps: seq<Presignature>, m: Scalar, fake: map<nat, Scalar>)
    returns (r: Outcome<(Scalar, Scalar)>)
    requires RecordSet(ps) && |ps[0].uCom| == |ps[0].zCom| <= quorum
    ensures r.Abort? <==> exists k :: 0 <= k < |ps| && Lied(ps[k], m, fake)
    ensures r.Abort? ==> r.blamed != [] && forall j :: j in r.blamed <==>
      exists k :: 0 <= k < |ps| && ps[k].index == j && Lied(ps[k], m, fake)
    ensures !r.Abort? ==> r == if |ps| < quorum then NotEnoughShares(|ps|, quorum)
                               else Finished(ps[0].r, At(SignCom(ps[0].uCom, ps[0].zCom, m, ps[0].r), point))
    ensures r.Ok? ==> forall x: Scalar :: Bound(ps[0], point, x) ==> Ecdsa.Verify(x, m, r.value.0, r.value.1)
    ensures r.Ok? ==> r.value.0 == ps[0].r && 2 * r.value.1 <= Q
    ensures r.Ok? || r.Abort? || r.NotEnoughShares? || r.BadSignature?
    ensures r.NotEnoughShares? ==> |ps| < quorum
    ensures forall x: Scalar :: Bound(ps[0], point, x) ==>
      (r.Ok? <==> !r.Abort? && |ps| >= quorum && Signable(ps[0].r, m, x))
  {
    hide SignCom;
    hide Eval;
    hide Red;
    hide Ecdsa.Verify;
    hide RecordOk;
    hide Bound;
    hide SignShare;
    hide Lied;
    var shares := Broadcast(ps, m, fake);
    LiarsExactly(ps, m, fake);
    BroadcastDistinct(ps, m, fake);
    DistinctFirst(quorum, SignCom(ps[0].uCom, ps[0].zCom, m, ps[0].r), shares);
    r := CombineAt(quorum, point, ps[0], m, shares);
    forall x: Scalar | Bound(ps[0], point, x)
      ensures ps[0].r != 0 && At(SignCom(ps[0].uCom, ps[0].zCom, m, ps[0].r), point) != 0 <==> Signable(ps[0].r, m, x)
    {
      SignableExactly(ps[0], point, x, m);
    }
    hide Signable;
    if r.Ok? {
      forall x: Scalar | Bound(ps[0], point, x) && Finished(r.value.0, r.value.1).Ok?
        ensures Ecdsa.Verify(x, m, r.value.0, Finished(r.value.0, r.value.1).value.1)
      {
        SignatureValid(ps[0], point, x, m);
      }
      FinishedLow(r.value.0, r.value.1);
      r := Finished(r.value.0, r.value.1);
    }
  }

  /** The holders that broadcast something other than their share. */
  ghost function Liars(ps: seq<Presignature>, m: Scalar, fake: map<nat, Scalar>): set<nat> {
    set k | 0 <= k < |ps| && Lied(ps[k], m, fake) :: ps[k].index
  }

  /** `run_sign_robust`: liars are excluded and named, and t truthful holders always suffice. */
  method RunSignRobust(t: nat, ps: seq<Presignature>, m: Scalar, fake: map<nat, Scalar>)
    returns (r: Outcome<((Scalar, Scalar), seq<nat>)>)
    requires RecordSet(ps) && |ps[0].uCom| == |ps[0].zCom| <= t
    ensures r.Ok? || r.NotEnoughShares? || r.BadSignature?
    ensures r.NotEnoughShares? <==> |ps| - |Liars(ps, m, fake)| < t
    ensures r.Ok? ==> Members(r.value.1) == Liars(ps, m, fake) && |r.value.1| == |Liars(ps, m, fake)|
    ensures r.Ok? ==> Ok(r.value.0) == Finished(ps[0].r, At(SignCom(ps[0].uCom, ps[0].zCom, m, ps[0].r), 0))
    ensures r.Ok? ==> forall x: Scalar :: Bound(ps[0], 0, x) ==> Ecdsa.Verify(x, m, r.value.0.0, r.value.0.1)
    ensures r.Ok? ==> r.value.0.0 == ps[0].r && 2 * r.value.0.1 <= Q
    ensures forall x: Scalar :: Bound(ps[0], 0, x) ==>
      (r.Ok? <==> |ps| - |Liars(ps, m, fake)| >= t && Signable(ps[0].r, m, x))
  {
    hide SignCom;
    hide Eval;
    hide Red;
    hide Ecdsa.Verify;
    hide RecordOk;
    hide Bound;
    hide SignShare;
    hide Liars;
    var shares := Broadcast(ps, m, fake);
    BroadcastDistinct(ps, m, fake);
    LiarsCounted(ps, m, fake);
    DistinctFirst(t, SignCom(ps[0].uCom, ps[0].zCom, m, ps[0].r), shares);
    var c := CombineRobust(t, ps[0], m, shares);
    if !c.Ok? {
      return NotEnoughShares(c.got, c.need);
    }
    forall x: Scalar | Bound(ps[0], 0, x)
      ensures ps[0].r != 0 && At(SignCom(ps[0].uCom, ps[0].zCom, m, ps[0].r), 0) != 0 <==> Signable(ps[0].r, m, x)
    {
      SignableExactly(ps[0], 0, x, m);
    }
    hide Signable;
    FinishedLow(c.value.0.0, c.value.0.1);
    var sig := Finished(c.value.0.0, c.value.0.1);
    if !sig.Ok? {
      return BadSignature;
    }
    forall x: Scalar | Bound(ps[0], 0, x)
      ensures Ecdsa.Verify(x, m, sig.value.0, sig.value.1)
    {
      SignatureValid(ps[0], 0, x, m);
    }
    return Ok((sig.value, c.value.1));
  }

  /** The blame list holds each liar once. */
  lemma LiarsCounted(ps: seq<Presignature>, m: Scalar, fake: map<nat, Scalar>)
    requires RecordSet(ps)
    ensures var blamed := Blamed(SignCom(ps[0].uCom, ps[0].zCom, m, ps[0].r), Broadcast(ps, m, fake));
      Members(blamed) == Liars(ps, m, fake) && |blamed| == |Liars(ps, m, fake)|
  {
    hide SignCom;
    hide VerifyShare;
    hide Red;
    hide RecordOk;
    hide Lied;
    hide Blamed;
    var com, shares := SignCom(ps[0].uCom, ps[0].zCom, m, ps[0].r), Broadcast(ps, m, fake);
    LiarsExactly(ps, m, fake);
    BroadcastDistinct(ps, m, fake);
    BlamedOnce(com, shares);
    DistinctCount(Blamed(com, shares));
    assert Members(Blamed(com, shares)) == Liars(ps, m, fake);
  }

  lemma {:induction false} BlamedOnce(com: Poly, shares: seq<Share>)
    requires DistinctSenders(shares)
    ensures NoRepeats(Blamed(com, shares))
    decreases |shares|
  {
    hide VerifyShare;
    hide Red;
    if shares != [] {
      var n := |shares| - 1;
      var rest := shares[..n];
      assert forall i :: 0 <= i < n ==> rest[i] == shares[i];
      BlamedOnce(com, rest);
      LastIsNew(com, shares);
    }
  }

  /** The last sender is not among the blamed of the others. */
  lemma LastIsNew(com: Poly, shares: seq<Share>)
    requires DistinctSenders(shares) && shares != []
    ensures shares[|shares| - 1].from !in Blamed(com, shares[..|shares| - 1])
  {
    hide Blamed;
    hide VerifyShare;
    hide Red;
    var n := |shares| - 1;
    forall i | 0 <= i < n
      ensures shares[..n][i].from != shares[n].from
    {
      assert !Cong(shares[i].from, shares[n].from);
    }
    BlamedExactly(com, shares[..n], shares[n].from);
  }

  lemma BroadcastDistinct(ps: seq<Presignature>, m: Scalar, fake: map<nat, Scalar>)
    requires RecordSet(ps)
    ensures DistinctSenders(Broadcast(ps, m, fake))
  {
    hide Red;
    hide RecordOk;
    var shares := Broadcast(ps, m, fake);
    forall i, j | 0 <= i < j < |shares|
      ensures !Cong(shares[i].from, shares[j].from)
    {
      assert shares[i].from == ps[i].index && shares[j].from == ps[j].index;
    }
  }

  /** Blame names the liars, all of them and nobody else. */
  lemma LiarsExactly(ps: seq<Presignature>, m: Scalar, fake: map<nat, Scalar>)
    requires RecordSet(ps)
    ensures var blamed := Blamed(SignCom(ps[0].uCom, ps[0].zCom, m, ps[0].r), Broadcast(ps, m, fake));
      && (blamed != [] <==> exists k :: 0 <= k < |ps| && Lied(ps[k], m, fake))
      && forall j :: j in blamed <==> exists k :: 0 <= k < |ps| && ps[k].index == j && Lied(ps[k], m, fake)
  {
    hide SignCom;
    hide VerifyShare;
    hide Red;
    hide RecordOk;
    hide Blamed;
    var com, shares := SignCom(ps[0].uCom, ps[0].zCom, m, ps[0].r), Broadcast(ps, m, fake);
    var blamed := Blamed(com, shares);
    forall k | 0 <= k < |ps|
      ensures Valid(com, shares[k]) <==> !Lied(ps[k], m, fake)
      ensures shares[k].from == ps[k].index
    {
      SignShareVerifies(ps[k], m);
      OnlyOneShare(com, ps[k].index, shares[k].s, SignShare(ps[k], m).s);
    }
    forall j
      ensures j in blamed <==> exists k :: 0 <= k < |ps| && ps[k].index == j && Lied(ps[k], m, fake)
    {
      BlamedExactly(com, shares, j);
    }
    if blamed != [] {
      assert blamed[0] in blamed;
    }
    forall k | 0 <= k < |ps| && Lied(ps[k], m, fake) ensures blamed != [] { assert ps[k].index in blamed; }
  }

  lemma LiarsFaked(ps: seq<Presignature>, m: Scalar, fake: map<nat, Scalar>)
    ensures forall k :: 0 <= k < |ps| && Lied(ps[k], m, fake) ==> ps[k].index in fake
  {
  }

  lemma OnlyOneShare(com: Poly, j: int, s: Scalar, good: Scalar)
    requires VerifyShare(com, j, good)
    ensures VerifyShare(com, j, s) <==> s == good
  {
  }
}
