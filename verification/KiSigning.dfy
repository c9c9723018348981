/** Key-independent presignatures and online signing with them (src/protocol/sign.rs,
    src/runtime/sim.rs): the key is multiplied in online, with a fresh triple that is used by
    position. */
module KiSigning {
  import opened Field
  import opened Polynomials
  import opened Vss
  import opened Outcomes
  import opened Triples
  import opened Beaver
  import opened Opening
  import opened Broadcasts
  import opened Sign
  import opened Keys
  import Ecdsa

  // ---------------------------------------------------------------- records

  datatype KiPresignature = KiPresignature(id: nat, index: nat, r: Scalar, bigR: Scalar, uShare: Scalar, uCom: Poly)

  /** The record that key-independent signing forms online. */
  function FormedOnline(p: KiPresignature, t: TripleShare, pub: TriplePublic, delta: Scalar, eps: Scalar): Presignature
    requires pub.cc != []
  {
    Presignature(p.id, p.index, p.r, p.bigR, p.uShare, ProductShare(t, delta, eps), p.uCom, ProductCom(pub, delta, eps))
  }

  ghost predicate KiSet(ps: seq<KiPresignature>, len: nat) {
    && ps != []
    && (forall k :: 0 <= k < |ps| ==>
      ps[k].uCom == ps[0].uCom && ps[k].r == ps[0].r && ps[k].bigR == ps[0].bigR && |ps[k].uCom| == len
      && VerifyShare(ps[k].uCom, ps[k].index, ps[k].uShare))
    && forall i, j :: 0 <= i < j < |ps| ==> !Cong(ps[i].index, ps[j].index)
  }

  /** The committed u is the inverse of the nonce. */
  ghost predicate KiBound(p: KiPresignature) {
    At(p.uCom, 0) != 0 && Times(p.bigR, At(p.uCom, 0)) == Red(1) && p.r == Ecdsa.F(p.bigR)
  }

  predicate SameOwners(keys: seq<KeyShare>, ps: seq<KiPresignature>) {
    |keys| == |ps| && forall k :: 0 <= k < |keys| ==> keys[k].index == ps[k].index
  }

  ghost function Indices(ps: seq<KiPresignature>): (r: seq<nat>)
    ensures |r| == |ps| && forall k :: 0 <= k < |r| ==> r[k] == ps[k].index
  {
    seq(|ps|, k requires 0 <= k < |ps| => ps[k].index)
  }

  lemma KiBoundNonce(p: KiPresignature)
    requires KiBound(p)
    ensures p.r == Ecdsa.F(p.bigR)
  {
  }

  // ---------------------------------------------------------------- the triple, by position

  /** A triple with a share for each of the first `count` positions.  Whose shares they are is
      left open: the share at a position is on the commitments at its own index. */
  ghost predicate Positional(t: Triple, count: nat, len: nat) {
    && |t.pub.ca| == |t.pub.cb| == |t.pub.cc| == len
    && Multiplicative(t.pub, 0)
    && |t.shares| >= count
    && forall k :: 0 <= k < count ==> ValidRecord(t.pub, t.shares[k])
  }

  /** The owners of the first positions. */
  ghost predicate OwnedBy(t: Triple, owners: seq<nat>) {
    |t.shares| >= |owners| && forall k :: 0 <= k < |owners| ==> t.shares[k].index == owners[k]
  }

  /** Some holder's value differs from that of the owner of its position. */
  ghost predicate Differs(com: Poly, ids: seq<nat>, owners: seq<nat>)
    requires |owners| == |ids|
  {
    exists k :: 0 <= k < |ids| && At(com, owners[k]) != At(com, ids[k])
  }

  ghost function Owners(t: Triple, count: nat): (r: seq<nat>)
    requires |t.shares| >= count
    ensures |r| == count && forall k :: 0 <= k < count ==> r[k] == t.shares[k].index
  {
    seq(count, k requires 0 <= k < count => t.shares[k].index)
  }

  /** No holder notices whose position it uses. */
  ghost predicate Agrees(ps: seq<KiPresignature>, t: Triple)
    requires |t.shares| >= |ps|
  {
    var ids, owners := Indices(ps), Owners(t, |ps|);
    !Differs(t.pub.ca, ids, owners) && !Differs(t.pub.cb, ids, owners) && !Differs(t.pub.cc, ids, owners)
  }

  /** Own positions, or constant polynomials. */
  ghost predicate Aligned(t: nat, ids: seq<nat>, owners: seq<nat>)
    requires |owners| == |ids|
  {
    t == 1 || forall k :: 0 <= k < |ids| ==> Cong(owners[k], ids[k])
  }

  lemma AlignedAgrees(t: nat, com: Poly, ids: seq<nat>, owners: seq<nat>)
    requires |owners| == |ids| && |com| == t && Aligned(t, ids, owners)
    ensures !Differs(com, ids, owners)
  {
    hide Eval;
    hide Red;
    forall k | 0 <= k < |ids|
      ensures At(com, owners[k]) == At(com, ids[k])
    {
      if t == 1 {
        ConstantAt(com, owners[k]);
        ConstantAt(com, ids[k]);
      } else {
        EvalAtCong(com, owners[k], ids[k]);
      }
    }
  }

  lemma ConstantAt(com: Poly, x: int)
    requires |com| == 1
    ensures At(com, x) == com[0]
  {
    assert Eval(com[1..], x) == 0;
    MulIs(x, 0);
    RedScalar(com[0]);
  }

  // ---------------------------------------------------------------- signing

  /** The adversary of one key-independent signing session: replaced opening and signature
      shares. */
  datatype KiFaults = KiFaults(delta: Faults, eps: Faults, sign: Faults)

  function NoFaults(): KiFaults {
    KiFaults(map[], map[], map[])
  }

  function DeltaOwn(ps: seq<KiPresignature>, t: Triple): (r: seq<Scalar>)
    requires |t.shares| >= |ps|
    ensures |r| == |ps| && forall k :: 0 <= k < |ps| ==> r[k] == Minus(ps[k].uShare, t.shares[k].a)
  {
    seq(|ps|, k requires 0 <= k < |ps| => Minus(ps[k].uShare, t.shares[k].a))
  }

  function EpsOwn(keys: seq<KeyShare>, t: Triple): (r: seq<Scalar>)
    requires |t.shares| >= |keys|
    ensures |r| == |keys| && forall k :: 0 <= k < |keys| ==> r[k] == Minus(keys[k].share, t.shares[k].b)
  {
    seq(|keys|, k requires 0 <= k < |keys| => Minus(keys[k].share, t.shares[k].b))
  }

  function Formed(ps: seq<KiPresignature>, t: Triple, delta: Scalar, eps: Scalar): (r: seq<Presignature>)
    requires |t.shares| >= |ps| && t.pub.cc != []
    ensures |r| == |ps|
    ensures forall k :: 0 <= k < |ps| ==> r[k] == FormedOnline(ps[k], t.shares[k], t.pub, delta, eps)
  {
    seq(|ps|, k requires 0 <= k < |ps| => FormedOnline(ps[k], t.shares[k], t.pub, delta, eps))
  }

  ghost function DeltaCom(ps: seq<KiPresignature>, t: Triple): Poly
    requires ps != []
  {
    MaskCom(ps[0].uCom, t.pub.ca)
  }

  ghost function EpsCom(keys: seq<KeyShare>, t: Triple): Poly
    requires keys != []
  {
    MaskCom(keys[0].com, t.pub.cb)
  }

  /** Everything one session starts from. */
  ghost predicate KiReady(t: nat, keys: seq<KeyShare>, ps: seq<KiPresignature>, triple: Triple) {
    t >= 1 && KiSet(ps, t) && Positional(triple, |ps|, t) && SameOwners(keys, ps) && KeySet(keys, t)
  }

  /** What the two openings return, in terms of what is broadcast. */
  ghost function Opened(t: nat, keys: seq<KeyShare>, ps: seq<KiPresignature>, triple: Triple, f: KiFaults):
      Outcome<(Scalar, Scalar)>
    requires KiReady(t, keys, ps, triple)
  {
    var ids := Indices(ps);
    var delta := OpenedAt(0, t, DeltaCom(ps, triple), Sent(ids, DeltaOwn(ps, triple), f.delta));
    var eps := OpenedAt(0, t, EpsCom(keys, triple), Sent(ids, EpsOwn(keys, triple), f.eps));
    match delta
    case Abort(blamed) => Abort(blamed)
    case NotEnoughShares(got, need) => NotEnoughShares(got, need)
    case _ =>
      match eps
      case Abort(blamed) => Abort(blamed)
      case _ => Ok((At(DeltaCom(ps, triple), 0), At(EpsCom(keys, triple), 0)))
  }

  /** What the combination returns, in terms of what is broadcast. */
  ghost function Combined(ps: seq<KiPresignature>, triple: Triple, m: Scalar, fake: Faults, delta: Scalar, eps: Scalar):
      Outcome<(Scalar, Scalar)>
    requires ps != [] && |triple.shares| >= |ps| && triple.pub.cc != []
  {
    var rs := Formed(ps, triple, delta, eps);
    var com := SignCom(rs[0].uCom, rs[0].zCom, m, rs[0].r);
    var shares := Broadcast(rs, m, fake);
    if Blamed(com, shares) != [] then Abort(Blamed(com, shares)) else Finished(rs[0].r, At(com, 0))
  }

  /** The whole session after the triple, in terms of what is broadcast. */
  ghost function Signed(t: nat, keys: seq<KeyShare>, ps: seq<KiPresignature>, triple: Triple, m: Scalar, f: KiFaults):
      Outcome<(Scalar, Scalar)>
    requires KiReady(t, keys, ps, triple)
  {
    var masks := Opened(t, keys, ps, triple, f);
    if !masks.Ok? then masks else Combined(ps, triple, m, f.sign, masks.value.0, masks.value.1)
  }

  /** Round R1: both masks are opened, delta first. */
  method OpenMasks(t: nat, keys: seq<KeyShare>, ps: seq<KiPresignature>, triple: Triple, f: KiFaults)
    returns (r: Outcome<(Scalar, Scalar)>)
    requires KiReady(t, keys, ps, triple)
    ensures r == Opened(t, keys, ps, triple, f)
    ensures r.Ok? || r.Abort? || r.NotEnoughShares?
    ensures r.Ok? ==> |ps| >= t && r.value == (At(DeltaCom(ps, triple), 0), At(EpsCom(keys, triple), 0))
    ensures r.NotEnoughShares? ==> |ps| < t
  {
    hide MaskCom;
    hide Red;
    hide Eval;
    hide Blamed;
    hide VerifyShare;
    hide Multiplicative;
    var ids := seq(|ps|, k requires 0 <= k < |ps| => ps[k].index);
    assert ids == Indices(ps);
    assert DistinctMod(ids);
    SentDistinct(ids, DeltaOwn(ps, triple), f.delta);
    SentDistinct(ids, EpsOwn(keys, triple), f.eps);
    var delta := OpenAt(0, t, MaskCom(ps[0].uCom, triple.pub.ca), Sent(ids, DeltaOwn(ps, triple), f.delta));
    if !delta.Ok? {
      return if delta.Abort? then Abort(delta.blamed) else NotEnoughShares(|ps|, t);
    }
    var eps := OpenAt(0, t, MaskCom(keys[0].com, triple.pub.cb), Sent(ids, EpsOwn(keys, triple), f.eps));
    if !eps.Ok? {
      return Abort(eps.blamed);
    }
    return Ok((delta.value, eps.value));
  }

  /** `run_sign_ki`, given the fresh triple of round R1, whosever shares its positions hold. */
  method RunSignKi(t: nat, keys: seq<KeyShare>, ps: seq<KiPresignature>, triple: Triple, m: Scalar, f: KiFaults)
    returns (r: Outcome<(Scalar, Scalar)>)
    requires t >= 1 && KiSet(ps, t) && Positional(triple, |ps|, t)
    requires SameOwners(keys, ps) ==> KeySet(keys, t)
    ensures r.InvalidParams? <==> !SameOwners(keys, ps)
    ensures SameOwners(keys, ps) ==> r == Signed(t, keys, ps, triple, m, f)
    ensures r.Ok? || r.Abort? || r.NotEnoughShares? || r.InvalidParams? || r.BadSignature?
    ensures r.NotEnoughShares? ==> |ps| < t
    ensures r.Ok? && KiBound(ps[0]) ==> keys != [] && Ecdsa.Verify(PublicKey(keys), m, r.value.0, r.value.1)
    ensures r.Ok? ==> r.value.0 == ps[0].r && 2 * r.value.1 <= Q
    ensures (r.Ok? || r.BadSignature?) && KiBound(ps[0]) ==>
      keys != [] && (r.Ok? <==> Signable(ps[0].r, m, PublicKey(keys)))
    ensures Agrees(ps, triple) && r.Abort? ==>
      r.blamed != [] && forall j :: j in r.blamed ==> j in f.delta || j in f.eps || j in f.sign
  {
    hide Ecdsa.Verify;
    hide Agrees;
    hide Opened;
    hide Combined;
    hide KiSet;
    hide KiBound;
    hide KeySet;
    hide Positional;
    hide Signable;
    hide At;
    if !SameOwners(keys, ps) {
      return InvalidParams;
    }
    ReadyShape(t, keys, ps, triple);
    var masks := OpenMasks(t, keys, ps, triple, f);
    if Agrees(ps, triple) {
      AgreedOpening(t, keys, ps, triple, f);
    }
    if !masks.Ok? {
      return masks;
    }
    r := CombineFormed(t, keys, ps, triple, m, f, masks.value.0, masks.value.1);
  }

  /** Round R2: the signature shares, verified and combined. */
  method CombineFormed(t: nat, keys: seq<KeyShare>, ps: seq<KiPresignature>, triple: Triple, m: Scalar, f: KiFaults,
                       delta: Scalar, eps: Scalar)
    returns (r: Outcome<(Scalar, Scalar)>)
    requires KiReady(t, keys, ps, triple) && |ps| >= t
    requires delta == At(DeltaCom(ps, triple), 0) && eps == At(EpsCom(keys, triple), 0)
    ensures |triple.shares| >= |ps| && triple.pub.cc != [] && r == Combined(ps, triple, m, f.sign, delta, eps)
    ensures r.Ok? || r.Abort? || r.BadSignature?
    ensures r.Ok? ==> r.value.0 == ps[0].r && 2 * r.value.1 <= Q
    ensures KiBound(ps[0]) ==>
      (r.Ok? ==> Ecdsa.Verify(PublicKey(keys), m, r.value.0, r.value.1))
      && (r.Ok? || r.BadSignature? ==> (r.Ok? <==> Signable(ps[0].r, m, PublicKey(keys))))
    ensures Agrees(ps, triple) && r.Abort? ==> r.blamed != [] && forall j :: j in r.blamed ==> j in f.sign
  {
    hide Ecdsa.Verify;
    hide KiReady;
    hide DeltaCom;
    hide EpsCom;
    hide Blamed;
    hide SignCom;
    hide FormedOnline;
    hide Agrees;
    hide KiBound;
    hide Bound;
    hide Signable;
    hide Finished;
    hide At;
    ReadyShape(t, keys, ps, triple);
    var rs := Formed(ps, triple, delta, eps);
    FormedMeta(t, keys, ps, triple, delta, eps, m, f.sign);
    DistinctFirst(t, SignCom(rs[0].uCom, rs[0].zCom, m, rs[0].r), Broadcast(rs, m, f.sign));
    var c := CombineAt(t, 0, rs[0], m, Broadcast(rs, m, f.sign));
    if Agrees(ps, triple) {
      AgreedSigning(t, keys, ps, triple, m, f, delta, eps);
    }
    if !c.Ok? {
      return c;
    }
    FormedSigns(t, keys, ps, triple, delta, eps, m);
    return Finished(c.value.0, c.value.1);
  }

  /** The committed signature value, as the signature type takes it. */
  lemma FormedSigns(t: nat, keys: seq<KeyShare>, ps: seq<KiPresignature>, triple: Triple, delta: Scalar, eps: Scalar,
                    m: Scalar)
    requires KiReady(t, keys, ps, triple)
    requires delta == At(DeltaCom(ps, triple), 0) && eps == At(EpsCom(keys, triple), 0)
    ensures |triple.shares| >= |ps| && triple.pub.cc != []
    ensures var rs := Formed(ps, triple, delta, eps);
      var r := Finished(rs[0].r, At(SignCom(rs[0].uCom, rs[0].zCom, m, rs[0].r), 0));
      && (r.Ok? || r.BadSignature?)
      && (r.Ok? ==> r.value.0 == ps[0].r && 2 * r.value.1 <= Q)
      && (KiBound(ps[0]) ==>
           (r.Ok? ==> Ecdsa.Verify(PublicKey(keys), m, r.value.0, r.value.1))
           && (r.Ok? <==> Signable(ps[0].r, m, PublicKey(keys))))
  {
    hide Ecdsa.Verify;
    hide KiReady;
    hide DeltaCom;
    hide EpsCom;
    hide SignCom;
    hide FormedOnline;
    hide KiBound;
    hide Bound;
    hide Signable;
    hide At;
    ReadyShape(t, keys, ps, triple);
    FormedMeta(t, keys, ps, triple, delta, eps, m, map[]);
    var rs := Formed(ps, triple, delta, eps);
    FinishedLow(rs[0].r, At(SignCom(rs[0].uCom, rs[0].zCom, m, rs[0].r), 0));
    if KiBound(ps[0]) {
      FormedBound(t, keys, ps, triple, delta, eps);
      SignableExactly(rs[0], 0, PublicKey(keys), m);
      if rs[0].r != 0 && At(SignCom(rs[0].uCom, rs[0].zCom, m, rs[0].r), 0) != 0 {
        SignatureValid(rs[0], 0, PublicKey(keys), m);
      }
    }
  }

  lemma FormedMeta(t: nat, keys: seq<KeyShare>, ps: seq<KiPresignature>, triple: Triple, delta: Scalar, eps: Scalar,
                   m: Scalar, fake: Faults)
    requires KiReady(t, keys, ps, triple)
    ensures var rs := Formed(ps, triple, delta, eps);
      |rs[0].uCom| == |rs[0].zCom| == t && DistinctSenders(Broadcast(rs, m, fake))
      && rs[0].uCom == ps[0].uCom && rs[0].r == ps[0].r && rs[0].zCom == ProductCom(triple.pub, delta, eps)
  {
    hide ProductCom;
    hide ProductShare;
    hide VerifyShare;
    hide Multiplicative;
    hide Red;
    var rs := Formed(ps, triple, delta, eps);
    var shares := Broadcast(rs, m, fake);
    forall i, j | 0 <= i < j < |shares|
      ensures !Cong(shares[i].from, shares[j].from)
    {
      assert shares[i].from == ps[i].index && shares[j].from == ps[j].index;
    }
  }

  /** The combined commitment has the key multiplied in. */
  lemma FormedBound(t: nat, keys: seq<KeyShare>, ps: seq<KiPresignature>, triple: Triple, delta: Scalar, eps: Scalar)
    requires KiReady(t, keys, ps, triple) && KiBound(ps[0])
    requires delta == At(DeltaCom(ps, triple), 0) && eps == At(EpsCom(keys, triple), 0)
    ensures Bound(Formed(ps, triple, delta, eps)[0], 0, PublicKey(keys))
  {
    hide ProductCom;
    hide ProductShare;
    hide MaskCom;
    hide VerifyShare;
    hide Red;
    hide Eval;
    ProductValue(triple.pub, ps[0].uCom, keys[0].com, 0);
  }

  // ---------------------------------------------------------------- agreeing positions

  /** A masked share verifies exactly when the operand agrees at the holder and at the owner. */
  lemma KiAlignment(u: Poly, ca: Poly, j: nat, owner: nat, uShare: Scalar, a: Scalar)
    requires VerifyShare(u, j, uShare) && VerifyShare(ca, owner, a)
    ensures VerifyShare(MaskCom(u, ca), j, Minus(uShare, a)) <==> At(ca, owner) == At(ca, j)
  {
    hide MaskCom;
    hide Red;
    hide Eval;
    MaskAt(u, ca, j);
    MinusInjective(uShare, a, At(ca, j));
  }

  lemma MinusInjective(s: Scalar, a: Scalar, b: Scalar)
    ensures Minus(s, a) == Minus(s, b) <==> a == b
  {
    if Minus(s, a) == Minus(s, b) {
      CongSub(s, s, s - a, s - b);
    }
  }

  lemma PlusInjective(s: Scalar, a: Scalar, b: Scalar)
    ensures Plus(s, a) == Plus(s, b) <==> a == b
  {
    if Plus(s, a) == Plus(s, b) {
      CongSub(s + a, s + b, s, s);
    }
  }

  lemma TimesInjective(r: Scalar, a: Scalar, b: Scalar)
    requires r != 0
    ensures Times(r, a) == Times(r, b) <==> a == b
  {
    if Times(r, a) == Times(r, b) {
      CongSub(Mul(r, a), Mul(r, b), Mul(r, b), Mul(r, b));
      DistributeMinus(r, a, b);
      CongCancel(r, a - b);
      CongFromDifference(a, b);
    }
  }

  /** Each own mask is on its commitment exactly where the operand agrees. */
  lemma DeltaValid(t: nat, keys: seq<KeyShare>, ps: seq<KiPresignature>, triple: Triple, k: nat)
    requires KiReady(t, keys, ps, triple) && k < |ps|
    ensures VerifyShare(DeltaCom(ps, triple), ps[k].index, DeltaOwn(ps, triple)[k]) <==>
      At(triple.pub.ca, triple.shares[k].index) == At(triple.pub.ca, ps[k].index)
  {
    hide MaskCom;
    hide VerifyShare;
    hide Multiplicative;
    hide At;
    assert ValidRecord(triple.pub, triple.shares[k]);
    KiAlignment(ps[k].uCom, triple.pub.ca, ps[k].index, triple.shares[k].index, ps[k].uShare, triple.shares[k].a);
  }

  lemma EpsValid(t: nat, keys: seq<KeyShare>, ps: seq<KiPresignature>, triple: Triple, k: nat)
    requires KiReady(t, keys, ps, triple) && k < |ps|
    ensures VerifyShare(EpsCom(keys, triple), ps[k].index, EpsOwn(keys, triple)[k]) <==>
      At(triple.pub.cb, triple.shares[k].index) == At(triple.pub.cb, ps[k].index)
  {
    hide MaskCom;
    hide VerifyShare;
    hide Multiplicative;
    hide At;
    assert ValidRecord(triple.pub, triple.shares[k]);
    KiAlignment(keys[k].com, triple.pub.cb, ps[k].index, triple.shares[k].index, keys[k].share, triple.shares[k].b);
  }

  /** Where both operands agree, the own signature share is on its commitment exactly when the
      product does too, or r is 0. */
  lemma SignValid(t: nat, keys: seq<KeyShare>, ps: seq<KiPresignature>, triple: Triple, delta: Scalar, eps: Scalar,
                  m: Scalar,
                  k: nat)
    requires KiReady(t, keys, ps, triple) && k < |ps|
    requires var pub, o, j := triple.pub, triple.shares[k].index, ps[k].index;
      At(pub.ca, o) == At(pub.ca, j) && At(pub.cb, o) == At(pub.cb, j)
    ensures var rs := Formed(ps, triple, delta, eps);
      Valid(SignCom(rs[0].uCom, rs[0].zCom, m, rs[0].r), SignShare(rs[k], m)) <==>
      ps[0].r == 0 || At(triple.pub.cc, triple.shares[k].index) == At(triple.pub.cc, ps[k].index)
  {
    hide ProductCom;
    hide SignCom;
    hide Multiplicative;
    hide Red;
    hide Eval;
    var pub, s, j := triple.pub, triple.shares[k], ps[k].index;
    assert ValidRecord(pub, s);
    var rs := Formed(ps, triple, delta, eps);
    assert VerifyShare(ps[k].uCom, j, ps[k].uShare);
    SignComAt(rs[0].uCom, rs[0].zCom, m, rs[0].r, j);
    ProductComAt(pub, delta, eps, j);
    SignDifference(m, ps[k].uShare, ps[0].r, s, At(pub.cc, j), delta, eps);
  }

  /** The algebra: two signature shares that differ in the c-part alone. */
  lemma SignDifference(m: Scalar, u: Scalar, r: Scalar, s: TripleShare, c: Scalar, delta: Scalar, eps: Scalar)
    ensures var z := Plus(Plus(Plus(c, Times(delta, s.b)), Times(eps, s.a)), Times(delta, eps));
      Plus(Times(m, u), Times(r, ProductShare(s, delta, eps))) == Plus(Times(m, u), Times(r, z)) <==> r == 0 || s.c == c
  {
    hide Red;
    var db, ea, de := Times(delta, s.b), Times(eps, s.a), Times(delta, eps);
    var z, z' := ProductShare(s, delta, eps), Plus(Plus(Plus(c, db), ea), de);
    PlusInjective(Times(m, u), Times(r, z), Times(r, z'));
    SumInjective(s.c, c, db, ea, de);
    if r != 0 {
      TimesInjective(r, z, z');
    } else {
      MulIs(0, z);
      MulIs(0, z');
    }
  }

  lemma SumInjective(a: Scalar, b: Scalar, x: Scalar, y: Scalar, z: Scalar)
    ensures Plus(Plus(Plus(a, x), y), z) == Plus(Plus(Plus(b, x), y), z) <==> a == b
  {
    AddInjective(a, b, x);
    AddInjective(Plus(a, x), Plus(b, x), y);
    AddInjective(Plus(Plus(a, x), y), Plus(Plus(b, x), y), z);
  }

  lemma AddInjective(a: Scalar, b: Scalar, x: Scalar)
    ensures Plus(a, x) == Plus(b, x) <==> a == b
  {
    PlusInjective(x, a, b);
  }

  /** With agreeing positions only members that replaced a value are blamed in an opening. */
  lemma AgreedOpening(t: nat, keys: seq<KeyShare>, ps: seq<KiPresignature>, triple: Triple, f: KiFaults)
    requires KiReady(t, keys, ps, triple) && Agrees(ps, triple)
    ensures var r := Opened(t, keys, ps, triple, f);
      r.Abort? ==> r.blamed != [] && forall j :: j in r.blamed ==> j in f.delta || j in f.eps
  {
    hide KiReady;
    hide Agrees;
    hide MaskCom;
    hide Blamed;
    hide Cheaters;
    hide At;
    AgreedMasks(t, keys, ps, triple);
    hide HonestShares;
    var ids := Indices(ps);
    BlamedAreCheaters(DeltaCom(ps, triple), ids, DeltaOwn(ps, triple), f.delta);
    BlamedAreCheaters(EpsCom(keys, triple), ids, EpsOwn(keys, triple), f.eps);
    OnlyFakersBlamed(DeltaCom(ps, triple), f.delta, ids);
    OnlyFakersBlamed(EpsCom(keys, triple), f.eps, ids);
  }

  lemma AgreedMasks(t: nat, keys: seq<KeyShare>, ps: seq<KiPresignature>, triple: Triple)
    requires KiReady(t, keys, ps, triple) && Agrees(ps, triple)
    ensures ps != [] && |keys| == |ps| <= |triple.shares|
    ensures HonestShares(DeltaCom(ps, triple), Indices(ps), DeltaOwn(ps, triple))
    ensures HonestShares(EpsCom(keys, triple), Indices(ps), EpsOwn(keys, triple))
  {
    hide KiReady;
    hide MaskCom;
    hide VerifyShare;
    hide At;
    ReadyShape(t, keys, ps, triple);
    var ids := Indices(ps);
    forall k | 0 <= k < |ps|
      ensures VerifyShare(DeltaCom(ps, triple), ids[k], DeltaOwn(ps, triple)[k])
      ensures VerifyShare(EpsCom(keys, triple), ids[k], EpsOwn(keys, triple)[k])
    {
      DeltaValid(t, keys, ps, triple, k);
      EpsValid(t, keys, ps, triple, k);
    }
  }

  /** Only a sender that replaced its share can be blamed by an opening. */
  lemma OnlyFakersBlamed(com: Poly, fake: Faults, ids: seq<nat>)
    ensures forall j :: j in Cheaters(com, fake, ids) ==> j in fake
  {
    forall j
      ensures j in Cheaters(com, fake, ids) ==> j in fake
    {
      CheatersExactly(com, fake, ids, j);
    }
  }

  /** And the same in the combination. */
  lemma AgreedSigning(t: nat, keys: seq<KeyShare>, ps: seq<KiPresignature>, triple: Triple, m: Scalar, f: KiFaults,
                      delta: Scalar, eps: Scalar)
    requires KiReady(t, keys, ps, triple) && Agrees(ps, triple)
    ensures var rs := Formed(ps, triple, delta, eps);
      forall j :: j in Blamed(SignCom(rs[0].uCom, rs[0].zCom, m, rs[0].r), Broadcast(rs, m, f.sign)) ==> j in f.sign
  {
    hide SignCom;
    hide SignShare;
    hide FormedOnline;
    hide VerifyShare;
    hide ValidRecord;
    hide Multiplicative;
    hide Cong;
    hide At;
    hide Blamed;
    var rs := Formed(ps, triple, delta, eps);
    var com, shares := SignCom(rs[0].uCom, rs[0].zCom, m, rs[0].r), Broadcast(rs, m, f.sign);
    forall j | j in Blamed(com, shares)
      ensures j in f.sign
    {
      BlamedExactly(com, shares, j);
      var k :| 0 <= k < |shares| && shares[k].from == j && !Valid(com, shares[k]);
      SignValid(t, keys, ps, triple, delta, eps, m, k);
      OwnFrom(rs[k], m);
    }
  }

  lemma OwnFrom(p: Presignature, m: Scalar)
    ensures SignShare(p, m).from == p.index
  {
  }

  // ---------------------------------------------------------------- honest sessions

  /** The holders whose value differs from that of the owner of their position. */
  ghost predicate DiffersAt(com: Poly, ids: seq<nat>, owners: seq<nat>, j: nat)
    requires |owners| == |ids|
  {
    exists k :: 0 <= k < |ids| && ids[k] == j && At(com, owners[k]) != At(com, ids[k])
  }

  /** An opening to which everybody contributes its own mask blames exactly those holders. */
  lemma OpeningBlames(com: Poly, shares: seq<Share>, op: Poly, ids: seq<nat>, owners: seq<nat>)
    requires |owners| == |ids| == |shares|
    requires forall k :: 0 <= k < |ids| ==>
      shares[k].from == ids[k] && (Valid(com, shares[k]) <==> At(op, owners[k]) == At(op, ids[k]))
    ensures Blamed(com, shares) != [] <==> Differs(op, ids, owners)
    ensures forall j :: j in Blamed(com, shares) <==> DiffersAt(op, ids, owners, j)
  {
    hide Valid;
    hide Blamed;
    hide At;
    forall j
      ensures j in Blamed(com, shares) <==> DiffersAt(op, ids, owners, j)
    {
      BlamedExactly(com, shares, j);
    }
    if Blamed(com, shares) != [] {
      assert Blamed(com, shares)[0] in Blamed(com, shares);
      assert DiffersAt(op, ids, owners, Blamed(com, shares)[0]);
    }
    if Differs(op, ids, owners) {
      var k :| 0 <= k < |ids| && At(op, owners[k]) != At(op, ids[k]);
      assert DiffersAt(op, ids, owners, ids[k]);
    }
  }

  lemma DeltaBlames(t: nat, keys: seq<KeyShare>, ps: seq<KiPresignature>, triple: Triple)
    requires KiReady(t, keys, ps, triple)
    ensures var blamed := Blamed(DeltaCom(ps, triple), Sent(Indices(ps), DeltaOwn(ps, triple), map[]));
      var owners := Owners(triple, |ps|);
      && (blamed != [] <==> Differs(triple.pub.ca, Indices(ps), owners))
      && forall j :: j in blamed <==> DiffersAt(triple.pub.ca, Indices(ps), owners, j)
  {
    hide KiReady;
    hide VerifyShare;
    hide At;
    ReadyShape(t, keys, ps, triple);
    var ids, owners := Indices(ps), Owners(triple, |ps|);
    var shares := Sent(ids, DeltaOwn(ps, triple), map[]);
    forall k | 0 <= k < |ids|
      ensures Valid(DeltaCom(ps, triple), shares[k]) <==> At(triple.pub.ca, owners[k]) == At(triple.pub.ca, ids[k])
    {
      DeltaValid(t, keys, ps, triple, k);
    }
    OpeningBlames(DeltaCom(ps, triple), shares, triple.pub.ca, ids, owners);
  }

  lemma EpsBlames(t: nat, keys: seq<KeyShare>, ps: seq<KiPresignature>, triple: Triple)
    requires KiReady(t, keys, ps, triple)
    ensures var blamed := Blamed(EpsCom(keys, triple), Sent(Indices(ps), EpsOwn(keys, triple), map[]));
      var owners := Owners(triple, |ps|);
      && (blamed != [] <==> Differs(triple.pub.cb, Indices(ps), owners))
      && forall j :: j in blamed <==> DiffersAt(triple.pub.cb, Indices(ps), owners, j)
  {
    hide KiReady;
    hide VerifyShare;
    hide At;
    ReadyShape(t, keys, ps, triple);
    var ids, owners := Indices(ps), Owners(triple, |ps|);
    var shares := Sent(ids, EpsOwn(keys, triple), map[]);
    forall k | 0 <= k < |ids|
      ensures Valid(EpsCom(keys, triple), shares[k]) <==> At(triple.pub.cb, owners[k]) == At(triple.pub.cb, ids[k])
    {
      EpsValid(t, keys, ps, triple, k);
    }
    OpeningBlames(EpsCom(keys, triple), shares, triple.pub.cb, ids, owners);
  }

  lemma ReadyShape(t: nat, keys: seq<KeyShare>, ps: seq<KiPresignature>, triple: Triple)
    requires KiReady(t, keys, ps, triple)
    ensures ps != [] && |keys| == |ps| <= |triple.shares| && triple.pub.cc != []
  {
  }

  /** Once both openings pass, the combination blames exactly the holders at which the product
      differs, unless r is 0. */
  lemma SigningBlames(t: nat, keys: seq<KeyShare>, ps: seq<KiPresignature>, triple: Triple, delta: Scalar, eps: Scalar,
                      m: Scalar)
    requires KiReady(t, keys, ps, triple)
    requires !Differs(triple.pub.ca, Indices(ps), Owners(triple, |ps|))
    requires !Differs(triple.pub.cb, Indices(ps), Owners(triple, |ps|))
    ensures var rs := Formed(ps, triple, delta, eps);
      var blamed := Blamed(SignCom(rs[0].uCom, rs[0].zCom, m, rs[0].r), Broadcast(rs, m, map[]));
      var owners := Owners(triple, |ps|);
      && (blamed != [] <==> ps[0].r != 0 && Differs(triple.pub.cc, Indices(ps), owners))
      && forall j :: j in blamed <==> ps[0].r != 0 && DiffersAt(triple.pub.cc, Indices(ps), owners, j)
  {
    hide KiReady;
    hide FormedOnline;
    hide SignCom;
    hide SignShare;
    hide Valid;
    hide Blamed;
    hide At;
    ReadyShape(t, keys, ps, triple);
    var ids, owners := Indices(ps), Owners(triple, |ps|);
    var rs := Formed(ps, triple, delta, eps);
    var com, shares := SignCom(rs[0].uCom, rs[0].zCom, m, rs[0].r), Broadcast(rs, m, map[]);
    forall k | 0 <= k < |ids|
      ensures shares[k].from == ids[k]
      ensures Valid(com, shares[k]) <==> ps[0].r == 0 || At(triple.pub.cc, owners[k]) == At(triple.pub.cc, ids[k])
    {
      SignValid(t, keys, ps, triple, delta, eps, m, k);
      OwnFrom(rs[k], m);
      FormedIndex(ps[k], triple.shares[k], triple.pub, delta, eps);
    }
    if ps[0].r != 0 {
      OpeningBlames(com, shares, triple.pub.cc, ids, owners);
    } else {
      NobodyInvalid(com, shares);
    }
  }

  lemma FormedIndex(p: KiPresignature, s: TripleShare, pub: TriplePublic, delta: Scalar, eps: Scalar)
    requires pub.cc != []
    ensures FormedOnline(p, s, pub, delta, eps).index == p.index
  {
  }

  lemma NobodyInvalid(com: Poly, shares: seq<Share>)
    requires forall k :: 0 <= k < |shares| ==> Valid(com, shares[k])
    ensures Blamed(com, shares) == []
  {
    hide Valid;
    hide Blamed;
    if Blamed(com, shares) != [] {
      BlamedExactly(com, shares, Blamed(com, shares)[0]);
    }
  }

  /** The openings when nobody replaces a value. */
  lemma HonestOpening(t: nat, keys: seq<KeyShare>, ps: seq<KiPresignature>, triple: Triple)
    requires KiReady(t, keys, ps, triple)
    ensures var r := Opened(t, keys, ps, triple, NoFaults());
      var ids, owners, pub := Indices(ps), Owners(triple, |ps|), triple.pub;
      if Differs(pub.ca, ids, owners) then r.Abort? && forall j :: j in r.blamed <==> DiffersAt(pub.ca, ids, owners, j)
      else if |ps| < t then r == NotEnoughShares(|ps|, t)
      else if Differs(pub.cb, ids, owners) then
        r.Abort? && forall j :: j in r.blamed <==> DiffersAt(pub.cb, ids, owners, j)
      else r == Ok((At(DeltaCom(ps, triple), 0), At(EpsCom(keys, triple), 0)))
  {
    hide KiReady;
    hide MaskCom;
    hide Blamed;
    hide Differs;
    hide DiffersAt;
    hide At;
    ReadyShape(t, keys, ps, triple);
    DeltaBlames(t, keys, ps, triple);
    EpsBlames(t, keys, ps, triple);
  }

  /** Honest holders get blamed in a session with this triple. */
  ghost predicate BlamesHonest(t: nat, ps: seq<KiPresignature>, triple: Triple)
    requires |triple.shares| >= |ps| > 0
  {
    var ids, owners, pub := Indices(ps), Owners(triple, |ps|), triple.pub;
    || Differs(pub.ca, ids, owners)
    || (|ps| >= t && (Differs(pub.cb, ids, owners) || (ps[0].r != 0 && Differs(pub.cc, ids, owners))))
  }

  /** The first commitment at which the positions disagree. */
  ghost function FirstDifferent(ps: seq<KiPresignature>, triple: Triple): Poly
    requires |triple.shares| >= |ps|
  {
    var ids, owners, pub := Indices(ps), Owners(triple, |ps|), triple.pub;
    if Differs(pub.ca, ids, owners) then pub.ca else if Differs(pub.cb, ids, owners) then pub.cb else pub.cc
  }

  /** What a session does when nobody replaces a value: it blames honest holders exactly when an
      operand differs at some position, or, with t holders and both openings passed, r times the
      product does; and it blames exactly the holders at which it differs. */
  lemma HonestSession(t: nat, keys: seq<KeyShare>, ps: seq<KiPresignature>, triple: Triple, m: Scalar)
    requires KiReady(t, keys, ps, triple)
    ensures |triple.shares| >= |ps| > 0
    ensures Signed(t, keys, ps, triple, m, NoFaults()).Abort? <==> BlamesHonest(t, ps, triple)
    ensures var r := Signed(t, keys, ps, triple, m, NoFaults());
      r.Abort? ==>
      forall j :: j in r.blamed <==> DiffersAt(FirstDifferent(ps, triple), Indices(ps), Owners(triple, |ps|), j)
  {
    hide KiReady;
    hide Opened;
    hide MaskCom;
    hide Blamed;
    hide Differs;
    hide DiffersAt;
    hide FormedOnline;
    hide SignCom;
    hide At;
    ReadyShape(t, keys, ps, triple);
    HonestOpening(t, keys, ps, triple);
    var masks := Opened(t, keys, ps, triple, NoFaults());
    if masks.Ok? {
      SigningBlames(t, keys, ps, triple, masks.value.0, masks.value.1, m);
    }
  }

  // ---------------------------------------------------------------- when honest holders are safe

  /** A triple that tells any two points apart: the identity, zero and zero. */
  ghost function IdentityTriple(t: nat, owners: seq<nat>): Triple
    requires t >= 2
  {
    var id, zero: Poly := [0, Unit()] + seq(t - 2, _ => 0), seq(t, _ => 0);
    Triple(TriplePublic(id, zero, zero),
           seq(|owners|, k requires 0 <= k < |owners| => TripleShare(owners[k], At(id, owners[k]), 0, 0)))
  }

  function Unit(): (r: Scalar)
    ensures Cong(r, 1)
  {
    Red(1)
  }

  lemma IdentityAt(t: nat, x: int)
    requires t >= 2
    ensures var id: Poly := [0, Unit()] + seq(t - 2, _ => 0); Cong(Eval(id, x), x)
  {
    hide Red;
    var id: Poly := [0, Unit()] + seq(t - 2, _ => 0);
    assert id[1..][1..] == seq(t - 2, _ => 0);
    EvalZero(id[1..][1..], x);
    MulIs(x, 0);
    assert Eval(id[1..], x) == Unit();
    CongScale(x, Unit(), 1);
    MulIs(x, 1);
  }

  lemma IdentityTripleGood(t: nat, owners: seq<nat>)
    requires t >= 2
    ensures var triple := IdentityTriple(t, owners); Positional(triple, |owners|, t) && OwnedBy(triple, owners)
    ensures forall ids: seq<nat> :: |ids| == |owners| ==>
      (Differs(IdentityTriple(t, owners).pub.ca, ids, owners) <==>
       exists k :: 0 <= k < |ids| && !Cong(owners[k], ids[k]))
  {
    hide Red;
    hide Eval;
    var triple := IdentityTriple(t, owners);
    var pub := triple.pub;
    forall x: int
      ensures At(pub.cb, x) == 0 && Cong(Eval(pub.ca, x), x)
    {
      EvalZero(pub.cb, x);
      RedScalar(0);
      IdentityAt(t, x);
    }
    ZeroTimes(At(pub.ca, 0));
  }

  lemma ZeroTimes(a: Scalar)
    ensures Times(a, 0) == 0
  {
    MulIs(a, 0);
    RedScalar(0);
  }

  /** Whatever triple comes up, honest holders are never blamed: this can be promised exactly when
      t = 1 or every holder is at its own position. */
  lemma HonestNeverBlamed(t: nat, keys: seq<KeyShare>, ps: seq<KiPresignature>, owners: seq<nat>, m: Scalar)
    requires t >= 1 && KiSet(ps, t) && SameOwners(keys, ps) && KeySet(keys, t) && |owners| == |ps|
    ensures (forall triple :: Positional(triple, |ps|, t) && OwnedBy(triple, owners) ==>
               !Signed(t, keys, ps, triple, m, NoFaults()).Abort?)
      <==> Aligned(t, Indices(ps), owners)
  {
    hide KiSet;
    hide KeySet;
    hide Positional;
    hide Signed;
    hide Differs;
    hide At;
    hide Cong;
    var ids := Indices(ps);
    if Aligned(t, ids, owners) {
      forall triple | Positional(triple, |ps|, t) && OwnedBy(triple, owners)
        ensures !Signed(t, keys, ps, triple, m, NoFaults()).Abort?
      {
        PositionalShape(triple, |ps|, t);
        assert Owners(triple, |ps|) == owners;
        AlignedAgrees(t, triple.pub.ca, ids, owners);
        AlignedAgrees(t, triple.pub.cb, ids, owners);
        AlignedAgrees(t, triple.pub.cc, ids, owners);
        HonestSession(t, keys, ps, triple, m);
      }
    } else {
      var triple := IdentityTriple(t, owners);
      IdentityTripleGood(t, owners);
      PositionalShape(triple, |ps|, t);
      assert Owners(triple, |ps|) == owners;
      HonestSession(t, keys, ps, triple, m);
      assert Signed(t, keys, ps, triple, m, NoFaults()).Abort?;
    }
  }

  lemma PositionalShape(t: Triple, count: nat, len: nat)
    requires Positional(t, count, len)
    ensures |t.shares| >= count && |t.pub.ca| == |t.pub.cb| == |t.pub.cc| == len
  {
  }

  /** Holders 2 and 3 of a presignature with t = 2, at the first two positions of a triple over
      1, 2, 3 with the identity as operand: both honest holders are blamed. */
  lemma SurvivorsBlamed(keys: seq<KeyShare>, ps: seq<KiPresignature>, m: Scalar)
    requires Q > 3 && |ps| == 2 && ps[0].index == 2 && ps[1].index == 3
    requires KiSet(ps, 2) && SameOwners(keys, ps) && KeySet(keys, 2)
    ensures var triple := IdentityTriple(2, [1, 2]);
      Positional(triple, 2, 2) && Signed(2, keys, ps, triple, m, NoFaults()).Abort?
      && forall j :: j in Signed(2, keys, ps, triple, m, NoFaults()).blamed <==> j == 2 || j == 3
  {
    hide KiSet;
    hide KeySet;
    hide Positional;
    hide Signed;
    hide Red;
    hide Eval;
    hide DiffersAt;
    hide Differs;
    var triple := IdentityTriple(2, [1, 2]);
    IdentityTripleGood(2, [1, 2]);
    PositionalShape(triple, 2, 2);
    IdentityDiffers();
    hide IdentityTriple;
    assert Indices(ps) == [2, 3] && Owners(triple, 2) == [1, 2];
    HonestSession(2, keys, ps, triple, m);
  }

  lemma IdentityDiffers()
    requires Q > 3
    ensures var com := IdentityTriple(2, [1, 2]).pub.ca;
      Differs(com, [2, 3], [1, 2]) && forall j :: DiffersAt(com, [2, 3], [1, 2], j) <==> j == 2 || j == 3
  {
    hide Red;
    hide Eval;
    var com := IdentityTriple(2, [1, 2]).pub.ca;
    forall x: Scalar
      ensures At(com, x) == x
    {
      IdentityAt(2, x);
      RedScalar(x);
    }
    var ids, owners: seq<nat> := [2, 3], [1, 2];
    assert owners[0] == 1 && owners[1] == 2 && ids[0] == 2 && ids[1] == 3;
  }

  /** The same holders with the operands 1 and 1 and the product 1 + x: both openings pass, and the
      combination blames them, unless r is 0. */
  lemma ProductsBlamed(keys: seq<KeyShare>, ps: seq<KiPresignature>, triple: Triple, m: Scalar)
    requires Q > 3 && |ps| == 2 && ps[0].index == 2 && ps[1].index == 3 && ps[0].r != 0
    requires KiSet(ps, 2) && SameOwners(keys, ps) && KeySet(keys, 2) && Positional(triple, 2, 2)
      && OwnedBy(triple, [1, 2])
    requires triple.pub == TriplePublic([1, 0], [1, 0], [1, 1])
    ensures Opened(2, keys, ps, triple, NoFaults()).Ok? && Signed(2, keys, ps, triple, m, NoFaults()).Abort?
  {
    hide KiSet;
    hide KeySet;
    hide Positional;
    hide Signed;
    hide Opened;
    hide Red;
    hide Eval;
    PositionalShape(triple, 2, 2);
    var ids, owners := Indices(ps), Owners(triple, 2);
    forall x: Scalar
      ensures At([1, 0], x) == 1 && (x < Q - 1 ==> At([1, 1], x) == 1 + x)
    {
      LineAt(x);
    }
    assert owners[0] == 1 && ids[0] == 2 && owners[1] == 2 && ids[1] == 3;
    HonestOpening(2, keys, ps, triple);
    HonestSession(2, keys, ps, triple, m);
  }

  lemma LineAt(x: Scalar)
    requires Q > 3
    ensures At([1, 0], x) == 1 && (x < Q - 1 ==> At([1, 1], x) == 1 + x)
  {
    var c, l: Poly := [1, 0], [1, 1];
    assert c[1..] == [0] && l[1..] == [1] && c[1..][1..] == [] && l[1..][1..] == [];
    MulIs(x, 0);
    MulIs(x, 1);
    assert Eval(c[1..], x) == 0 && Eval(l[1..], x) == 1;
    RedScalar(1);
    if x < Q - 1 {
      RedScalar(1 + x);
    }
  }
}
