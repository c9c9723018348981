/** From the first dealing message to a verified signature (src/protocol/presign.rs,
    src/protocol/sign.rs, src/runtime/sim.rs). */
module EndToEnd {
  import opened Field
  import opened Polynomials
  import opened Shamir
  import opened Vss
  import opened Lagrange
  import opened Outcomes
  import opened Committees
  import opened IdLists
  import opened Bytes
  import opened Dkg
  import opened Triples
  import opened Broadcasts
  import opened Sign
  import opened Keys
  import opened Presign
  import opened KeyBinding
  import opened KiSigning
  import PresignPacked
  import Opening
  import PresignRobust
  import Refresh
  import Beaver
  import Ecdsa

  // ---------------------------------------------------------------- key generation

  function KeySession(sid: bytes, t: nat): Session {
    Session(sid, DKG_COMMIT, 1, t)
  }

  /** `run_keygen`: key shares on one commitment, whose constant is the joint key. */
  method KeyGen(c: Committee, sid: bytes, d: Dealing) returns (r: Outcome<seq<KeyShare>>)
    requires c.Valid() && FromCommittee(c.ids, KeySession(sid, c.t), d)
    ensures r.Ok? || r.Abort? || r.InvalidParams?
    ensures r.Ok? <==> Accepted(c.ids, KeySession(sid, c.t), d)
    ensures r.InvalidParams? ==> SomethingMissing(c.ids, d)
    ensures r.Abort? ==>
      exists me ::
        me in c.ids && me in d.shares && me in d.defenses
        && FirstFault(c.ids, KeySession(sid, c.t), InboxOf(d, me), me, r.blamed)
    ensures r.Ok? ==> KeySet(r.value, c.t) && Matches(c.ids, r.value)
    ensures r.Ok? ==> forall k :: 0 <= k < |c.ids| ==> c.ids[k] in d.r2 && 0 < |d.r2[c.ids[k]]|
    ensures r.Ok? ==> PublicKey(r.value) == At(JointCom(c.ids, d.r2, 0), 0)
  {
    hide Accepted;
    hide FirstFault;
    hide SomethingMissing;
    hide FromCommittee;
    hide VerifyShare;
    hide At;
    var z := KeySession(sid, c.t);
    var joint := JointDeal(c, z, d);
    if !joint.Ok? {
      return if joint.Abort? then Abort(joint.blamed) else InvalidParams;
    }
    var s := joint.value[0];
    assert Established(c.ids, z, d, 0, s);
    return Ok(seq(|c.ids|, k requires 0 <= k < |c.ids| => KeyShare(c.ids[k], s.shares[k], s.com)));
  }

  // ---------------------------------------------------------------- dealing and presigning

  /** Every message of the dealing phases of one presign session. */
  datatype Dealings = Dealings(t1: Run, t2: Run, u: Dealing, a: Dealing)

  function USession(sid: bytes, t: nat): Session {
    Session(sid + Ascii("/u"), DKG_COMMIT, 1, t)
  }

  function ASession(sid: bytes, t: nat): Session {
    Session(sid + Ascii("/a"), DKG_COMMIT, 1, t)
  }

  ghost predicate DealingsPlausible(c: Committee, sid: bytes, d: Dealings) {
    && RunPlausible(c, sid + Ascii("/t1"), d.t1) && RunPlausible(c, sid + Ascii("/t2"), d.t2)
    && FromCommittee(c.ids, USession(sid, c.t), d.u) && FromCommittee(c.ids, ASession(sid, c.t), d.a)
  }

  /** Everybody outside `bad` follows the protocol in every dealing. */
  ghost predicate DealingsBehaved(c: Committee, sid: bytes, d: Dealings, bad: set<nat>) {
    && RunBehaved(c, sid + Ascii("/t1"), d.t1, bad) && RunBehaved(c, sid + Ascii("/t2"), d.t2, bad)
    && Behaved(c.ids, USession(sid, c.t), d.u, bad) && Behaved(c.ids, ASession(sid, c.t), d.a, bad)
  }

  /** Blame is earned: an abort names somebody, and only members of `bad`. */
  ghost predicate Fair<T>(r: Outcome<T>, bad: set<nat>) {
    r.Abort? ==> r.blamed != [] && Members(r.blamed) <= bad
  }

  /** The ingredients that accepted dealings leave behind. */
  datatype Dealt = Dealt(t1: Triple, t2: Triple, u: Sharing, a: Sharing)

  ghost predicate GoodDealt(c: Committee, d: Dealt) {
    Ingredients(c.ids, c.t, d.u, d.a, d.t1, d.t2) && Multiplicative(d.t1.pub, 0) && Multiplicative(d.t2.pub, 0)
  }

  /** Every member revealed the polynomial for index b. */
  ghost predicate Reveals(ids: seq<nat>, d: Dealing, b: nat) {
    forall k :: 0 <= k < |ids| ==> ids[k] in d.r2 && b < |d.r2[ids[k]]|
  }

  /** The sum of the revealed polynomials for index b, at e. */
  ghost function RevealedAt(ids: seq<nat>, d: Dealing, b: nat, e: int): Scalar
    requires Reveals(ids, d, b)
  {
    At(JointCom(ids, d.r2, b), e)
  }

  /** How a run ends that gets past the adversary, by the dealt u and a alone: without a nonce if
      there is none; otherwise with a low signature for that nonce exactly when m + r * key is not
      zero. */
  ghost predicate Explained(r: Outcome<(Scalar, Scalar)>, u: Scalar, a: Scalar, m: Scalar, key: Scalar) {
    && (r.ZeroValue? ==> ZeroNonce(u, a))
    && (r.Ok? || r.BadSignature? ==>
         !ZeroNonce(u, a) && u != 0 && (r.Ok? <==> Signable(Ecdsa.F(Inv(u)), m, key)))
    && (r.Ok? ==> u != 0 && r.value.0 == Ecdsa.F(Inv(u)) && 2 * r.value.1 <= Q)
  }

  /** The same in terms of two dealing sessions. */
  ghost predicate ExplainedBy(r: Outcome<(Scalar, Scalar)>, ids: seq<nat>, du: Dealing, da: Dealing, m: Scalar,
                              key: Scalar) {
    r.Ok? || r.ZeroValue? || r.BadSignature? ==>
      && Reveals(ids, du, 0) && Reveals(ids, da, 0)
      && Explained(r, RevealedAt(ids, du, 0, 0), RevealedAt(ids, da, 0, 0), m, key)
  }

  /** With usable dealings and message, an honest run signs. */
  lemma ExplainedSigns(r: Outcome<(Scalar, Scalar)>, ids: seq<nat>, du: Dealing, da: Dealing, m: Scalar, key: Scalar)
    requires ExplainedBy(r, ids, du, da, m, key) && (r.Ok? || r.ZeroValue? || r.BadSignature?)
    ensures Reveals(ids, du, 0) && Reveals(ids, da, 0)
    ensures var u, a := RevealedAt(ids, du, 0, 0), RevealedAt(ids, da, 0, 0);
      && (r.ZeroValue? <==> ZeroNonce(u, a))
      && (r.Ok? <==> !ZeroNonce(u, a) && u != 0 && Signable(Ecdsa.F(Inv(u)), m, key))
  {
    hide At;
    hide Inv;
    hide JointCom;
  }

  /** The dealing phases: two triples, then u and a. */
  method Deal(c: Committee, sid: bytes, d: Dealings, ghost bad: set<nat>) returns (r: Outcome<Dealt>)
    requires c.Valid() && DealingsPlausible(c, sid, d)
    ensures r.Ok? || r.Abort? || r.InvalidParams?
    ensures r.Ok? ==> GoodDealt(c, r.value)
    ensures r.Ok? ==> Established(c.ids, USession(sid, c.t), d.u, 0, r.value.u)
    ensures r.Ok? ==> Established(c.ids, ASession(sid, c.t), d.a, 0, r.value.a)
    ensures DealingsBehaved(c, sid, d, bad) ==> Fair(r, bad) && (bad == {} ==> r.Ok?)
  {
    hide RunPlausible;
    hide FromCommittee;
    hide Behaved;
    hide RunBehaved;
    hide FirstFault;
    hide Accepted;
    hide WellShared;
    hide Multiplicative;
    hide VerifyShare;
    IdsDistinct(c);
    var t1 := GenerateRun(c, sid + Ascii("/t1"), d.t1, bad);
    if !t1.Ok? {
      return if t1.Abort? then Abort(t1.blamed) else InvalidParams;
    }
    var t2 := GenerateRun(c, sid + Ascii("/t2"), d.t2, bad);
    if !t2.Ok? {
      return if t2.Abort? then Abort(t2.blamed) else InvalidParams;
    }
    var u := JointDeal(c, USession(sid, c.t), d.u);
    DealingBlame(c, USession(sid, c.t), d.u, bad, u);
    if !u.Ok? {
      return if u.Abort? then Abort(u.blamed) else InvalidParams;
    }
    var a := JointDeal(c, ASession(sid, c.t), d.a);
    DealingBlame(c, ASession(sid, c.t), d.a, bad, a);
    if !a.Ok? {
      return if a.Abort? then Abort(a.blamed) else InvalidParams;
    }
    assert Established(c.ids, USession(sid, c.t), d.u, 0, u.value[0]);
    assert Established(c.ids, ASession(sid, c.t), d.a, 0, a.value[0]);
    return Ok(Dealt(t1.value, t2.value, u.value[0], a.value[0]));
  }

  // ---------------------------------------------------------------- signers

  /** Any distinct holders of one presignature can sign with it. */
  ghost predicate Signers(ps: seq<Presignature>, qs: seq<Presignature>) {
    && qs != [] && (forall q :: q in qs ==> q in ps)
    && forall i, j :: 0 <= i < j < |qs| ==> qs[i].index != qs[j].index
  }

  lemma SignersHold(ps: seq<Presignature>, qs: seq<Presignature>, e: int, x: Scalar)
    requires RecordSet(ps) && Signers(ps, qs)
    ensures RecordSet(qs) && |qs[0].uCom| == |ps[0].uCom| && |qs[0].zCom| == |ps[0].zCom|
    ensures Bound(ps[0], e, x) ==> Bound(qs[0], e, x)
  {
    hide RecordOk;
    hide Bound;
    hide Red;
    forall k | 0 <= k < |qs|
      ensures SameMeta(qs[k], ps[0]) && RecordOk(qs[k])
    {
      assert qs[k] in ps;
    }
    forall i, j | 0 <= i < j < |qs|
      ensures !Cong(qs[i].index, qs[j].index)
    {
      var p, q := PositionOf(ps, qs[i]), PositionOf(ps, qs[j]);
      if p < q {
        assert !Cong(ps[p].index, ps[q].index);
      } else {
        assert !Cong(ps[q].index, ps[p].index);
      }
    }
    SameBound(ps[0], qs[0], e, x);
  }

  lemma SignersNonce(ps: seq<Presignature>, taus: seq<Scalar>, qs: seq<Presignature>)
    requires RecordSet(ps) && Signers(TweakedSet(ps, taus), qs)
    ensures qs[0].r == ps[0].r
  {
    hide RecordOk;
    hide Bound;
    hide Cong;
    assert qs[0] in TweakedSet(ps, taus);
    var k :| 0 <= k < |ps| && TweakedSet(ps, taus)[k] == qs[0];
    TweaksKeep(ps[k], taus, 0, 0);
    assert SameMeta(ps[k], ps[0]);
  }

  lemma SameBound(p: Presignature, q: Presignature, e: int, x: Scalar)
    requires SameMeta(p, q)
    ensures Bound(p, e, x) ==> Bound(q, e, x)
  {
  }

  /** Signing with any holders of a presignature, after any tweaks: what comes out verifies under
      the child key; short of cheating and of a zero signature, t holders always succeed. */
  method SignWith(quorum: nat, e: int, ghost x: Scalar, ghost ps: seq<Presignature>, qs: seq<Presignature>,
                  ghost taus: seq<Scalar>,
                  m: Scalar, fake: Faults, ghost bad: set<nat>)
    returns (r: Outcome<(Scalar, Scalar)>)
    requires RecordSet(ps) && |ps[0].uCom| == |ps[0].zCom| <= quorum && Bound(ps[0], e, x)
    requires Signers(TweakedSet(ps, taus), qs)
    ensures r.Ok? ==> Ecdsa.Verify(Child(x, taus), m, r.value.0, r.value.1)
    ensures r.Ok? || r.Abort? || r.NotEnoughShares? || r.BadSignature?
    ensures fake.Keys <= bad ==> Fair(r, bad)
    ensures r.NotEnoughShares? ==> |qs| < quorum
    ensures fake == map[] ==> if |qs| < quorum then r.NotEnoughShares? else r.Ok? || r.BadSignature?
    ensures r.Ok? || r.BadSignature? ==> (r.Ok? <==> Signable(ps[0].r, m, Child(x, taus)))
    ensures r.Ok? ==> r.value.0 == ps[0].r && 2 * r.value.1 <= Q
  {
    hide Signable;
    hide RecordSet;
    hide Bound;
    hide Ecdsa.Verify;
    hide TweakedSet;
    hide SignCom;
    hide Lied;
    hide At;
    TweakedSetSigns(ps, taus, e, x);
    SignersHold(TweakedSet(ps, taus), qs, e, Child(x, taus));
    SignersNonce(ps, taus, qs);
    LiarsFaked(qs, m, fake);
    r := RunSign(quorum, e, qs, m, fake);
    assert r.Abort? ==> forall j :: j in r.blamed ==> j in fake.Keys;
  }

  // ---------------------------------------------------------------- whole runs

  /** Nobody outside `bad` replaces a value in any broadcast round of presigning or signing. */
  ghost predicate Within(f: PresignFaults, fake: Faults, bad: set<nat>) {
    && f.delta.Keys <= bad && f.eps.Keys <= bad && f.v.Keys <= bad && f.nonce.Keys <= bad && f.d2.Keys <= bad
    && f.e2.Keys <= bad
    && fake.Keys <= bad
  }

  /** Base mode: dealing, presigning, tweaks and signing.  The holders' records are tweaked in
      place (class Holder) before they sign; here that is the map over the records. */
  method BaseRun(c: Committee, sid: bytes, keys: seq<KeyShare>, id: nat, d: Dealings, f: PresignFaults,
                 taus: seq<Scalar>,
                 m: Scalar, fake: Faults, ghost bad: set<nat>)
    returns (r: Outcome<(Scalar, Scalar)>)
    requires c.Valid() && DealingsPlausible(c, sid, d)
    requires Matches(c.ids, keys) ==> KeySet(keys, c.t)
    ensures r.Ok? ==> keys != [] && Ecdsa.Verify(Child(PublicKey(keys), taus), m, r.value.0, r.value.1)
    ensures !Matches(c.ids, keys) ==> r.InvalidParams?
    ensures !r.NotEnoughShares?
    ensures DealingsBehaved(c, sid, d, bad) && Within(f, fake, bad) ==>
      Fair(r, bad) && (bad == {} && Matches(c.ids, keys) ==> r.Ok? || r.ZeroValue? || r.BadSignature?)
    ensures Matches(c.ids, keys) ==> keys != [] && ExplainedBy(r, c.ids, d.u, d.a, m, Child(PublicKey(keys), taus))
  {
    hide DealingsPlausible;
    hide DealingsBehaved;
    hide GoodDealt;
    hide Established;
    hide ZeroNonce;
    hide Signable;
    hide JointCom;
    hide Reveals;
    hide Inv;
    hide KeySet;
    hide RecordSet;
    hide Bound;
    hide Ecdsa.Verify;
    hide At;
    var matches := CheckInputs(c.ids, keys);
    if !matches {
      return InvalidParams;
    }
    var dealt := Deal(c, sid, d, bad);
    if !dealt.Ok? {
      return if dealt.Abort? then Abort(dealt.blamed) else InvalidParams;
    }
    ghost var g := dealt.value;
    EstablishedAt(c.ids, USession(sid, c.t), d.u, 0, g.u, 0);
    EstablishedAt(c.ids, ASession(sid, c.t), d.a, 0, g.a, 0);
    var ps := PresignFrom(c, keys, id, dealt.value, f, fake, bad);
    if !ps.Ok? {
      return if ps.Abort? then Abort(ps.blamed) else ZeroValue;
    }
    var qs := seq(|ps.value|, k requires 0 <= k < |ps.value| => TweakedAll(ps.value[k], taus));
    assert qs == TweakedSet(ps.value, taus);
    AllSign(ps.value, taus);
    r := SignWith(c.t, 0, PublicKey(keys), ps.value, qs, taus, m, fake, bad);
  }

  lemma EstablishedAt(ids: seq<nat>, z: Session, d: Dealing, b: nat, s: Sharing, e: int)
    requires Established(ids, z, d, b, s)
    ensures Reveals(ids, d, b) && At(s.com, e) == RevealedAt(ids, d, b, e)
  {
    hide JointCom;
    hide Shared;
  }

  /** The presigning rounds. */
  method PresignFrom(c: Committee, keys: seq<KeyShare>, id: nat, g: Dealt, f: PresignFaults, ghost fake: Faults,
                     ghost bad: set<nat>)
    returns (r: Outcome<seq<Presignature>>)
    requires c.Valid() && GoodDealt(c, g) && Matches(c.ids, keys) && KeySet(keys, c.t)
    ensures r.Ok? || r.Abort? || r.ZeroValue?
    ensures r.Ok? ==>
      RecordSet(r.value) && |r.value[0].uCom| == |r.value[0].zCom| == c.t && Bound(r.value[0], 0, PublicKey(keys))
    ensures r.Ok? ==> |r.value| == |c.ids|
    ensures Within(f, fake, bad) ==> Fair(r, bad) && (bad == {} ==> !r.Abort?)
    ensures r.ZeroValue? ==> ZeroNonce(At(g.u.com, 0), At(g.a.com, 0))
    ensures r.Ok? ==>
      !ZeroNonce(At(g.u.com, 0), At(g.a.com, 0)) && At(g.u.com, 0) != 0
      && r.value[0].r == Ecdsa.F(Inv(At(g.u.com, 0)))
  {
    hide ZeroNonce;
    hide Inv;
    hide Within;
    hide WellShared;
    hide VerifyShare;
    hide Multiplicative;
    hide RecordSet;
    hide Bound;
    hide NamesCheaters;
    hide NoneCheats;
    hide At;
    hide Ideal;
    NonEmpty(c.ids, c.t, g.u, g.a, g.t1, g.t2);
    ghost var x := ContextOf(0, g.u, g.a, keys[0].com, g.t1, g.t2);
    r := Presign.WithCommittee(c, keys, id, g.u, g.a, g.t1, g.t2, f);
    if r.Abort? {
      NamesWithin(x, f, fake, c.ids, r.blamed, bad);
    } else if r.Ok? {
      PresignRobust.IdealIndices(id, c.ids, x, g.u, g.t2);
    }
  }

  /** Named cheaters are among those that replace values. */
  lemma NamesWithin(x: Context, f: PresignFaults, fake: Faults, ids: seq<nat>, blamed: seq<nat>, bad: set<nat>)
    requires x.pub1.cc != [] && x.pub2.cc != [] && NamesCheaters(x, f, ids, blamed)
    ensures blamed != [] && Members(blamed) != {} && (Within(f, fake, bad) ==> Members(blamed) <= bad)
  {
    assert blamed[0] in Members(blamed);
    hide VerifyShare;
    hide Beaver.MaskCom;
    hide Beaver.ProductCom;
  }

  lemma AllSign(ps: seq<Presignature>, taus: seq<Scalar>)
    requires RecordSet(ps)
    ensures Signers(TweakedSet(ps, taus), TweakedSet(ps, taus))
  {
    hide RecordOk;
    hide TweakedAll;
    hide Bound;
    hide Red;
    var qs := TweakedSet(ps, taus);
    forall i, j | 0 <= i < j < |qs|
      ensures qs[i].index != qs[j].index
    {
      TweaksKeep(ps[i], taus, 0, 0);
      TweaksKeep(ps[j], taus, 0, 0);
      assert !Cong(ps[i].index, ps[j].index);
    }
  }

  /** After any chain of refreshes and re-sharings, whatever the current committee signs still
      verifies under the first epoch's key (or its child). */
  method EpochRun(committees: seq<Committee>, epochs: seq<seq<KeyShare>>, ghost steps: seq<Refresh.Maintenance>, i: nat,
                  sid: bytes, id: nat, d: Dealings, f: PresignFaults, taus: seq<Scalar>, m: Scalar, fake: Faults,
                  ghost bad: set<nat>)
    returns (r: Outcome<(Scalar, Scalar)>)
    requires Refresh.History(committees, epochs, steps) && i < |epochs| && DealingsPlausible(committees[i], sid, d)
    ensures r.Ok? ==> epochs[0] != [] && Ecdsa.Verify(Child(PublicKey(epochs[0]), taus), m, r.value.0, r.value.1)
    ensures DealingsBehaved(committees[i], sid, d, bad) && Within(f, fake, bad) ==>
      Fair(r, bad) && (bad == {} ==> r.Ok? || r.ZeroValue? || r.BadSignature?)
    ensures epochs[0] != [] && ExplainedBy(r, committees[i].ids, d.u, d.a, m, Child(PublicKey(epochs[0]), taus))
  {
    hide ExplainedBy;
    hide Refresh.Succeeds;
    hide DealingsPlausible;
    hide DealingsBehaved;
    hide Within;
    hide KeySet;
    hide Ecdsa.Verify;
    hide At;
    Refresh.HistoryKeepsKey(committees, epochs, steps, i);
    r := BaseRun(committees[i], sid, epochs[i], id, d, f, taus, m, fake, bad);
  }

  // ---------------------------------------------------------------- guaranteed delivery

  /** Robust presigning and then robust signing by its survivors.  With at most n - t corrupt
      members nothing they broadcast after dealing can stop a signature, and only they are named. */
  method RobustFrom(c: Committee, keys: seq<KeyShare>, id: nat, d: Dealt, f: PresignFaults, m: Scalar, fake: Faults)
    returns (r: Outcome<((Scalar, Scalar), seq<nat>)>)
    requires c.Valid() && GoodDealt(c, d)
    requires Matches(c.ids, keys) ==> KeySet(keys, c.t)
    ensures r.Ok? || r.NotEnoughShares? || r.ZeroValue? || r.BadSignature? || r.InvalidParams?
    ensures r.InvalidParams? <==> !Matches(c.ids, keys)
    ensures r.NotEnoughShares? ==> forall bad :: Within(f, fake, bad) ==> |bad| > |c.ids| - c.t
    ensures r.Ok? ==> keys != [] && Ecdsa.Verify(PublicKey(keys), m, r.value.0.0, r.value.0.1)
    ensures r.Ok? ==> forall bad :: Within(f, fake, bad) ==> Members(r.value.1) <= bad
    ensures !r.InvalidParams? ==>
      keys != [] && Explained(Signature(r), At(d.u.com, 0), At(d.a.com, 0), m, PublicKey(keys))
  {
    hide ZeroNonce;
    hide Signable;
    hide Inv;
    hide WellShared;
    hide VerifyShare;
    hide Multiplicative;
    hide KeySet;
    hide RecordSet;
    hide Bound;
    hide PresignRobust.RobustResult;
    hide PresignRobust.CheatingMembers;
    hide PresignRobust.Enough;
    hide Ecdsa.Verify;
    hide Within;
    hide At;
    hide Ideal;
    hide Liars;
    hide SignCom;
    NonEmpty(c.ids, c.t, d.u, d.a, d.t1, d.t2);
    var ps := PresignRobust.WithCommittee(c, keys, id, d.u, d.a, d.t1, d.t2, f);
    if ps.InvalidParams? {
      return InvalidParams;
    }
    ghost var x := ContextOf(0, d.u, d.a, keys[0].com, d.t1, d.t2);
    RobustNonce(c, id, d, x);
    if ps.ZeroValue? {
      return ZeroValue;
    }
    if ps.NotEnoughShares? {
      ManyCheat(c, x, f, fake);
      return NotEnoughShares(ps.got, ps.need);
    }
    var records, blamed := ps.value.0, ps.value.1;
    PresignRobust.IdealIndices(id, c.ids, x, d.u, d.t2);
    SurvivorsSign(c, keys, id, d, x, f, m, fake, records, blamed);
    if records == [] {
      return NotEnoughShares(0, c.t);
    }
    SurvivorNonce(c, id, d, x, f, records, blamed);
    var s := RunSignRobust(c.t, records, m, fake);
    if !s.Ok? {
      return if s.NotEnoughShares? then NotEnoughShares(s.got, s.need) else BadSignature;
    }
    assert Members(blamed + s.value.1) == Members(blamed) + Members(s.value.1);
    return Ok((s.value.0, blamed + s.value.1));
  }

  /** The signature part of a robust outcome. */
  ghost function Signature(r: Outcome<((Scalar, Scalar), seq<nat>)>): Outcome<(Scalar, Scalar)> {
    match r
    case Ok(v) => Ok(v.0)
    case Abort(blamed) => Abort(blamed)
    case NotEnoughShares(got, need) => NotEnoughShares(got, need)
    case ZeroValue => ZeroValue
    case InvalidParams => InvalidParams
    case BadSignature => BadSignature
  }

  lemma RobustNonce(c: Committee, id: nat, d: Dealt, x: Context)
    requires c.Valid() && GoodDealt(c, d) && x.pub1.cc != [] && x.pub2.cc != [] && x.e == 0
    requires x.uCom == d.u.com && x.aCom == d.a.com && x.pub1 == d.t1.pub && x.pub2 == d.t2.pub
    ensures |d.u.shares| == |d.t2.shares| == |c.ids|
    ensures var u, a, r := At(d.u.com, 0), At(d.a.com, 0), Ideal(id, c.ids, x, d.u, d.t2);
      && (r.ZeroValue? <==> ZeroNonce(u, a)) && (r.Ok? <==> !ZeroNonce(u, a))
      && (r.Ok? ==> u != 0 && Numbered(r.value, id, c.ids, Inv(u)))
  {
    hide Ideal;
    hide VerifyShare;
    hide Multiplicative;
    hide ZeroNonce;
    hide Numbered;
    hide Inv;
    hide At;
    MultipliesAt(d.t1.pub, d.t2.pub, x);
    NonEmpty(c.ids, c.t, d.u, d.a, d.t1, d.t2);
    IdealExactly(id, c.ids, x, d.u, d.t2);
  }

  lemma MultipliesAt(p: TriplePublic, q: TriplePublic, x: Context)
    requires Multiplicative(p, 0) && Multiplicative(q, 0) && x.pub1 == p && x.pub2 == q && x.e == 0
    ensures x.Multiplies()
  {
    hide Multiplicative;
  }

  lemma SurvivorNonce(c: Committee, id: nat, d: Dealt, x: Context, f: PresignFaults, records: seq<Presignature>,
                      blamed: seq<nat>)
    requires x.pub1.cc != [] && x.pub2.cc != [] && |d.u.shares| == |d.t2.shares| == |c.ids| && records != []
    requires Ideal(id, c.ids, x, d.u, d.t2).Ok? && At(d.u.com, 0) != 0
    requires Numbered(Ideal(id, c.ids, x, d.u, d.t2).value, id, c.ids, Inv(At(d.u.com, 0)))
    requires PresignRobust.RobustResult(c.ids, PresignRobust.CheatingMembers(x, f, c.ids),
                                        Ideal(id, c.ids, x, d.u, d.t2).value, records, blamed)
    ensures records[0].r == Ecdsa.F(Inv(At(d.u.com, 0)))
  {
    hide Ideal;
    hide PresignRobust.CheatingMembers;
    hide Remaining;
    hide Inv;
    hide At;
  }

  /** The robust run from its first message.  Dealing stops at the first fault and names who caused
      it; after dealing at most n - t corrupt members cannot stop a signature, and only they are
      ever named. */
  method RobustRun(c: Committee, sid: bytes, keys: seq<KeyShare>, id: nat, d: Dealings, f: PresignFaults, m: Scalar,
                   fake: Faults, ghost bad: set<nat>)
    returns (r: Outcome<((Scalar, Scalar), seq<nat>)>)
    requires c.Valid() && DealingsPlausible(c, sid, d)
    requires Matches(c.ids, keys) ==> KeySet(keys, c.t)
    ensures !Matches(c.ids, keys) ==> r.InvalidParams?
    ensures r.Ok? ==> keys != [] && Ecdsa.Verify(PublicKey(keys), m, r.value.0.0, r.value.0.1)
    ensures DealingsBehaved(c, sid, d, bad) && Within(f, fake, bad) ==>
      Fair(r, bad) && (r.Ok? ==> Members(r.value.1) <= bad) && (r.NotEnoughShares? ==> |bad| > |c.ids| - c.t)
      && (bad == {} && Matches(c.ids, keys) ==> r.Ok? || r.ZeroValue? || r.BadSignature?)
    ensures Matches(c.ids, keys) ==> keys != [] && ExplainedBy(Signature(r), c.ids, d.u, d.a, m, PublicKey(keys))
  {
    hide ZeroNonce;
    hide Signable;
    hide JointCom;
    hide Reveals;
    hide Inv;
    hide DealingsPlausible;
    hide DealingsBehaved;
    hide GoodDealt;
    hide Established;
    hide KeySet;
    hide Within;
    hide Ecdsa.Verify;
    hide At;
    var matches := CheckInputs(c.ids, keys);
    if !matches {
      return InvalidParams;
    }
    var g := Deal(c, sid, d, bad);
    if !g.Ok? {
      return if g.Abort? then Abort(g.blamed) else InvalidParams;
    }
    EstablishedAt(c.ids, USession(sid, c.t), d.u, 0, g.value.u, 0);
    EstablishedAt(c.ids, ASession(sid, c.t), d.a, 0, g.value.a, 0);
    r := RobustFrom(c, keys, id, g.value, f, m, fake);
  }

  lemma ManyCheat(c: Committee, x: Context, f: PresignFaults, fake: Faults)
    requires c.Valid() && x.pub1.cc != [] && x.pub2.cc != [] && !PresignRobust.Enough(c, x, f)
    ensures forall bad :: Within(f, fake, bad) ==> |bad| > |c.ids| - c.t
  {
    hide PresignRobust.Enough;
    hide PresignRobust.CheatingMembers;
    hide Within;
    forall bad | Within(f, fake, bad)
      ensures |bad| > |c.ids| - c.t
    {
      CheatersWithin(x, f, fake, c.ids, bad);
      SubsetSize(PresignRobust.CheatingMembers(x, f, c.ids), bad);
      if |bad| <= |c.ids| - c.t {
        PresignRobust.FewCheaters(c, x, f);
      }
    }
  }

  lemma CheatersWithin(x: Context, f: PresignFaults, fake: Faults, ids: seq<nat>, bad: set<nat>)
    requires x.pub1.cc != [] && x.pub2.cc != [] && Within(f, fake, bad)
    ensures PresignRobust.CheatingMembers(x, f, ids) <= bad
  {
    hide VerifyShare;
    hide Beaver.MaskCom;
    hide Beaver.ProductCom;
  }

  /** The survivors hold a presignature of the key, and are t truthful ones if few are corrupt. */
  lemma SurvivorsSign(c: Committee, keys: seq<KeyShare>, id: nat, d: Dealt, x: Context, f: PresignFaults, m: Scalar,
                      fake: Faults,
                      records: seq<Presignature>, blamed: seq<nat>)
    requires c.Valid() && GoodDealt(c, d) && Matches(c.ids, keys) && KeySet(keys, c.t) && keys != []
    requires x == ContextOf(0, d.u, d.a, keys[0].com, d.t1, d.t2) && x.pub1.cc != [] && x.pub2.cc != []
    requires |d.u.shares| == |d.t2.shares| == |c.ids| && Ideal(id, c.ids, x, d.u, d.t2).Ok?
    requires |Ideal(id, c.ids, x, d.u, d.t2).value| == |c.ids|
    requires PresignRobust.RobustResult(c.ids, PresignRobust.CheatingMembers(x, f, c.ids),
                                        Ideal(id, c.ids, x, d.u, d.t2).value, records, blamed)
    ensures records != [] ==>
      RecordSet(records) && |records[0].uCom| == |records[0].zCom| == c.t && Bound(records[0], 0, PublicKey(keys))
    ensures forall bad :: Within(f, fake, bad) ==>
      Members(blamed) <= bad && Liars(records, m, fake) <= bad
      && (|bad| <= |c.ids| - c.t ==> records != [] && |records| - |Liars(records, m, fake)| >= c.t)
  {
    hide VerifyShare;
    hide Shared;
    hide WellShared;
    hide Multiplicative;
    hide KeySet;
    hide RecordSet;
    hide Bound;
    hide PresignRobust.CheatingMembers;
    hide Within;
    hide Remaining;
    hide Ideal;
    hide Liars;
    hide At;
    var cheating := PresignRobust.CheatingMembers(x, f, c.ids);
    NonEmpty(c.ids, c.t, d.u, d.a, d.t1, d.t2);
    KeySideShared(c.ids, keys, c.t);
    if records != [] {
      PresignRobust.RobustIsPresignature(id, c.ids, x, d.u, d.t2, c.t, cheating, records, blamed);
    }
    LiarsFake(records, m, fake, blamed);
    RemainingCount(c.ids, cheating);
    forall bad | Within(f, fake, bad)
      ensures Members(blamed) <= bad && Liars(records, m, fake) <= bad
      ensures |records| - |Liars(records, m, fake)| >= |c.ids| - |bad|
    {
      CheatersWithin(x, f, fake, c.ids, bad);
      LiarsWithin(records, f, m, fake, bad);
      SubsetSize(cheating + Liars(records, m, fake), bad);
    }
  }

  lemma LiarsFake(records: seq<Presignature>, m: Scalar, fake: Faults, blamed: seq<nat>)
    requires forall p :: p in records ==> p.index !in blamed
    ensures Members(blamed) !! Liars(records, m, fake)
  {
    hide Lied;
  }

  lemma LiarsWithin(records: seq<Presignature>, f: PresignFaults, m: Scalar, fake: Faults, bad: set<nat>)
    requires Within(f, fake, bad)
    ensures Liars(records, m, fake) <= bad
  {
    hide SignShare;
  }

  // ---------------------------------------------------------------- re-randomised signing

  /** `run_sign_rerand`: signing with nonce gamma * k, for any nonzero gamma and any tweak. */
  method RerandRun(t: nat, ghost x: Scalar, ps: seq<Presignature>, m: Scalar, gamma: Scalar, w: MaybeTweak,
                   fake: Faults)
    returns (r: Outcome<(Scalar, Scalar)>)
    requires RecordSet(ps) && |ps[0].uCom| == |ps[0].zCom| <= t && Bound(ps[0], 0, x) && gamma != 0
    ensures r.Ok? ==> Ecdsa.Verify(MaybeChild(x, w), m, r.value.0, r.value.1)
    ensures r.Ok? ==> r.value.0 == Ecdsa.F(Times(ps[0].bigR, gamma))
    ensures r.Abort? ==> forall j :: j in r.blamed ==> j in fake
    ensures fake == map[] ==> if |ps| < t then r.NotEnoughShares? else r.Ok? || r.BadSignature?
    ensures r.Ok? || r.BadSignature? ==> (r.Ok? <==> Signable(Ecdsa.F(Times(ps[0].bigR, gamma)), m, MaybeChild(x, w)))
    ensures r.Ok? ==> 2 * r.value.1 <= Q
  {
    hide Signable;
    hide RecordOk;
    hide Cong;
    hide Bound;
    hide Ecdsa.Verify;
    hide SignCom;
    hide Lied;
    hide At;
    hide WithNonce;
    hide MaybeTweaked;
    hide Broadcast;
    ghost var qs := seq(|ps|, k requires 0 <= k < |ps| => WithNonce(MaybeTweaked(ps[k], w), gamma));
    RerandSet(ps, qs, gamma, w, x);
    var shares := RerandShares(ps, qs, m, gamma, w, fake);
    BroadcastDistinct(qs, m, fake);
    LiarsExactly(qs, m, fake);
    LiarsFaked(qs, m, fake);
    Opening.DistinctFirst(t, SignCom(qs[0].uCom, qs[0].zCom, m, qs[0].r), shares);
    var c := CombineRerand(t, ps[0], m, gamma, w, shares);
    if !c.Ok? {
      return c;
    }
    FinishedLow(c.value.0, c.value.1);
    SignableExactly(qs[0], 0, MaybeChild(x, w), m);
    r := Finished(c.value.0, c.value.1);
    if r.Ok? {
      SignatureValid(qs[0], 0, MaybeChild(x, w), m);
    }
  }

  method RerandShares(ps: seq<Presignature>, ghost qs: seq<Presignature>, m: Scalar, gamma: Scalar, w: MaybeTweak,
                      fake: Faults)
    returns (shares: seq<Opening.Share>)
    requires gamma != 0 && |qs| == |ps| && forall k :: 0 <= k < |ps| ==>
      qs[k] == WithNonce(MaybeTweaked(ps[k], w), gamma)
    requires forall k :: 0 <= k < |ps| ==> qs[k].index == ps[k].index
    ensures shares == Broadcast(qs, m, fake)
  {
    hide WithNonce;
    hide SignShareRerand;
    hide SignShare;
    shares := seq(|ps|, k requires 0 <= k < |ps| =>
      if ps[k].index in fake then Opening.Share(ps[k].index, fake[ps[k].index])
      else SignShareRerand(ps[k], m, gamma, w));
    forall k | 0 <= k < |ps|
      ensures shares[k] == Broadcast(qs, m, fake)[k]
    {
      RerandIsTweakThenScale(ps[k], m, gamma, w);
    }
    assert shares == Broadcast(qs, m, fake);
  }

  lemma RerandSet(ps: seq<Presignature>, qs: seq<Presignature>, gamma: Scalar, w: MaybeTweak, x: Scalar)
    requires RecordSet(ps) && |ps[0].uCom| == |ps[0].zCom| && Bound(ps[0], 0, x) && gamma != 0
    requires |qs| == |ps| && forall k :: 0 <= k < |ps| ==> qs[k] == WithNonce(MaybeTweaked(ps[k], w), gamma)
    ensures RecordSet(qs) && |qs[0].uCom| == |qs[0].zCom| == |ps[0].uCom| && Bound(qs[0], 0, MaybeChild(x, w))
    ensures forall k :: 0 <= k < |ps| ==> qs[k].index == ps[k].index
    ensures qs[0].r == Ecdsa.F(Times(ps[0].bigR, gamma)) && |qs| == |ps|
  {
    hide RecordOk;
    hide Bound;
    hide Inv;
    hide Red;
    hide Cong;
    hide Ecdsa.F;
    forall k | 0 <= k < |ps|
      ensures SameMeta(qs[k], qs[0]) && RecordOk(qs[k]) && qs[k].index == ps[k].index
    {
      RerandBinds(ps[k], gamma, w, 0, x);
      assert SameMeta(ps[k], ps[0]);
    }
    RerandBinds(ps[0], gamma, w, 0, x);
  }

  // ---------------------------------------------------------------- key-independent signing

  /** Nobody outside `bad` replaces a value in key-independent presigning or signing. */
  ghost predicate KiWithin(f: PresignFaults, kf: KiFaults, bad: set<nat>) {
    Within(f, kf.sign, bad) && kf.delta.Keys <= bad && kf.eps.Keys <= bad
  }

  /** Every message of the dealing phases of one key-independent presign session. */
  datatype KiDealings = KiDealings(t1: Run, u: Dealing, a: Dealing)

  ghost predicate KiPlausible(c: Committee, sid: bytes, d: KiDealings) {
    && RunPlausible(c, sid + Ascii("/t1"), d.t1)
    && FromCommittee(c.ids, USession(sid, c.t), d.u) && FromCommittee(c.ids, ASession(sid, c.t), d.a)
  }

  ghost predicate KiBehaved(c: Committee, sid: bytes, d: KiDealings, bad: set<nat>) {
    && RunBehaved(c, sid + Ascii("/t1"), d.t1, bad)
    && Behaved(c.ids, USession(sid, c.t), d.u, bad) && Behaved(c.ids, ASession(sid, c.t), d.a, bad)
  }

  /** The dealing phases: one triple, then u and a. */
  method KiDeal(c: Committee, sid: bytes, d: KiDealings, ghost bad: set<nat>) returns (r: Outcome<Dealt>)
    requires c.Valid() && KiPlausible(c, sid, d)
    ensures r.Ok? || r.Abort? || r.InvalidParams?
    ensures r.Ok? ==> GoodDealt(c, r.value) && r.value.t1 == r.value.t2
    ensures r.Ok? ==> Established(c.ids, USession(sid, c.t), d.u, 0, r.value.u)
    ensures r.Ok? ==> Established(c.ids, ASession(sid, c.t), d.a, 0, r.value.a)
    ensures KiBehaved(c, sid, d, bad) ==> Fair(r, bad) && (bad == {} ==> r.Ok?)
  {
    hide RunPlausible;
    hide FromCommittee;
    hide Behaved;
    hide RunBehaved;
    hide FirstFault;
    hide Accepted;
    hide WellShared;
    hide Multiplicative;
    hide VerifyShare;
    hide Passes;
    IdsDistinct(c);
    var t1 := GenerateRun(c, sid + Ascii("/t1"), d.t1, bad);
    if !t1.Ok? {
      return if t1.Abort? then Abort(t1.blamed) else InvalidParams;
    }
    var u := JointDeal(c, USession(sid, c.t), d.u);
    DealingBlame(c, USession(sid, c.t), d.u, bad, u);
    if !u.Ok? {
      return if u.Abort? then Abort(u.blamed) else InvalidParams;
    }
    var a := JointDeal(c, ASession(sid, c.t), d.a);
    DealingBlame(c, ASession(sid, c.t), d.a, bad, a);
    if !a.Ok? {
      return if a.Abort? then Abort(a.blamed) else InvalidParams;
    }
    assert Established(c.ids, USession(sid, c.t), d.u, 0, u.value[0]);
    assert Established(c.ids, ASession(sid, c.t), d.a, 0, a.value[0]);
    return Ok(Dealt(t1.value, t1.value, u.value[0], a.value[0]));
  }

  /** Key-independent presigning by a committee, then signing: the key enters online only, with a
      triple that the full committee 1..n generates and that is used by position.  What comes out
      verifies under whichever key was supplied.  Blame is fair if every holder is at its own
      position, or t = 1; `KiSigning.HonestNeverBlamed` shows that it must be so. */
  method KiRun(c: Committee, full: Committee, keys: seq<KeyShare>, id: nat, psid: bytes, d: KiDealings,
               f: PresignFaults,
               sid: bytes, run: Run, m: Scalar, kf: KiFaults, ghost bad: set<nat>)
    returns (r: Outcome<(Scalar, Scalar)>)
    requires c.Valid() && KiPlausible(c, psid, d)
    requires full.Valid() && full.ids == OneTo(|full.ids|) && full.t == c.t && |c.ids| <= |full.ids|
    requires RunPlausible(full, sid, run)
    requires Matches(c.ids, keys) ==> KeySet(keys, c.t)
    ensures r.Ok? ==> keys != [] && Ecdsa.Verify(PublicKey(keys), m, r.value.0, r.value.1)
    ensures Aligned(c.t, c.ids, OneTo(|c.ids|)) ==>
      KiBehaved(c, psid, d, bad) && RunBehaved(full, sid, run, bad) && KiWithin(f, kf, bad) ==>
      Fair(r, bad) && (bad == {} && Matches(c.ids, keys) ==> r.Ok? || r.ZeroValue? || r.BadSignature?)
    ensures r.Ok? ==> Matches(c.ids, keys)
    ensures !r.NotEnoughShares?
    ensures Matches(c.ids, keys) ==> keys != [] && ExplainedBy(r, c.ids, d.u, d.a, m, PublicKey(keys))
  {
    hide ZeroNonce;
    hide Signable;
    hide JointCom;
    hide Reveals;
    hide Inv;
    hide Established;
    hide KiPlausible;
    hide KiBehaved;
    hide GoodDealt;
    hide RunPlausible;
    hide RunBehaved;
    hide KiWithin;
    hide OneTo;
    hide Passes;
    hide KiSet;
    hide KiBound;
    hide KeySet;
    hide Ecdsa.Verify;
    hide At;
    hide Cong;
    hide WellShared;
    hide Positional;
    hide Agrees;
    hide Aligned;
    hide Multiplicative;
    hide Signed;
    var g := KiDeal(c, psid, d, bad);
    if !g.Ok? {
      return if g.Abort? then Abort(g.blamed) else InvalidParams;
    }
    EstablishedAt(c.ids, USession(psid, c.t), d.u, 0, g.value.u, 0);
    EstablishedAt(c.ids, ASession(psid, c.t), d.a, 0, g.value.a, 0);
    var ps := KiPresignFrom(c, id, g.value, f, kf, bad);
    if !ps.Ok? {
      return if ps.Abort? then Abort(ps.blamed) else ZeroValue;
    }
    var matches := CheckInputs(c.ids, keys);
    if !matches {
      return InvalidParams;
    }
    var t := GenerateRun(full, sid, run, bad);
    if !t.Ok? {
      return if t.Abort? then Abort(t.blamed) else InvalidParams;
    }
    PositionsOf(full, t.value, c.t, c.ids, ps.value);
    r := RunSignKi(c.t, keys, ps.value, t.value, m, kf);
    if r.Abort? && Agrees(ps.value, t.value) {
      KiFakersWithin(f, kf, r.blamed, bad);
    }
  }

  method KiPresignFrom(c: Committee, id: nat, g: Dealt, f: PresignFaults, ghost kf: KiFaults, ghost bad: set<nat>)
    returns (r: Outcome<seq<KiPresignature>>)
    requires c.Valid() && GoodDealt(c, g) && g.t1 == g.t2
    ensures r.Ok? || r.Abort? || r.ZeroValue?
    ensures r.Ok? ==> KiSet(r.value, c.t) && KiBound(r.value[0])
    ensures r.Ok? ==> |r.value| == |c.ids| && forall k :: 0 <= k < |c.ids| ==> r.value[k].index == c.ids[k]
    ensures KiWithin(f, kf, bad) ==> Fair(r, bad) && (bad == {} ==> !r.Abort?)
    ensures r.ZeroValue? ==> ZeroNonce(At(g.u.com, 0), At(g.a.com, 0))
    ensures r.Ok? ==>
      !ZeroNonce(At(g.u.com, 0), At(g.a.com, 0)) && At(g.u.com, 0) != 0
      && r.value[0].r == Ecdsa.F(Inv(At(g.u.com, 0)))
  {
    hide ZeroNonce;
    hide Inv;
    hide WellShared;
    hide VerifyShare;
    hide Multiplicative;
    hide Within;
    hide NamesEarly;
    hide QuietSoFar;
    hide KiBound;
    hide At;
    hide Red;
    NonEmpty(c.ids, c.t, g.u, g.a, g.t1, g.t1);
    ghost var x := ContextOf(0, g.u, g.a, [], g.t1, g.t1);
    r := KeyIndependent(c, id, g.u, g.a, g.t1, f);
    if r.Ok? {
      KiBoundNonce(r.value[0]);
    }
    if r.Abort? {
      EarlyNames(x, f, c.ids, r.blamed);
      NamesWithin(x, f, kf.sign, c.ids, r.blamed, bad);
    }
  }

  /** Position k of a triple over 1..n belongs to k + 1. */
  lemma PositionsOf(full: Committee, t: Triple, len: nat, ids: seq<nat>, ps: seq<KiPresignature>)
    requires full.ids == OneTo(|full.ids|) && WellShared(full.ids, t, len) && Multiplicative(t.pub, 0)
    requires |ps| == |ids| <= |full.ids| && forall k :: 0 <= k < |ids| ==> ps[k].index == ids[k]
    ensures Positional(t, |ps|, len) && |t.shares| >= |ps|
    ensures Aligned(len, ids, OneTo(|ids|)) ==> Agrees(ps, t)
  {
    hide ValidRecord;
    hide Multiplicative;
    hide Differs;
    hide Cong;
    var owners := Owners(t, |ps|);
    assert Indices(ps) == ids;
    forall k | 0 <= k < |ids|
      ensures owners[k] == OneTo(|ids|)[k]
    {
      assert t.shares[k].index == full.ids[k] == k + 1;
    }
    assert owners == OneTo(|ids|);
    if Aligned(len, ids, owners) {
      AlignedAgrees(len, t.pub.ca, ids, owners);
      AlignedAgrees(len, t.pub.cb, ids, owners);
      AlignedAgrees(len, t.pub.cc, ids, owners);
    }
  }

  lemma KiFakersWithin(f: PresignFaults, kf: KiFaults, blamed: seq<nat>, bad: set<nat>)
    requires blamed != [] && forall j :: j in blamed ==> j in kf.delta || j in kf.eps || j in kf.sign
    ensures KiWithin(f, kf, bad) ==> Members(blamed) <= bad
    ensures Members(blamed) != {}
  {
    assert blamed[0] in Members(blamed);
  }

  // ---------------------------------------------------------------- packed runs

  /** Every message of the dealing phases of one packed presign session. */
  datatype PackedDealings = PackedDealings(t1: PackedRun, t2: PackedRun, uax: Dealing)

  /** One session deals u, a and the key re-sharings. */
  function UaxSession(sid: bytes, len: nat): Session {
    Session(sid + Ascii("/uax"), DKG_PACKED_COMMIT, 3, len)
  }

  ghost predicate PackedPlausible(c: Committee, sid: bytes, len: nat, d: PackedDealings) {
    && PackedRunPlausible(c, sid + Ascii("/t1"), len, d.t1) && PackedRunPlausible(c, sid + Ascii("/t2"), len, d.t2)
    && FromCommittee(c.ids, UaxSession(sid, len), d.uax)
  }

  /** Everybody outside `bad` follows the protocol in every dealing, and re-shares its own
      weighted key share as a constant pack. */
  ghost predicate PackedBehaved(c: Committee, sid: bytes, bPack: nat, d: PackedDealings, keyCom: Poly, bad: set<nat>)
    requires c.t >= 1 && bPack >= 1
  {
    var len := PackedLength(c.t, bPack);
    && PackedRunBehaved(c, bPack, sid + Ascii("/t1"), len, d.t1, bad)
    && PackedRunBehaved(c, bPack, sid + Ascii("/t2"), len, d.t2, bad)
    && Behaved(c.ids, UaxSession(sid, len), d.uax, bad) && DistinctMod(c.ids)
    && forall k, b :: 0 <= k < |c.ids| && 0 <= b < bPack && c.ids[k] !in bad ==>
      KeyPacked(c.ids, keyCom, d.uax.r2, k, b)
  }

  ghost predicate KeyPacked(ids: seq<nat>, keyCom: Poly, r2: map<nat, seq<Poly>>, k: nat, b: nat)
    requires k < |ids| && DistinctMod(ids)
  {
    && ids[k] in r2 && |r2[ids[k]]| == 3
    && At(r2[ids[k]][2], SlotPoint(b)) == Times(At(keyCom, ids[k]), Weights(0, ids)[k])
  }

  ghost predicate PackedWithin(f: PresignPacked.PackedFaults, fake: Faults, bad: set<nat>)
    requires |f.v| == |f.nonce|
  {
    fake.Keys <= bad && forall b :: 0 <= b < |f.v| ==> Within(f.Slot(b), fake, bad)
  }

  datatype PackedDealt = PackedDealt(
    t1s: seq<Triple>, t2s: seq<Triple>, u: Sharing, a: Sharing, xhat: Sharing, dealt: seq<Poly>)

  ghost predicate GoodPacked(c: Committee, bPack: nat, g: PackedDealt)
    requires c.t >= 1 && bPack >= 1
  {
    && PresignPacked.PackedInputs(c.ids, bPack, PackedLength(c.t, bPack), g.u, g.a, g.xhat, g.t1s, g.t2s)
    && |g.dealt| == |c.ids| && g.xhat.com == Combine(Ones(|c.ids|), g.dealt, |c.ids|)
  }

  /** The dealt key re-sharings are the third reveals. */
  ghost predicate KeyDealt(c: Committee, r2: map<nat, seq<Poly>>, dealt: seq<Poly>) {
    && |dealt| == |c.ids|
    && forall k :: 0 <= k < |c.ids| ==> c.ids[k] in r2 && |r2[c.ids[k]]| > 2 && dealt[k] == r2[c.ids[k]][2]
  }

  /** The dealing phases of packed mode: two packed triple sessions, then u, a and the key. */
  method PackedDeal(c: Committee, bPack: nat, sid: bytes, d: PackedDealings,
                    ghost bad: set<nat>) returns (r: Outcome<PackedDealt>)
    requires c.Valid() && bPack >= 1 && |c.ids| >= 2 * c.t + 2 * bPack - 3
      && PackedPlausible(c, sid, PackedLength(c.t, bPack), d)
    ensures r.Ok? || r.Abort? || r.InvalidParams?
    ensures r.Ok? ==> GoodPacked(c, bPack, r.value) && KeyDealt(c, d.uax.r2, r.value.dealt)
    ensures r.Ok? ==>
      var z := UaxSession(sid, PackedLength(c.t, bPack));
      Established(c.ids, z, d.uax, 0, r.value.u) && Established(c.ids, z, d.uax, 1, r.value.a)
    ensures forall keyCom :: PackedBehaved(c, sid, bPack, d, keyCom, bad) ==> Fair(r, bad) && (bad == {} ==> r.Ok?)
  {
    hide Behaved;
    hide PackedRunBehaved;
    hide FirstFault;
    hide KeyPacked;
    hide PackedPasses;
    hide PackedRunPlausible;
    hide FromCommittee;
    hide Accepted;
    hide SlotTriple;
    hide VerifyShare;
    hide Combine;
    IdsDistinct(c);
    var len := PackedLength(c.t, bPack);
    var t1 := GeneratePackedRun(c, bPack, sid + Ascii("/t1"), d.t1, bad);
    if !t1.Ok? {
      return if t1.Abort? then Abort(t1.blamed) else InvalidParams;
    }
    var t2 := GeneratePackedRun(c, bPack, sid + Ascii("/t2"), d.t2, bad);
    if !t2.Ok? {
      return if t2.Abort? then Abort(t2.blamed) else InvalidParams;
    }
    var z := UaxSession(sid, len);
    var joint := JointDeal(c, z, d.uax);
    DealingBlame(c, z, d.uax, bad, joint);
    if !joint.Ok? {
      return if joint.Abort? then Abort(joint.blamed) else InvalidParams;
    }
    assert Established(c.ids, z, d.uax, 0, joint.value[0]);
    assert Established(c.ids, z, d.uax, 1, joint.value[1]);
    assert Established(c.ids, z, d.uax, 2, joint.value[2]);
    var dealt := seq(|c.ids|, k requires 0 <= k < |c.ids| => d.uax.r2[c.ids[k]][2]);
    assert dealt == Dkg.Dealt(c.ids, d.uax.r2, 2);
    forall i | 0 <= i < 3 ensures Shared(c.ids, joint.value[i], len) {
      assert Established(c.ids, z, d.uax, i, joint.value[i]);
    }
    assert PresignPacked.PackedInputs(c.ids, bPack, len, joint.value[0], joint.value[1], joint.value[2],
                                      t1.value, t2.value);
    assert joint.value[2].com == Combine(Ones(|c.ids|), dealt, |c.ids|);
    return Ok(PackedDealt(t1.value, t2.value, joint.value[0], joint.value[1], joint.value[2], dealt));
  }

  /** How a packed run ends that gets past the adversary: without presignatures exactly when some
      slot has no nonce, and then as its own slot says. */
  ghost predicate PackedExplained(r: Outcome<(Scalar, Scalar)>, ids: seq<nat>, d: Dealing, bPack: nat, slot: nat,
                                  m: Scalar,
                                  key: Scalar)
    requires Reveals(ids, d, 0) && Reveals(ids, d, 1)
  {
    var u := RevealedAt(ids, d, 0, SlotPoint(slot));
    && (r.ZeroValue? <==> exists b :: 0 <= b < bPack && RevealedZero(ids, d, b))
    && (r.Ok? || r.BadSignature? ==> u != 0 && (r.Ok? <==> Signable(Ecdsa.F(Inv(u)), m, key)))
    && (r.Ok? ==> u != 0 && r.value.0 == Ecdsa.F(Inv(u)) && 2 * r.value.1 <= Q)
  }

  ghost predicate RevealedZero(ids: seq<nat>, d: Dealing, b: nat)
    requires Reveals(ids, d, 0) && Reveals(ids, d, 1)
  {
    ZeroNonce(RevealedAt(ids, d, 0, SlotPoint(b)), RevealedAt(ids, d, 1, SlotPoint(b)))
  }

  /** Packed mode: dealing, presigning, and signing at one slot by the members that are present,
      which succeeds exactly from t + B - 1 members on. */
  method PackedRun(c: Committee, sid: bytes, keys: seq<KeyShare>, pids: seq<nat>, bPack: nat, d: PackedDealings,
                   f: PresignPacked.PackedFaults, slot: nat, absent: set<nat>, m: Scalar, fake: Faults,
                   ghost bad: set<nat>)
    returns (r: Outcome<(Scalar, Scalar)>)
    requires c.Valid() && |f.v| == |f.nonce| == bPack && slot < bPack
      && PackedPlausible(c, sid, PackedLength(c.t, bPack), d)
    requires Matches(c.ids, keys) ==> KeySet(keys, c.t)
    ensures r.Ok? ==> keys != [] && Ecdsa.Verify(PublicKey(keys), m, r.value.0, r.value.1)
    ensures r.NotEnoughShares? ==> |Remaining(c.ids, absent)| < c.t + bPack - 1
    ensures r.Ok? ==> |Remaining(c.ids, absent)| >= c.t + bPack - 1
    ensures r.InvalidParams? <== !Matches(c.ids, keys) || |pids| != bPack || |c.ids| < 2 * c.t + 2 * bPack - 3
    ensures Matches(c.ids, keys) && |pids| == bPack && |c.ids| >= 2 * c.t + 2 * bPack - 3 ==>
      PackedBehaved(c, sid, bPack, d, keys[0].com, bad) && PackedWithin(f, fake, bad) ==>
      Fair(r, bad) && (bad == {} ==> r.Ok? || r.NotEnoughShares? || r.ZeroValue? || r.BadSignature?)
    ensures r.Ok? || r.NotEnoughShares? || r.ZeroValue? || r.BadSignature? ==>
      keys != [] && Reveals(c.ids, d.uax, 0) && Reveals(c.ids, d.uax, 1)
      && PackedExplained(r, c.ids, d.uax, bPack, slot, m, PublicKey(keys))
  {
    hide ZeroNonce;
    hide Signable;
    hide JointCom;
    hide Reveals;
    hide Inv;
    hide Established;
    hide PackedBehaved;
    hide PackedWithin;
    hide PackedPlausible;
    hide GoodPacked;
    hide KeyDealt;
    hide KeySet;
    hide RecordSet;
    hide Bound;
    hide Ecdsa.Verify;
    hide At;
    hide SignCom;
    hide Lied;
    hide Remaining;
    var matches := CheckInputs(c.ids, keys);
    if !matches || |pids| != bPack || |c.ids| < 2 * c.t + 2 * bPack - 3 {
      return InvalidParams;
    }
    var dealt := PackedDeal(c, bPack, sid, d, bad);
    if !dealt.Ok? {
      return if dealt.Abort? then Abort(dealt.blamed) else InvalidParams;
    }
    ghost var z := UaxSession(sid, PackedLength(c.t, bPack));
    forall b: nat
      ensures Reveals(c.ids, d.uax, 0) && Reveals(c.ids, d.uax, 1)
      ensures PresignPacked.SlotZero(dealt.value.u, dealt.value.a, b) <==> RevealedZero(c.ids, d.uax, b)
    {
      EstablishedAt(c.ids, z, d.uax, 0, dealt.value.u, SlotPoint(b));
      EstablishedAt(c.ids, z, d.uax, 1, dealt.value.a, SlotPoint(b));
    }
    EstablishedAt(c.ids, z, d.uax, 0, dealt.value.u, SlotPoint(slot));
    EstablishedAt(c.ids, z, d.uax, 1, dealt.value.a, SlotPoint(slot));
    var ps := PackedFrom(c, sid, keys, pids, bPack, d, dealt.value, f, slot, absent, fake, bad);
    if !ps.Ok? {
      return if ps.Abort? then Abort(ps.blamed) else ZeroValue;
    }
    if ps.value == [] {
      return NotEnoughShares(0, PackedLength(c.t, bPack));
    }
    LiarsFaked(ps.value, m, fake);
    r := RunSign(PackedLength(c.t, bPack), SlotPoint(slot), ps.value, m, fake);
    if r.Abort? {
      PackedFakers(f, fake, r.blamed, bad);
    }
  }

  /** Packed presigning; the records of one slot held by the members that are present. */
  method PackedFrom(c: Committee, ghost sid: bytes, keys: seq<KeyShare>, pids: seq<nat>, bPack: nat,
                    ghost d: PackedDealings, g: PackedDealt,
                    f: PresignPacked.PackedFaults, slot: nat, absent: set<nat>, ghost fake: Faults, ghost bad: set<nat>)
    returns (r: Outcome<seq<Presignature>>)
    requires c.Valid() && |f.v| == |f.nonce| == |pids| == bPack && slot < bPack && |c.ids| >= 2 * c.t + 2 * bPack - 3
    requires GoodPacked(c, bPack, g) && KeyDealt(c, d.uax.r2, g.dealt) && Matches(c.ids, keys) && KeySet(keys, c.t)
    ensures r.Ok? || r.Abort? || r.ZeroValue?
    ensures r.Ok? ==> |r.value| == |Remaining(c.ids, absent)|
    ensures r.Ok? && r.value != [] ==>
      RecordSet(r.value) && |r.value[0].uCom| == |r.value[0].zCom| == PackedLength(c.t, bPack)
      && Bound(r.value[0], SlotPoint(slot), PublicKey(keys))
    ensures PackedBehaved(c, sid, bPack, d, keys[0].com, bad) && PackedWithin(f, fake, bad) ==>
      Fair(r, bad) && (bad == {} ==> !r.Abort?)
    ensures r.ZeroValue? ==> exists b :: 0 <= b < bPack && PresignPacked.SlotZero(g.u, g.a, b)
    ensures r.Ok? ==> forall b :: 0 <= b < bPack ==> !PresignPacked.SlotZero(g.u, g.a, b)
    ensures r.Ok? && r.value != [] ==>
      At(g.u.com, SlotPoint(slot)) != 0 && r.value[0].r == Ecdsa.F(Inv(At(g.u.com, SlotPoint(slot))))
  {
    hide PresignPacked.SlotZero;
    hide Inv;
    hide PackedBehaved;
    hide PackedWithin;
    hide KeyDealt;
    hide PresignPacked.PackedInputs;
    hide PresignPacked.KeySlotsBlame;
    hide PresignPacked.SlotCheaters;
    hide PresignPacked.SomeZero;
    hide PresignPacked.SlotResult;
    hide KeySet;
    hide RecordSet;
    hide Bound;
    hide Combine;
    hide At;
    hide Remaining;
    IdsDistinct(c);
    var ps := PresignPacked.WithCommittee(c, keys, pids, bPack, g.u, g.a, g.xhat, g.dealt, g.t1s, g.t2s, f);
    if ps.Abort? {
      PackedNames(c, sid, keys, bPack, d, g, f, fake, ps.blamed, bad);
      return Abort(ps.blamed);
    } else if !ps.Ok? {
      PresignPacked.SomeZeroMeans(c.ids, bPack, PackedLength(c.t, bPack), g.u, g.a, g.xhat, g.t1s, g.t2s);
      return ZeroValue;
    }
    var len := PackedLength(c.t, bPack);
    forall b | 0 <= b < bPack
      ensures !PresignPacked.SlotZero(g.u, g.a, b) && At(g.u.com, SlotPoint(b)) != 0
      ensures Numbered(ps.value[b], pids[b], c.ids, Inv(At(g.u.com, SlotPoint(b))))
    {
      PresignPacked.SlotNonce(pids[b], c.ids, bPack, len, g.u, g.a, g.xhat, g.t1s, g.t2s, f, b, PublicKey(keys),
                              ps.value[b]);
    }
    SlotCount(pids[slot], c.ids, len, g.u, g.a, g.xhat, g.t1s, g.t2s, f, slot, PublicKey(keys), ps.value[slot]);
    var active := PresignRobust.Present(c.ids, absent);
    var qs := PresignRobust.ActiveShares(c.ids, ps.value[slot], active);
    if qs != [] {
      assert qs[0] == ps.value[slot][PositionOf(c.ids, active[0])];
      PresignRobust.PickedSet(c.ids, absent, ps.value[slot], qs, SlotPoint(slot), PublicKey(keys), len);
    }
    return Ok(qs);
  }

  lemma PackedFakers(f: PresignPacked.PackedFaults, fake: Faults, blamed: seq<nat>, bad: set<nat>)
    requires |f.v| == |f.nonce| && blamed != [] && forall j :: j in blamed ==> j in fake
    ensures Members(blamed) != {} && (PackedWithin(f, fake, bad) ==> Members(blamed) <= bad)
  {
    hide Within;
    assert blamed[0] in Members(blamed);
  }

  /** An abort of packed presigning names members of `bad`. */
  lemma PackedNames(c: Committee, sid: bytes, keys: seq<KeyShare>, bPack: nat, d: PackedDealings, g: PackedDealt,
                    f: PresignPacked.PackedFaults, fake: Faults, blamed: seq<nat>, bad: set<nat>)
    requires c.t >= 1 && bPack >= 1 && |f.v| == |f.nonce| == bPack && keys != [] && DistinctMod(c.ids)
      && KeyDealt(c, d.uax.r2, g.dealt)
    requires PresignPacked.KeySlotsBlame(c.ids, bPack, keys[0].com, g.dealt, blamed)
          || PresignPacked.SlotCheaters(g.u, g.a, g.xhat, g.t1s, g.t2s, f, c.ids, bPack, blamed)
    ensures Members(blamed) != {} && blamed != []
    ensures PackedBehaved(c, sid, bPack, d, keys[0].com, bad) && PackedWithin(f, fake, bad) ==> Members(blamed) <= bad
  {
    hide Within;
    hide PackedRunBehaved;
    hide Behaved;
    hide NamesCheaters;
    hide At;
    hide Weights;
    if PresignPacked.SlotCheaters(g.u, g.a, g.xhat, g.t1s, g.t2s, f, c.ids, bPack, blamed) {
      var b :| 0 <= b < bPack && PresignPacked.SlotNames(g.u, g.a, g.xhat, g.t1s, g.t2s, f, c.ids, b, blamed);
      var x := PresignPacked.SlotContext(b, g.u, g.a, g.xhat, g.t1s, g.t2s);
      NamesWithin(x, f.Slot(b), fake, c.ids, blamed, bad);
    } else {
      var k :| 0 <= k < |c.ids| && PresignPacked.KeySlotsFault(c.ids, bPack, keys[0].com, g.dealt, k, blamed);
      var b :| 0 <= b < bPack && !PresignPacked.KeySlot(c.ids, keys[0].com, g.dealt, k, b);
      assert !KeyPacked(c.ids, keys[0].com, d.uax.r2, k, b);
      assert c.ids[k] in Members(blamed);
    }
  }

  /** Every member holds a record of the slot. */
  lemma SlotCount(id: nat, ids: seq<nat>, len: nat, u: Sharing, a: Sharing, xhat: Sharing, t1s: seq<Triple>,
                  t2s: seq<Triple>,
                  f: PresignPacked.PackedFaults, b: nat, key: Scalar, ps: seq<Presignature>)
    requires PresignPacked.SlotResult(id, ids, len, u, a, xhat, t1s, t2s, f, b, key, ps)
    ensures |ps| == |ids| && (forall k :: 0 <= k < |ids| ==> ps[k].index == ids[k])
    ensures RecordSet(ps) && |ps[0].uCom| == |ps[0].zCom| == len && Bound(ps[0], SlotPoint(b), key)
  {
    hide NoneCheats;
    hide RecordSet;
    hide Bound;
    var x := PresignPacked.SlotContext(b, u, a, xhat, t1s, t2s);
    PresignRobust.IdealIndices(id, ids, x, u, t2s[b]);
  }
}
