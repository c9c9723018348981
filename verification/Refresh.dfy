/** Committee maintenance (src/protocol/refresh.rs): proactive refresh and re-sharing to another
    committee.  Both keep the public key. */
module Refresh {
  import opened Field
  import opened Polynomials
  import opened Lagrange
  import opened Shamir
  import opened Vss
  import opened Outcomes
  import opened Committees
  import opened IdLists
  import opened Bytes
  import opened Dkg
  import opened Keys

  const REFRESH_COMMIT: bytes := Ascii("OHM-ECDSA/v0.1/refresh-commit")
  const RESHARE_COMMIT: bytes := Ascii("OHM-ECDSA/v0.1/reshare-commit")

  // ---------------------------------------------------------------- refresh

  function RefreshSession(sid: bytes, t: nat): Session {
    Session(sid, REFRESH_COMMIT, 1, t)
  }

  /** Every dealer committed to a polynomial with zero constant. */
  ghost predicate ZeroConstants(ids: seq<nat>, r2: map<nat, seq<Poly>>, n: nat) {
    n <= |ids| && forall k :: 0 <= k < n ==> ZeroConstant(r2, ids[k])
  }

  ghost predicate ZeroConstant(r2: map<nat, seq<Poly>>, j: nat) {
    j in r2 && r2[j] != [] && r2[j][0] != [] && r2[j][0][0] == 0
  }

  /** The dealing session succeeds, so every reveal has its shape. */
  lemma RevealsShaped(ids: seq<nat>, z: Session, d: Dealing, s: Sharing)
    requires FromCommittee(ids, z, d) && Accepted(ids, z, d) && z.count == 1 && ids != []
    ensures forall k :: 0 <= k < |ids| ==> ids[k] in d.r2 && |d.r2[ids[k]]| == 1 && |d.r2[ids[k]][0]| == z.polyLen
  {
    hide GoodDealer;
    hide FromMembers;
    var me := ids[0];
    assert me in ids;
    assert AllGood(ids, z, InboxOf(d, me), me);
    forall k | 0 <= k < |ids|
      ensures ids[k] in d.r2 && |d.r2[ids[k]]| == 1 && |d.r2[ids[k]][0]| == z.polyLen
    {
      assert Answered(InboxOf(d, me), ids[k]);
      GoodDealerShape(z, InboxOf(d, me), me, ids[k]);
    }
  }

  lemma GoodDealerShape(z: Session, m: Inbox, me: nat, i: nat)
    requires Answered(m, i) && GoodDealer(z, m, me, i)
    ensures Shape(m.r2[i], z.count, z.polyLen)
  {
    hide HashCommitments;
    hide VerifyShare;
  }

  /** A sum of zero-constant polynomials has a zero constant. */
  lemma JointZero(ids: seq<nat>, r2: map<nat, seq<Poly>>)
    requires ids != [] && ZeroConstants(ids, r2, |ids|)
    requires forall k :: 0 <= k < |ids| ==> ids[k] in r2 && 0 < |r2[ids[k]]|
    ensures At(JointCom(ids, r2, 0), 0) == 0
  {
    hide Combine;
    hide Eval;
    var n, coms := |ids|, Dealt(ids, r2, 0);
    var zeros: seq<int> := seq(n, _ => 0);
    forall k | 0 <= k < n
      ensures Cong(zeros[k], Eval(coms[k], 0))
    {
      EvalAtZero(coms[k]);
    }
    EvalCombine(Ones(n), coms, zeros, n, 0);
    DotZeros(Ones(n), zeros, n);
  }

  lemma {:induction false} DotZeros(ws: seq<int>, zeros: seq<int>, n: nat)
    requires n <= |ws| && n <= |zeros| && forall k :: 0 <= k < n ==> zeros[k] == 0
    ensures Dot(ws, zeros, n) == 0
  {
    if n > 0 {
      DotZeros(ws, zeros, n - 1);
    }
  }

  /** A refreshed key share. */
  function Shifted(key: KeyShare, z: Sharing, k: nat): KeyShare
    requires k < |z.shares|
  {
    KeyShare(key.index, Plus(key.share, z.shares[k]), Add(key.com, z.com))
  }

  /** The member's share and commitment after the joint zero polynomial has been added: the share
      changes by that polynomial's value at the member, and stays only where the value is zero. */
  ghost predicate Renewed(key: KeyShare, zero: Poly, next: KeyShare) {
    && next.index == key.index && next.share == Plus(key.share, At(zero, key.index))
    && (next.share == key.share <==> At(zero, key.index) == 0)
    && forall e: int :: At(next.com, e) == Plus(At(key.com, e), At(zero, e))
  }

  ghost predicate AllRenewed(ids: seq<nat>, r2: map<nat, seq<Poly>>, keys: seq<KeyShare>, next: seq<KeyShare>) {
    && |keys| == |ids| == |next| && (forall k :: 0 <= k < |ids| ==> ids[k] in r2 && 0 < |r2[ids[k]]|)
    && forall k :: 0 <= k < |ids| ==> Renewed(keys[k], JointCom(ids, r2, 0), next[k])
  }

  lemma ShiftedRenews(key: KeyShare, z: Sharing, k: nat)
    requires k < |z.shares| && VerifyShare(z.com, key.index, z.shares[k])
    ensures Renewed(key, z.com, Shifted(key, z, k))
  {
    hide Red;
    hide Add;
    hide Eval;
    var zero := At(z.com, key.index);
    forall e: int
      ensures At(Add(key.com, z.com), e) == Plus(At(key.com, e), At(z.com, e))
    {
      HomomorphicShares(key.com, z.com, 0, e);
    }
    SumUnchanged(key.share, zero);
  }

  lemma SumUnchanged(a: Scalar, b: Scalar)
    ensures Plus(a, b) == a <==> b == 0
  {
    RedScalar(a);
    RedScalar(b);
    RedScalar(0);
    if Plus(a, b) == a {
      CongSub(a + b, a, a, a);
    }
  }

  /** The new epoch: same members, same key, shares on one polynomial of the given length. */
  ghost predicate NextEpoch(keys: seq<KeyShare>, ids: seq<nat>, len: nat, next: seq<KeyShare>)
    requires keys != []
  {
    Matches(ids, next) && KeySet(next, len) && PublicKey(next) == PublicKey(keys)
  }

  lemma RefreshKeeps(ids: seq<nat>, keys: seq<KeyShare>, z: Sharing, len: nat, next: seq<KeyShare>)
    requires ids != [] && Matches(ids, keys) && KeySet(keys, len) && Shared(ids, z, len) && At(z.com, 0) == 0
    requires |next| == |ids| && forall k :: 0 <= k < |ids| ==> next[k] == Shifted(keys[k], z, k)
    ensures NextEpoch(keys, ids, len, next)
  {
    hide Eval;
    hide Add;
    HomomorphicShares(keys[0].com, z.com, 0, 0);
    RedScalar(PublicKey(keys));
    AddLength(keys[0].com, z.com);
    forall k | 0 <= k < |ids|
      ensures next[k].com == next[0].com && |next[k].com| == len
        && VerifyShare(next[k].com, next[k].index, next[k].share)
    {
      HomomorphicShares(keys[k].com, z.com, 0, ids[k]);
      assert VerifyShare(z.com, ids[k], z.shares[k]);
    }
  }

  /** The shifted shares are the next epoch. */
  lemma RefreshSucceeds(c: Committee, keys: seq<KeyShare>, sid: bytes, d: Dealing, z: Sharing, next: seq<KeyShare>)
    requires c.Valid() && FromCommittee(c.ids, RefreshSession(sid, c.t), d) && Matches(c.ids, keys) && KeySet(keys, c.t)
    requires Accepted(c.ids, RefreshSession(sid, c.t), d) && ZeroConstants(c.ids, d.r2, |c.ids|)
    requires Established(c.ids, RefreshSession(sid, c.t), d, 0, z) && |next| == |c.ids|
    requires forall k :: 0 <= k < |next| ==> next[k] == Shifted(keys[k], z, k)
    ensures NextEpoch(keys, c.ids, c.t, next) && Succeeds(c, keys, Refreshed(sid, d, z), c, next)
  {
    hide KeySet;
    hide FromCommittee;
    hide Accepted;
    hide NextEpoch;
    hide Shifted;
    hide VerifyShare;
    hide At;
    hide Combine;
    hide PublicKey;
    IdsDistinct(c);
    RevealsShaped(c.ids, RefreshSession(sid, c.t), d, z);
    JointZero(c.ids, d.r2);
    RefreshKeeps(c.ids, keys, z, c.t, next);
  }

  /** Everybody outside `bad` follows the protocol: it deals honestly, and a zero constant. */
  ghost predicate RefreshBehaved(c: Committee, sid: bytes, d: Dealing, bad: set<nat>) {
    && Behaved(c.ids, RefreshSession(sid, c.t), d, bad)
    && forall k :: 0 <= k < |c.ids| && c.ids[k] !in bad ==> ZeroConstant(d.r2, c.ids[k])
  }

  /** The first dealer whose constant is not zero is to blame. */
  ghost predicate FirstNonzero(ids: seq<nat>, r2: map<nat, seq<Poly>>, blamed: seq<nat>) {
    exists k :: 0 <= k < |ids| && blamed == [ids[k]] && ZeroConstants(ids, r2, k) && !ZeroConstant(r2, ids[k])
  }

  /** The check for zero constants: the first dealer that fails it, or nobody. */
  method CheckZeros(ids: seq<nat>, r2: map<nat, seq<Poly>>) returns (who: seq<nat>)
    requires forall k :: 0 <= k < |ids| ==> ids[k] in r2 && |r2[ids[k]]| == 1 && r2[ids[k]][0] != []
    ensures who == [] <==> ZeroConstants(ids, r2, |ids|)
    ensures who != [] ==> FirstNonzero(ids, r2, who)
  {
    for k := 0 to |ids|
      invariant ZeroConstants(ids, r2, k)
    {
      if r2[ids[k]][0][0] != 0 {
        assert !ZeroConstant(r2, ids[k]);
        assert !ZeroConstants(ids, r2, k + 1);
        return [ids[k]];
      }
    }
    return [];
  }

  /** `refresh`. */
  method RefreshKeys(c: Committee, keys: seq<KeyShare>, sid: bytes, d: Dealing, ghost bad: set<nat>)
    returns (r: Outcome<seq<KeyShare>>)
    requires c.Valid() && FromCommittee(c.ids, RefreshSession(sid, c.t), d)
    requires Matches(c.ids, keys) ==> KeySet(keys, c.t)
    ensures r.Ok? || r.Abort? || r.InvalidParams?
    ensures !Matches(c.ids, keys) ==> r.InvalidParams?
    ensures r.Ok? <==>
      Matches(c.ids, keys) && Accepted(c.ids, RefreshSession(sid, c.t), d) && ZeroConstants(c.ids, d.r2, |c.ids|)
    ensures r.Ok? ==> NextEpoch(keys, c.ids, c.t, r.value)
    ensures r.Ok? ==> exists z :: Succeeds(c, keys, Refreshed(sid, d, z), c, r.value)
    ensures r.Abort? && Accepted(c.ids, RefreshSession(sid, c.t), d) ==> FirstNonzero(c.ids, d.r2, r.blamed)
    ensures RefreshBehaved(c, sid, d, bad) ==>
      (r.Abort? ==> r.blamed != [] && Members(r.blamed) <= bad) && (bad == {} && Matches(c.ids, keys) ==> r.Ok?)
  {
    hide Behaved;
    hide FromCommittee;
    hide Accepted;
    hide KeySet;
    hide Combine;
    hide Add;
    hide At;
    hide VerifyShare;
    hide NextEpoch;
    hide Succeeds;
    hide Shifted;
    hide PublicKey;
    hide FirstFault;
    hide ZeroConstants;
    hide ZeroConstant;
    hide JointCom;
    var matches := CheckInputs(c.ids, keys);
    if !matches {
      return InvalidParams;
    }
    var dealt := JointDeal(c, RefreshSession(sid, c.t), d);
    DealingBlame(c, RefreshSession(sid, c.t), d, bad, dealt);
    if !dealt.Ok? {
      return if dealt.Abort? then Abort(dealt.blamed) else InvalidParams;
    }
    var z := dealt.value[0];
    assert Established(c.ids, RefreshSession(sid, c.t), d, 0, z);
    RevealsShaped(c.ids, RefreshSession(sid, c.t), d, z);
    var who := CheckZeros(c.ids, d.r2);
    if who != [] {
      assert who[0] in Members(who);
      return Abort(who);
    }
    var next := seq(|c.ids|, k requires 0 <= k < |c.ids| => Shifted(keys[k], z, k));
    RefreshSucceeds(c, keys, sid, d, z, next);
    return Ok(next);
  }

  // ---------------------------------------------------------------- re-sharing

  /** The re-sharing messages: per old dealer a round-1 hash and a reveal, per new member and
      dealer a sub-share and the dealer's defence. */
  datatype ReshareMessages = ReshareMessages(
    commits: map<nat, bytes>,
    revealed: map<nat, Poly>,
    shares: map<nat, map<nat, Scalar>>,
    defenses: map<nat, map<nat, Scalar>>)

  ghost predicate AllSent(former: seq<nat>, members: seq<nat>, z: ReshareMessages) {
    && (forall j :: j in former ==> j in z.commits && j in z.revealed)
    && forall m :: m in members ==> SentTo(former, z, m)
  }

  ghost predicate SentTo(former: seq<nat>, z: ReshareMessages, m: nat) {
    m in z.shares && m in z.defenses && forall j :: j in former ==> j in z.shares[m] && j in z.defenses[m]
  }

  /** Checks (a) and (b) on dealer j, from public data. */
  ghost predicate DealBound(xCom: Poly, t: nat, sid: bytes, z: ReshareMessages, j: nat) {
    && j in z.commits && j in z.revealed && |z.revealed[j]| == t && t > 0
    && HashCommitments(sid, RESHARE_COMMIT, j, [z.revealed[j]]) == z.commits[j]
    && z.revealed[j][0] == At(xCom, j)
  }

  /** Check (c): member m's sub-share from dealer j. */
  ghost predicate SubShareOk(z: ReshareMessages, m: nat, j: nat)
    requires j in z.revealed && m in z.shares && j in z.shares[m]
  {
    VerifyShare(z.revealed[j], m, z.shares[m][j])
  }

  ghost predicate DealsOk(xCom: Poly, t: nat, sid: bytes, z: ReshareMessages, former: seq<nat>, m: nat, n: nat) {
    && n <= |former| && m in z.shares
    && forall k :: 0 <= k < n ==>
      DealBound(xCom, t, sid, z, former[k]) && former[k] in z.shares[m] && SubShareOk(z, m, former[k])
  }

  /** The abort over member m's first bad deal, from dealer former[k]: the dealer, unless the public
      checks pass and its defence verifies. */
  ghost predicate DealFault(xCom: Poly, t: nat, sid: bytes, z: ReshareMessages, former: seq<nat>, m: nat, k: nat,
                            blamed: seq<nat>)
    requires k < |former|
  {
    && m in z.shares && m in z.defenses && former[k] in z.shares[m] && former[k] in z.defenses[m]
    && former[k] in z.revealed
    && DealsOk(xCom, t, sid, z, former, m, k)
    && (DealBound(xCom, t, sid, z, former[k]) ==> !SubShareOk(z, m, former[k]))
    && var j := former[k];
       blamed == [if DealBound(xCom, t, sid, z, j) && VerifyShare(z.revealed[j], m, z.defenses[m][j]) then m else j]
  }

  ghost predicate ReshareFault(xCom: Poly, t: nat, sid: bytes, z: ReshareMessages, former: seq<nat>, m: nat,
                               blamed: seq<nat>) {
    exists k :: 0 <= k < |former| && DealFault(xCom, t, sid, z, former, m, k, blamed)
  }

  /** The revealed commitments, in committee order. */
  ghost function RevealedComs(former: seq<nat>, z: ReshareMessages): (r: seq<Poly>)
    requires forall j :: j in former ==> j in z.revealed
    ensures |r| == |former| && forall k :: 0 <= k < |r| ==> r[k] == z.revealed[former[k]]
  {
    seq(|former|, k requires 0 <= k < |former| => assert former[k] in former; z.revealed[former[k]])
  }

  /** The new key commitment: a function of the revealed alone, the same for every member. */
  ghost function NewCom(former: seq<nat>, z: ReshareMessages): Poly
    requires DistinctMod(former) && forall j :: j in former ==> j in z.revealed
  {
    Combine(Weights(0, former), RevealedComs(former, z), |former|)
  }

  method CheckDeal(xCom: Poly, t: nat, sid: bytes, z: ReshareMessages, former: seq<nat>, k: nat,
                   m: nat) returns (who: seq<nat>)
    requires k < |former| && t > 0 && former[k] in z.commits && former[k] in z.revealed
    requires m in z.shares && m in z.defenses && former[k] in z.shares[m] && former[k] in z.defenses[m]
    requires DealsOk(xCom, t, sid, z, former, m, k)
    ensures who == [] ==> DealsOk(xCom, t, sid, z, former, m, k + 1)
    ensures who != [] ==> DealFault(xCom, t, sid, z, former, m, k, who)
  {
    hide HashCommitments;
    hide Eval;
    hide Red;
    var j, com := former[k], z.revealed[former[k]];
    if |com| != t || HashCommitments(sid, RESHARE_COMMIT, j, [com]) != z.commits[j] {
      return [j];
    }
    var bound := EvalAtPoint(xCom, j);
    if com[0] != bound {
      return [j];
    }
    var e := EvalAtPoint(com, m);
    if z.shares[m][j] != e {
      var w := ResolveComplaint(com, j, m, z.defenses[m][j]);
      return [w];
    }
    return [];
  }

  /** Round 3 of one new member. */
  method ReshareMember(former: seq<nat>, xCom: Poly, t: nat, sid: bytes, z: ReshareMessages, lambdas: seq<Scalar>,
                       m: nat)
    returns (who: seq<nat>, key: KeyShare)
    requires former != [] && t > 0 && DistinctMod(former) && lambdas == Weights(0, former) && AllSent(former, [m], z)
    ensures who != [] ==> ReshareFault(xCom, t, sid, z, former, m, who)
    ensures who == [] ==> DealsOk(xCom, t, sid, z, former, m, |former|)
    ensures who == [] ==> key == KeyShare(m, At(NewCom(former, z), m), NewCom(former, z)) && |key.com| == t
  {
    hide Weights;
    hide Combine;
    hide DealFault;
    hide DealsOk;
    hide SumSoFar;
    hide Eval;
    hide Red;
    hide Add;
    hide Scale;
    assert m in [m];
    who := [];
    var share: Scalar, com: Poly := 0, seq(t, _ => 0);
    ghost var coms := RevealedComs(former, z);
    NothingYet(xCom, t, sid, z, former, m, lambdas, coms, com);
    for k := 0 to |former|
      invariant who == [] && DealsOk(xCom, t, sid, z, former, m, k)
      invariant SumSoFar(lambdas, coms, k, t, m, share, com)
    {
      assert former[k] in former;
      who := CheckDeal(xCom, t, sid, z, former, k, m);
      if who != [] {
        key := KeyShare(m, 0, []);
        return;
      }
      OneMoreDeal(xCom, t, sid, z, former, m, k, lambdas, coms, share, com);
      share := Plus(share, Times(lambdas[k], z.shares[m][former[k]]));
      com := AddPoints(com, Scale(z.revealed[former[k]], lambdas[k]));
    }
    SumDone(lambdas, coms, |former|, t, m, share, com);
    key := KeyShare(m, share, com);
  }

  /** The running sums after k dealers; before the first the commitment is t identity points. */
  ghost predicate SumSoFar(ws: seq<Scalar>, coms: seq<Poly>, k: nat, t: nat, m: nat, share: Scalar, com: Poly) {
    && k <= |ws| && k <= |coms| && |com| == t
    && com == (if k == 0 then seq(t, _ => 0) else Combine(ws, coms, k))
    && share == At(com, m)
  }

  lemma NothingYet(xCom: Poly, t: nat, sid: bytes, z: ReshareMessages, former: seq<nat>, m: nat, ws: seq<Scalar>,
                   coms: seq<Poly>, com: Poly)
    requires com == seq(t, _ => 0) && m in z.shares
    ensures SumSoFar(ws, coms, 0, t, m, 0, com) && DealsOk(xCom, t, sid, z, former, m, 0)
  {
    EvalZero(com, m);
  }

  lemma SumDone(ws: seq<Scalar>, coms: seq<Poly>, k: nat, t: nat, m: nat, share: Scalar, com: Poly)
    requires k > 0 && SumSoFar(ws, coms, k, t, m, share, com)
    ensures com == Combine(ws, coms, k) && share == At(com, m) && |com| == t
  {
  }

  lemma OneMoreDeal(xCom: Poly, t: nat, sid: bytes, z: ReshareMessages, former: seq<nat>, m: nat, k: nat,
                    ws: seq<Scalar>, coms: seq<Poly>,
                    share: Scalar, com: Poly)
    requires k < |former| && |ws| == |former| == |coms| && DealsOk(xCom, t, sid, z, former, m, k + 1)
      && coms[k] == z.revealed[former[k]]
    requires SumSoFar(ws, coms, k, t, m, share, com)
    ensures SumSoFar(ws, coms, k + 1, t, m, Plus(share, Times(ws[k], z.shares[m][former[k]])),
                     Add(com, Scale(coms[k], ws[k])))
  {
    hide Eval;
    hide Red;
    hide Scale;
    assert DealBound(xCom, t, sid, z, former[k]) && SubShareOk(z, m, former[k]);
    var c := Scale(coms[k], ws[k]);
    ScaleLength(coms[k], ws[k]);
    AddLength(com, c);
    HomomorphicShares(com, c, 0, m);
    HomomorphicShares(coms[k], [], ws[k], m);
    if k == 0 {
      AddZeros(com, c);
      FirstTerm(ws, coms);
    }
  }

  lemma FirstTerm(ws: seq<Scalar>, coms: seq<Poly>)
    requires ws != [] && coms != []
    ensures Combine(ws, coms, 1) == Scale(coms[0], ws[0])
  {
    assert Combine(ws, coms, 0) == [];
  }

  lemma {:induction false} AddZeros(zeros: Poly, p: Poly)
    requires |zeros| == |p| && AllZero(zeros)
    ensures Add(zeros, p) == p
    decreases |p|
  {
    if p != [] {
      forall i | 0 <= i < |zeros[1..]| ensures zeros[1..][i] == 0 { assert zeros[1..][i] == zeros[i + 1]; }
      AddZeros(zeros[1..], p[1..]);
      RedScalar(p[0]);
    }
  }

  /** Dealers bound to their old shares recombine to the old key. */
  lemma ReshareKeeps(former: seq<nat>, xCom: Poly, t: nat, sid: bytes, z: ReshareMessages)
    requires DistinctMod(former) && |xCom| <= |former| && forall j :: j in former ==> j in z.revealed
    requires forall k :: 0 <= k < |former| ==> DealBound(xCom, t, sid, z, former[k])
    ensures At(NewCom(former, z), 0) == At(xCom, 0)
  {
    hide Combine;
    hide Weights;
    hide HashCommitments;
    hide Eval;
    var coms := RevealedComs(former, z);
    forall k | 0 <= k < |former|
      ensures At(coms[k], 0) == At(xCom, former[k])
    {
      assert DealBound(xCom, t, sid, z, former[k]);
      EvalAtZero(coms[k]);
      RedScalar(coms[k][0]);
    }
    Recombine(xCom, former, coms, 0, 0);
  }

  /** `reshare`: the old committee deals, every new member checks and combines. */
  method Reshare(former: Committee, joining: Committee, keys: seq<KeyShare>, sid: bytes, z: ReshareMessages,
                 ghost bad: set<nat>)
    returns (r: Outcome<seq<KeyShare>>)
    requires former.Valid() && joining.Valid() && AllSent(former.ids, joining.ids, z)
    requires Matches(former.ids, keys) ==> KeySet(keys, former.t)
    ensures r.Ok? || r.Abort? || r.InvalidParams?
    ensures r.InvalidParams? <==> !Matches(former.ids, keys)
    ensures r.Ok? ==> NextEpoch(keys, joining.ids, joining.t, r.value)
    ensures r.Ok? ==> Succeeds(former, keys, Reshared(joining, sid, z), joining, r.value)
    ensures r.Ok? ==>
      DistinctMod(former.ids) && (forall j :: j in former.ids ==> j in z.revealed)
      && r.value[0].com == NewCom(former.ids, z)
    ensures r.Ok? ==>
      forall m :: m in joining.ids ==> DealsOk(keys[0].com, joining.t, sid, z, former.ids, m, |former.ids|)
    ensures r.Abort? ==>
      exists m :: m in joining.ids && ReshareFault(keys[0].com, joining.t, sid, z, former.ids, m, r.blamed)
    ensures Matches(former.ids, keys) ==>
      ReshareBehaved(keys[0].com, joining.t, sid, z, former.ids, joining.ids, bad) ==>
      (r.Abort? ==> r.blamed != [] && Members(r.blamed) <= bad) && (bad == {} ==> r.Ok?)
  {
    hide ReshareBehaved;
    hide KeySet;
    hide DealsOk;
    hide ReshareFault;
    hide AllSent;
    hide NewCom;
    hide Weights;
    hide At;
    hide NextEpoch;
    hide MemberKey;
    var matches := CheckInputs(former.ids, keys);
    if !matches {
      return InvalidParams;
    }
    IdsDistinct(former);
    SentToAll(former.ids, joining.ids, z);
    var lambdas := LagrangeCoeffsAt(0, former.ids);
    var next: seq<KeyShare> := [];
    for k := 0 to |joining.ids|
      invariant |next| == k
      invariant forall i :: 0 <= i < k ==> MemberKey(former.ids, z, joining.t, joining.ids[i], next[i])
      invariant forall i :: 0 <= i < k ==>
        DealsOk(keys[0].com, joining.t, sid, z, former.ids, joining.ids[i], |former.ids|)
    {
      var m := joining.ids[k];
      assert m in joining.ids;
      SentToOne(former.ids, joining.ids, z, m);
      var who, key := ReshareMember(former.ids, keys[0].com, joining.t, sid, z, lambdas, m);
      if who != [] {
        ReshareBlame(keys[0].com, joining.t, sid, z, former.ids, joining.ids, m, who, bad);
        return Abort(who);
      }
      MemberKeyIs(former.ids, z, joining.t, m, key);
      next := next + [key];
    }
    NextEpochIs(former, joining, keys, sid, z, next);
    return Ok(next);
  }

  /** Everybody outside `bad` follows the protocol: old members re-share their share with a proper
      reveal and defend it to everybody, and the sub-shares that new members hold are the ones
      their dealers defend. */
  ghost predicate ReshareBehaved(xCom: Poly, t: nat, sid: bytes, z: ReshareMessages, former: seq<nat>,
                                 members: seq<nat>,
                                 bad: set<nat>) {
    && (forall j, m :: j in former && j !in bad && m in members ==>
         DealBound(xCom, t, sid, z, j) && m in z.defenses && j in z.defenses[m]
         && VerifyShare(z.revealed[j], m, z.defenses[m][j]))
    && forall j, m :: j in former && m in members && m !in bad ==>
         m in z.shares && m in z.defenses && j in z.shares[m] && j in z.defenses[m]
         && z.shares[m][j] == z.defenses[m][j]
  }

  lemma ReshareBlame(xCom: Poly, t: nat, sid: bytes, z: ReshareMessages, former: seq<nat>, members: seq<nat>, m: nat,
                     blamed: seq<nat>, bad: set<nat>)
    requires ReshareFault(xCom, t, sid, z, former, m, blamed) && m in members
    ensures ReshareBehaved(xCom, t, sid, z, former, members, bad) ==>
      blamed != [] && Members(blamed) <= bad && bad != {}
  {
    hide DealBound;
    hide VerifyShare;
    if ReshareBehaved(xCom, t, sid, z, former, members, bad) {
      var k :| 0 <= k < |former| && DealFault(xCom, t, sid, z, former, m, k, blamed);
      assert former[k] in former;
      assert blamed[0] in Members(blamed);
    }
  }

  lemma SentToAll(former: seq<nat>, members: seq<nat>, z: ReshareMessages)
    requires AllSent(former, members, z)
    ensures forall j :: j in former ==> j in z.revealed
  {
  }

  lemma SentToOne(former: seq<nat>, members: seq<nat>, z: ReshareMessages, m: nat)
    requires AllSent(former, members, z) && m in members
    ensures AllSent(former, [m], z)
  {
  }

  ghost predicate MemberKey(former: seq<nat>, z: ReshareMessages, t: nat, m: nat, key: KeyShare) {
    && DistinctMod(former) && (forall j :: j in former ==> j in z.revealed)
    && key == KeyShare(m, At(NewCom(former, z), m), NewCom(former, z)) && |key.com| == t
  }

  lemma MemberKeyIs(former: seq<nat>, z: ReshareMessages, t: nat, m: nat, key: KeyShare)
    requires DistinctMod(former) && forall j :: j in former ==> j in z.revealed
    requires key == KeyShare(m, At(NewCom(former, z), m), NewCom(former, z)) && |key.com| == t
    ensures MemberKey(former, z, t, m, key)
  {
  }

  lemma NextEpochIs(former: Committee, joining: Committee, keys: seq<KeyShare>, sid: bytes, z: ReshareMessages,
                    next: seq<KeyShare>)
    requires former.Valid() && joining.Valid() && KeySet(keys, former.t) && |next| == |joining.ids|
    requires forall i :: 0 <= i < |next| ==> MemberKey(former.ids, z, joining.t, joining.ids[i], next[i])
    requires DealsOk(keys[0].com, joining.t, sid, z, former.ids, joining.ids[0], |former.ids|)
    ensures NextEpoch(keys, joining.ids, joining.t, next) && next[0].com == NewCom(former.ids, z)
  {
    hide NewCom;
    hide Weights;
    hide Eval;
    hide DealBound;
    assert MemberKey(former.ids, z, joining.t, joining.ids[0], next[0]);
    forall k | 0 <= k < |former.ids|
      ensures DealBound(keys[0].com, joining.t, sid, z, former.ids[k])
    {
    }
    ReshareKeeps(former.ids, keys[0].com, joining.t, sid, z);
    forall i | 0 <= i < |next|
      ensures next[i].index == joining.ids[i] && next[i].com == next[0].com && |next[i].com| == joining.t
      ensures VerifyShare(next[i].com, next[i].index, next[i].share)
    {
      assert MemberKey(former.ids, z, joining.t, joining.ids[i], next[i]);
    }
  }

  // ---------------------------------------------------------------- epochs

  /** One maintenance step: what was dealt in it, and (`joint`) the sharing of zero that a refresh
      session established. */
  datatype Maintenance =
    | Refreshed(sid: bytes, dealing: Dealing, joint: Sharing)
    | Reshared(joining: Committee, sid: bytes, messages: ReshareMessages)

  /** A step succeeds: the dealings pass the checks the code makes, and the new shares are what
      the members compute from them.  Nothing is said about the key. */
  ghost predicate Succeeds(c: Committee, keys: seq<KeyShare>, m: Maintenance, c': Committee, next: seq<KeyShare>) {
    match m
    case Refreshed(sid, d, z) =>
      && c' == c && Matches(c.ids, keys) && |next| == |keys|
      && FromCommittee(c.ids, RefreshSession(sid, c.t), d) && Accepted(c.ids, RefreshSession(sid, c.t), d)
      && ZeroConstants(c.ids, d.r2, |c.ids|) && Established(c.ids, RefreshSession(sid, c.t), d, 0, z)
      && forall k :: 0 <= k < |next| ==> k < |z.shares| && next[k] == Shifted(keys[k], z, k)
    case Reshared(joining, sid, z) =>
      && c' == joining && joining.Valid() && Matches(c.ids, keys) && keys != [] && |next| == |joining.ids|
      && forall i :: 0 <= i < |next| ==>
        DealsOk(keys[0].com, joining.t, sid, z, c.ids, joining.ids[i], |c.ids|)
        && MemberKey(c.ids, z, joining.t, joining.ids[i], next[i])
  }

  /** A step keeps the key, whatever was dealt. */
  lemma StepKeepsKey(c: Committee, keys: seq<KeyShare>, m: Maintenance, c': Committee, next: seq<KeyShare>)
    requires c.Valid() && KeySet(keys, c.t) && Succeeds(c, keys, m, c', next)
    ensures c'.Valid() && NextEpoch(keys, c'.ids, c'.t, next)
  {
    hide KeySet;
    hide FromCommittee;
    hide Accepted;
    hide Combine;
    hide VerifyShare;
    hide At;
    hide DealsOk;
    hide MemberKey;
    hide NextEpoch;
    hide Shifted;
    hide PublicKey;
    match m {
      case Refreshed(sid, d, z) =>
        IdsDistinct(c);
        RevealsShaped(c.ids, RefreshSession(sid, c.t), d, z);
        JointZero(c.ids, d.r2);
        RefreshKeeps(c.ids, keys, z, c.t, next);
      case Reshared(joining, sid, z) =>
        NextEpochIs(c, joining, keys, sid, z, next);
    }
  }

  /** A successful refresh really refreshes: every share and commitment moves by the joint zero
      polynomial that the session dealt, and by nothing else. */
  lemma RefreshRenews(c: Committee, keys: seq<KeyShare>, sid: bytes, d: Dealing, z: Sharing, c': Committee,
                      next: seq<KeyShare>)
    requires Succeeds(c, keys, Refreshed(sid, d, z), c', next)
    ensures AllRenewed(c.ids, d.r2, keys, next)
  {
    hide JointCom;
    hide Renewed;
    hide Shifted;
    hide VerifyShare;
    hide Accepted;
    hide FromCommittee;
    forall k | 0 <= k < |c.ids|
      ensures Renewed(keys[k], JointCom(c.ids, d.r2, 0), next[k])
    {
      ShiftedRenews(keys[k], z, k);
    }
  }

  /** Key epochs: the first is a key set of its committee, each later one the outcome of a
      successful refresh or re-sharing of the one before. */
  ghost predicate History(committees: seq<Committee>, epochs: seq<seq<KeyShare>>, steps: seq<Maintenance>) {
    && |committees| == |epochs| == |steps| + 1
    && committees[0].Valid() && KeySet(epochs[0], committees[0].t) && Matches(committees[0].ids, epochs[0])
    && forall i :: 0 <= i < |steps| ==> Succeeds(committees[i], epochs[i], steps[i], committees[i + 1], epochs[i + 1])
  }

  /** Through any history the public key stays, and every epoch's shares are on one polynomial of
      that epoch's length with the key at 0. */
  lemma {:induction false} HistoryKeepsKey(committees: seq<Committee>, epochs: seq<seq<KeyShare>>,
                                           steps: seq<Maintenance>, i: nat)
    requires History(committees, epochs, steps) && i < |epochs|
    ensures committees[i].Valid() && KeySet(epochs[i], committees[i].t) && Matches(committees[i].ids, epochs[i])
    ensures epochs[i] != [] && epochs[0] != [] && PublicKey(epochs[i]) == PublicKey(epochs[0])
    decreases i
  {
    hide At;
    hide VerifyShare;
    hide Succeeds;
    if i > 0 {
      HistoryKeepsKey(committees, epochs, steps, i - 1);
      assert Succeeds(committees[i - 1], epochs[i - 1], steps[i - 1], committees[i - 1 + 1], epochs[i - 1 + 1]);
      StepKeepsKey(committees[i - 1], epochs[i - 1], steps[i - 1], committees[i], epochs[i]);
    }
  }
}
