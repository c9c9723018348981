/** Robust presigning (src/protocol/presign.rs): blame and continue.  Cheaters are expelled as
    they show up; the survivors' records are those of the fault-free run. */
module PresignRobust {
  import opened Field
  import opened Polynomials
  import opened Shamir
  import opened Vss
  import opened Outcomes
  import opened Committees
  import opened IdLists
  import opened Dkg
  import opened Triples
  import opened Beaver
  import opened Broadcasts
  import opened Sign
  import opened Keys
  import opened Presign
  import Opening
  import Ecdsa

  // ---------------------------------------------------------------- expulsion

  /** `active.retain(|p| p != j)`. */
  method Retain(active: seq<nat>, j: nat) returns (r: seq<nat>)
    ensures r == Remaining(active, {j})
  {
    r := [];
    assert active[..0] == [];
    for i := 0 to |active|
      invariant r == Remaining(active[..i], {j})
    {
      assert active[..i + 1][..i] == active[..i];
      if active[i] != j {
        r := r + [active[i]];
      }
    }
    assert active[..|active|] == active;
  }

  /** `expel`: blame without duplicates, and drop from the active set. */
  method Expel(blamed0: seq<nat>, active0: seq<nat>, caught: seq<nat>) returns (blamed: seq<nat>, active: seq<nat>)
    requires NoRepeats(blamed0)
    ensures NoRepeats(blamed) && Members(blamed) == Members(blamed0) + Members(caught)
    ensures active == Remaining(active0, Members(caught))
  {
    blamed, active := blamed0, active0;
    RemainingAll(active0, {});
    assert Members(caught[..0]) == {};
    for i := 0 to |caught|
      invariant NoRepeats(blamed) && Members(blamed) == Members(blamed0) + Members(caught[..i])
      invariant active == Remaining(active0, Members(caught[..i]))
    {
      var j := caught[i];
      assert caught[..i + 1] == caught[..i] + [j];
      MembersSnoc(caught[..i], j);
      MembersSnoc(blamed, j);
      if j !in blamed {
        blamed := blamed + [j];
      } else {
        assert j in Members(blamed);
      }
      RemainingTwice(active0, Members(caught[..i]), {j});
      active := Retain(active, j);
    }
    assert caught[..|caught|] == caught;
  }

  /** The members of the committee that cheat in one round. */
  ghost function CheatSet(com: Poly, fake: Faults, ids: seq<nat>): set<nat> {
    set j | j in ids && Cheats(com, fake, j)
  }

  /** Expelling the cheaters among the active leaves exactly those outside the cheat set. */
  lemma ExpelRound(ids: seq<nat>, gone: set<nat>, com: Poly, fake: Faults)
    ensures var active := Remaining(ids, gone);
      var bad := Cheaters(com, fake, active);
      && gone + Members(bad) == gone + CheatSet(com, fake, ids)
      && |active| - |bad| == |Remaining(ids, gone + CheatSet(com, fake, ids))|
  {
    hide Cheats;
    hide Cheaters;
    hide Remaining;
    var active := Remaining(ids, gone);
    var bad := Cheaters(com, fake, active);
    RemainingMembers(ids, gone);
    forall j ensures j in bad <==> j in active && Cheats(com, fake, j) { CheatersExactly(com, fake, active, j); }
    assert gone + Members(bad) == gone + CheatSet(com, fake, ids);
    RemainingTwice(ids, gone, CheatSet(com, fake, ids));
    CountCheaters(com, fake, active, CheatSet(com, fake, ids));
  }

  lemma {:induction false} CountCheaters(com: Poly, fake: Faults, list: seq<nat>, bad: set<nat>)
    requires forall j :: j in list ==> (j in bad <==> Cheats(com, fake, j))
    ensures |Remaining(list, bad)| == |list| - |Cheaters(com, fake, list)|
    decreases |list|
  {
    hide Cheats;
    if list != [] {
      CountCheaters(com, fake, list[..|list| - 1], bad);
    }
  }

  // ---------------------------------------------------------------- active shares

  /** The entries of a per-party array that belong to the active parties. */
  ghost function Pick<T>(ids: seq<nat>, vals: seq<T>, active: seq<nat>): (r: seq<T>)
    requires |vals| == |ids| && forall j :: j in active ==> j in ids
    ensures |r| == |active| && forall i :: 0 <= i < |r| ==> r[i] == vals[PositionOf(ids, active[i])]
  {
    seq(|active|, i requires 0 <= i < |active| => assert active[i] in active; vals[PositionOf(ids, active[i])])
  }

  /** `active_shares`. */
  method ActiveShares<T>(ids: seq<nat>, vals: seq<T>, active: seq<nat>) returns (r: seq<T>)
    requires StrictlyIncreasing(ids) && |vals| == |ids| && forall j :: j in active ==> j in ids
    ensures r == Pick(ids, vals, active)
  {
    r := [];
    for i := 0 to |active|
      invariant r == Pick(ids, vals, active)[..i]
    {
      assert active[i] in active;
      var p := Position(ids, active[i]);
      PositionUnique(ids, p);
      r := r + [vals[p]];
    }
  }

  /** The members that take part, given those that do not. */
  method Present(ids: seq<nat>, absent: set<nat>) returns (r: seq<nat>)
    ensures r == Remaining(ids, absent)
    ensures forall j :: j in r ==> j in ids
  {
    r := [];
    for k := 0 to |ids|
      invariant r == Remaining(ids[..k], absent)
    {
      assert ids[..k + 1] == ids[..k] + [ids[k]];
      RemainingSnoc(ids[..k], ids[k], absent);
      if ids[k] !in absent {
        r := r + [ids[k]];
      }
    }
    assert ids[..|ids|] == ids;
    RemainingMembers(ids, absent);
  }

  lemma PickHonest(com: Poly, ids: seq<nat>, honest: seq<Scalar>, active: seq<nat>)
    requires HonestShares(com, ids, honest) && forall j :: j in active ==> j in ids
    ensures |honest| == |ids| && HonestShares(com, active, Pick(ids, honest, active))
  {
    hide VerifyShare;
    forall i | 0 <= i < |active|
      ensures VerifyShare(com, active[i], Pick(ids, honest, active)[i])
    {
      assert active[i] in active;
      assert VerifyShare(com, ids[PositionOf(ids, active[i])], honest[PositionOf(ids, active[i])]);
    }
  }

  lemma RemainingDistinct(c: Committee, gone: set<nat>)
    requires c.Valid()
    ensures DistinctMod(Remaining(c.ids, gone)) && StrictlyIncreasing(Remaining(c.ids, gone))
    ensures forall j :: j in Remaining(c.ids, gone) ==> j in c.ids
  {
    RemainingMembers(c.ids, gone);
    var r := Remaining(c.ids, gone);
    forall i, j | 0 <= i < j < |r|
      ensures !Cong(r[i], r[j])
    {
      assert r[i] in c.ids && r[j] in c.ids;
      RedScalar(r[i]);
      RedScalar(r[j]);
    }
  }

  /** One robust opening over the active parties. */
  method RobustOpening(c: Committee, com: Poly, active: seq<nat>, honest: seq<Scalar>, fake: Faults,
                       ghost gone: set<nat>)
    returns (r: Outcome<(Scalar, seq<nat>)>)
    requires c.Valid() && |com| <= c.t && HonestShares(com, c.ids, honest) && active == Remaining(c.ids, gone)
    ensures r.Ok? || r.NotEnoughShares?
    ensures r.Ok? <==> |Remaining(c.ids, gone + CheatSet(com, fake, c.ids))| >= c.t
    ensures r.Ok? ==> r.value == (At(com, 0), Cheaters(com, fake, active))
  {
    hide Remaining;
    hide CheatSet;
    hide Cheaters;
    hide HonestShares;
    hide Eval;
    hide Red;
    RemainingDistinct(c, gone);
    ExpelRound(c.ids, gone, com, fake);
    PickHonest(com, c.ids, honest, active);
    var shares := ActiveShares(c.ids, honest, active);
    r := OpenRoundRobust(c.t, com, active, shares, fake);
  }

  /** P3, robust: bad points are filtered, R is interpolated over every valid sender. */
  method RobustNonce(c: Committee, kCom: Poly, active: seq<nat>, honest: seq<Scalar>, fake: Faults,
                     ghost gone: set<nat>)
    returns (bad: seq<nat>, senders: seq<nat>, points: seq<Scalar>)
    requires c.Valid() && |kCom| == c.t && HonestShares(kCom, c.ids, honest) && active == Remaining(c.ids, gone)
    ensures bad == Cheaters(kCom, fake, active) && |senders| == |points|
    ensures |senders| == |Remaining(c.ids, gone + CheatSet(kCom, fake, c.ids))|
    ensures |senders| >= c.t ==> DistinctMod(senders) && Interpolated(0, senders, points) == At(kCom, 0)
  {
    hide Remaining;
    hide CheatSet;
    hide Cheaters;
    hide HonestShares;
    hide Eval;
    hide Red;
    hide Opening.ValidShares;
    hide Opening.Blamed;
    RemainingDistinct(c, gone);
    ExpelRound(c.ids, gone, kCom, fake);
    PickHonest(kCom, c.ids, honest, active);
    var shares := ActiveShares(c.ids, honest, active);
    var sent := Sent(active, shares, fake);
    SentDistinct(active, shares, fake);
    BlamedAreCheaters(kCom, active, shares, fake);
    senders, points, bad := Opening.Filter(kCom, sent);
    ghost var valid := Opening.ValidShares(kCom, sent);
    if |senders| >= c.t {
      Opening.DistinctFirst(|valid|, kCom, sent);
      Opening.OpensToCommitted(kCom, sent, |valid|, 0);
      assert valid[..|valid|] == valid;
    }
  }

  // ---------------------------------------------------------------- the run

  /** All the members that cheat in some round. */
  ghost function CheatingMembers(x: Context, f: PresignFaults, ids: seq<nat>): set<nat>
    requires x.pub1.cc != [] && x.pub2.cc != []
  {
    set j | j in ids && CheatsIn(x, f, j)
  }

  /** What a robust run returns: the fault-free records of those that never cheated, and the
      cheaters in increasing order. */
  ghost predicate RobustResult(ids: seq<nat>, bad: set<nat>, ideal: seq<Presignature>, records: seq<Presignature>,
                               blamed: seq<nat>)
    requires |ideal| == |ids|
  {
    && Members(blamed) == bad && StrictlyIncreasing(blamed)
    && (forall j :: j in Remaining(ids, bad) ==> j in ids)
    && records == Pick(ids, ideal, Remaining(ids, bad))
  }

  /** The bookkeeping that every step keeps: the blamed and the active partition the committee. */
  ghost predicate Books(ids: seq<nat>, gone: set<nat>, blamed: seq<nat>, active: seq<nat>) {
    NoRepeats(blamed) && Members(blamed) == gone && gone <= Members(ids) && active == Remaining(ids, gone)
  }

  /** Blamed and active never overlap and always make up the committee. */
  lemma BooksPartition(ids: seq<nat>, gone: set<nat>, blamed: seq<nat>, active: seq<nat>)
    requires Books(ids, gone, blamed, active)
    ensures Members(blamed) !! Members(active) && Members(blamed) + Members(active) == Members(ids)
  {
    RemainingMembers(ids, gone);
    assert forall j :: j in active <==> j in ids && j !in gone;
    assert forall j :: j in Members(ids) <==> j in ids;
  }

  method ExpelCheaters(ids: seq<nat>, blamed0: seq<nat>, active0: seq<nat>, caught: seq<nat>,
                       ghost gone: set<nat>, ghost com: Poly, ghost fake: Faults)
    returns (blamed: seq<nat>, active: seq<nat>)
    requires Books(ids, gone, blamed0, active0) && caught == Cheaters(com, fake, active0)
    ensures Books(ids, gone + CheatSet(com, fake, ids), blamed, active)
  {
    hide Remaining;
    hide Cheaters;
    hide Cheats;
    blamed, active := Expel(blamed0, active0, caught);
    ExpelRound(ids, gone, com, fake);
    RemainingTwice(ids, gone, Members(caught));
  }

  /** Two openings that ride in one broadcast round are expelled together: the second blame list
      was computed before the first expulsion. */
  method ExpelBoth(ids: seq<nat>, blamed0: seq<nat>, active0: seq<nat>, caught1: seq<nat>, caught2: seq<nat>,
                   ghost gone: set<nat>,
                   ghost com1: Poly, ghost fake1: Faults, ghost com2: Poly, ghost fake2: Faults)
    returns (blamed: seq<nat>, active: seq<nat>)
    requires Books(ids, gone, blamed0, active0)
    requires caught1 == Cheaters(com1, fake1, active0) && caught2 == Cheaters(com2, fake2, active0)
    ensures Books(ids, gone + CheatSet(com1, fake1, ids) + CheatSet(com2, fake2, ids), blamed, active)
  {
    hide Remaining;
    hide Cheaters;
    hide Cheats;
    var blamed1, active1 := Expel(blamed0, active0, caught1);
    blamed, active := Expel(blamed1, active1, caught2);
    ExpelRound(ids, gone, com1, fake1);
    ExpelRound(ids, gone, com2, fake2);
    RemainingTwice(ids, gone, Members(caught1));
    RemainingTwice(ids, gone + Members(caught1), Members(caught2));
    ghost var all := gone + CheatSet(com1, fake1, ids) + CheatSet(com2, fake2, ids);
    assert gone + Members(caught1) + Members(caught2) == all;
  }

  /** Gone after the openings of P2, after the nonce round, and at the end. */
  ghost function GoneAfterV(x: Context, f: PresignFaults, ids: seq<nat>): set<nat>
    requires x.pub1.cc != []
  {
    {} + CheatSet(x.DeltaCom(), f.delta, ids) + CheatSet(x.EpsCom(), f.eps, ids) + CheatSet(x.VCom(), f.v, ids)
  }

  ghost function GoneAfterNonce(x: Context, f: PresignFaults, ids: seq<nat>): set<nat>
    requires x.pub1.cc != [] && x.V() != 0
  {
    GoneAfterV(x, f, ids) + CheatSet(x.KCom(), f.nonce, ids)
  }

  ghost function GoneAtEnd(x: Context, f: PresignFaults, ids: seq<nat>): set<nat>
    requires x.pub1.cc != [] && x.pub2.cc != [] && x.V() != 0
  {
    GoneAfterNonce(x, f, ids) + CheatSet(x.D2Com(), f.d2, ids) + CheatSet(x.E2Com(), f.e2, ids)
  }

  /** In a run that reaches the end, gone are exactly those that cheat in some round. */
  lemma GoneAreCheaters(x: Context, f: PresignFaults, ids: seq<nat>)
    requires x.pub1.cc != [] && x.pub2.cc != []
    ensures GoneAfterV(x, f, ids) <= CheatingMembers(x, f, ids)
    ensures x.V() != 0 ==> GoneAtEnd(x, f, ids) == CheatingMembers(x, f, ids)
  {
    hide Cheats;
    hide MaskCom;
    hide ProductCom;
    hide Scale;
    hide Inv;
    hide At;
  }

  /** Enough members never cheat. */
  ghost predicate Enough(c: Committee, x: Context, f: PresignFaults)
    requires x.pub1.cc != [] && x.pub2.cc != []
  {
    |Remaining(c.ids, CheatingMembers(x, f, c.ids))| >= c.t
  }

  lemma TooFew(c: Committee, x: Context, f: PresignFaults, gone: set<nat>)
    requires x.pub1.cc != [] && x.pub2.cc != []
    requires gone <= CheatingMembers(x, f, c.ids) && |Remaining(c.ids, gone)| < c.t
    ensures !Enough(c, x, f)
  {
    RemainingShrinks(c.ids, gone, CheatingMembers(x, f, c.ids));
  }

  lemma NobodyGone(ids: seq<nat>)
    ensures Books(ids, {}, [], ids)
  {
    RemainingAll(ids, {});
  }

  ghost predicate Inputs(c: Committee, u: Sharing, a: Sharing, t1: Triple, t2: Triple, key: Sharing, x: Context) {
    && c.Valid() && Ingredients(c.ids, c.t, u, a, t1, t2) && Shared(c.ids, key, c.t)
    && x == ContextOf(0, u, a, key.com, t1, t2) && x.Sized(c.t) && x.Multiplies()
  }

  /** P2: open the masks, expel, then open v among the active. */
  method RobustV(c: Committee, u: Sharing, a: Sharing, t1: Triple, ghost t2: Triple, ghost key: Sharing,
                 ghost x: Context, f: PresignFaults)
    returns (r: Outcome<Scalar>, blamed: seq<nat>, active: seq<nat>)
    requires Inputs(c, u, a, t1, t2, key, x)
    ensures r.Ok? || r.NotEnoughShares?
    ensures r.NotEnoughShares? ==> !Enough(c, x, f)
    ensures r.Ok? ==> r.value == x.V() && Books(c.ids, GoneAfterV(x, f, c.ids), blamed, active)
  {
    hide MaskCom;
    hide ProductCom;
    hide ProductShare;
    hide HonestShares;
    hide WellShared;
    hide Shared;
    hide Multiplicative;
    hide CheatSet;
    hide Cheaters;
    hide Remaining;
    hide Books;
    hide Enough;
    hide CheatingMembers;
    hide Red;
    hide Eval;
    NonEmpty(c.ids, c.t, u, a, t1, t2);
    GoneAreCheaters(x, f, c.ids);
    NobodyGone(c.ids);
    blamed, active := [], c.ids;
    BooksActive(c.ids, {}, blamed, active);
    SidesShared(c.ids, t1, c.t);
    MaskSharesHonest(c.ids, u, ASide(t1), c.t, c.t);
    MaskSharesHonest(c.ids, a, BSide(t1), c.t, c.t);
    var deltaCom, epsCom := MaskCom(u.com, t1.pub.ca), MaskCom(a.com, t1.pub.cb);
    var delta := RobustOpening(c, deltaCom, active, MaskShares(u, ASide(t1)), f.delta, {});
    if !delta.Ok? {
      TooFew(c, x, f, {} + CheatSet(deltaCom, f.delta, c.ids));
      return NotEnoughShares(delta.got, delta.need), blamed, active;
    }
    var eps := RobustOpening(c, epsCom, active, MaskShares(a, BSide(t1)), f.eps, {});
    if !eps.Ok? {
      TooFew(c, x, f, {} + CheatSet(epsCom, f.eps, c.ids));
      return NotEnoughShares(eps.got, eps.need), blamed, active;
    }
    blamed, active := ExpelBoth(c.ids, blamed, active, delta.value.1, eps.value.1, {},
                                deltaCom, f.delta, epsCom, f.eps);
    ghost var gone := {} + CheatSet(deltaCom, f.delta, c.ids) + CheatSet(epsCom, f.eps, c.ids);
    BooksActive(c.ids, gone, blamed, active);
    ProductSharesHonest(c.ids, t1, delta.value.0, eps.value.0, c.t);
    var vCom := ProductCom(t1.pub, delta.value.0, eps.value.0);
    var v := RobustOpening(c, vCom, active, ProductShares(t1, delta.value.0, eps.value.0), f.v, gone);
    if !v.Ok? {
      TooFew(c, x, f, gone + CheatSet(vCom, f.v, c.ids));
      return NotEnoughShares(v.got, v.need), blamed, active;
    }
    blamed, active := ExpelCheaters(c.ids, blamed, active, v.value.1, gone, vCom, f.v);
    r := Ok(v.value.0);
  }

  lemma BooksActive(ids: seq<nat>, gone: set<nat>, blamed: seq<nat>, active: seq<nat>)
    requires Books(ids, gone, blamed, active)
    ensures active == Remaining(ids, gone)
  {
  }

  /** P3: the nonce point over every valid sender. */
  method RobustR(c: Committee, u: Sharing, a: Sharing, ghost t1: Triple, ghost t2: Triple, ghost key: Sharing,
                 ghost x: Context,
                 f: PresignFaults, v: Scalar, blamed0: seq<nat>, active0: seq<nat>)
    returns (r: Outcome<Scalar>, blamed: seq<nat>, active: seq<nat>)
    requires Inputs(c, u, a, t1, t2, key, x)
    requires v == x.V() != 0 && Books(c.ids, GoneAfterV(x, f, c.ids), blamed0, active0)
    ensures r.Ok? || r.NotEnoughShares?
    ensures r.NotEnoughShares? ==> !Enough(c, x, f)
    ensures r.Ok? ==> r.value == At(x.KCom(), 0) && Books(c.ids, GoneAfterNonce(x, f, c.ids), blamed, active)
  {
    hide MaskCom;
    hide ProductCom;
    hide ProductShare;
    hide HonestShares;
    hide WellShared;
    hide Multiplicative;
    hide VerifyShare;
    hide CheatSet;
    hide Cheaters;
    hide Remaining;
    hide Books;
    hide Enough;
    hide CheatingMembers;
    hide GoneAfterV;
    hide Red;
    hide Eval;
    hide Inv;
    hide Scale;
    NonEmpty(c.ids, c.t, u, a, t1, t2);
    GoneAreCheaters(x, f, c.ids);
    ghost var gone := GoneAfterV(x, f, c.ids);
    BooksActive(c.ids, gone, blamed0, active0);
    var vInv := Inv(v);
    NonceSharesHonest(c.ids, a, vInv, c.t);
    var kCom := Scale(a.com, vInv);
    ScaleLength(a.com, vInv);
    var bad, senders, points := RobustNonce(c, kCom, active0, NonceShares(a, vInv), f.nonce, gone);
    blamed, active := ExpelCheaters(c.ids, blamed0, active0, bad, gone, kCom, f.nonce);
    if |senders| < c.t {
      TooFew(c, x, f, gone + CheatSet(kCom, f.nonce, c.ids));
      return NotEnoughShares(|senders|, c.t), blamed, active;
    }
    var bigR := InterpolateAt(0, senders, points);
    r := Ok(bigR);
  }

  /** P4: open the two masks of the key product over the active. */
  method RobustZ(c: Committee, u: Sharing, ghost a: Sharing, ghost t1: Triple, t2: Triple, key: Sharing,
                 ghost x: Context,
                 f: PresignFaults, blamed0: seq<nat>, active0: seq<nat>)
    returns (r: Outcome<(Scalar, Scalar)>, blamed: seq<nat>, active: seq<nat>)
    requires Inputs(c, u, a, t1, t2, key, x)
    requires x.V() != 0 && Books(c.ids, GoneAfterNonce(x, f, c.ids), blamed0, active0)
    ensures r.Ok? || r.NotEnoughShares?
    ensures r.NotEnoughShares? ==> !Enough(c, x, f)
    ensures r.Ok? ==>
      r.value == (At(x.D2Com(), 0), At(x.E2Com(), 0)) && Books(c.ids, CheatingMembers(x, f, c.ids), blamed, active)
  {
    hide MaskCom;
    hide ProductCom;
    hide ProductShare;
    hide HonestShares;
    hide WellShared;
    hide Multiplicative;
    hide VerifyShare;
    hide CheatSet;
    hide Cheaters;
    hide Remaining;
    hide Books;
    hide Enough;
    hide CheatingMembers;
    hide GoneAfterNonce;
    hide Red;
    hide Eval;
    NonEmpty(c.ids, c.t, u, a, t1, t2);
    GoneAreCheaters(x, f, c.ids);
    ghost var gone := GoneAfterNonce(x, f, c.ids);
    BooksActive(c.ids, gone, blamed0, active0);
    SidesShared(c.ids, t2, c.t);
    MaskSharesHonest(c.ids, u, ASide(t2), c.t, c.t);
    MaskSharesHonest(c.ids, key, BSide(t2), c.t, c.t);
    var d2Com, e2Com := MaskCom(u.com, t2.pub.ca), MaskCom(key.com, t2.pub.cb);
    var d2 := RobustOpening(c, d2Com, active0, MaskShares(u, ASide(t2)), f.d2, gone);
    if !d2.Ok? {
      TooFew(c, x, f, gone + CheatSet(d2Com, f.d2, c.ids));
      return NotEnoughShares(d2.got, d2.need), blamed0, active0;
    }
    var e2 := RobustOpening(c, e2Com, active0, MaskShares(key, BSide(t2)), f.e2, gone);
    if !e2.Ok? {
      TooFew(c, x, f, gone + CheatSet(e2Com, f.e2, c.ids));
      return NotEnoughShares(e2.got, e2.need), blamed0, active0;
    }
    blamed, active := ExpelBoth(c.ids, blamed0, active0, d2.value.1, e2.value.1, gone, d2Com, f.d2, e2Com, f.e2);
    r := Ok((d2.value.0, e2.value.0));
  }

  /** `presign_robust_with_committee`, after dealing.  Whatever the cheaters broadcast: no abort;
      not too few shares while t members never cheat; and then the result is the fault-free one,
      with exactly the cheaters blamed. */
  method WithCommittee(c: Committee, keys: seq<KeyShare>, id: nat, u: Sharing, a: Sharing, t1: Triple, t2: Triple,
                       f: PresignFaults)
    returns (r: Outcome<(seq<Presignature>, seq<nat>)>)
    requires c.Valid() && Ingredients(c.ids, c.t, u, a, t1, t2) && Multiplicative(t1.pub, 0)
      && Multiplicative(t2.pub, 0)
    requires Matches(c.ids, keys) ==> KeySet(keys, c.t)
    ensures r.Ok? || r.NotEnoughShares? || r.ZeroValue? || r.InvalidParams?
    ensures r.InvalidParams? <==> !Matches(c.ids, keys)
    ensures !r.InvalidParams? ==>
      var x := ContextOf(0, u, a, keys[0].com, t1, t2);
      && (r.NotEnoughShares? ==> !Enough(c, x, f))
      && (r.ZeroValue? ==> Ideal(id, c.ids, x, u, t2) == ZeroValue)
      && (r.Ok? ==> Ideal(id, c.ids, x, u, t2).Ok?)
      && (r.Ok? ==> RobustResult(c.ids, CheatingMembers(x, f, c.ids), Ideal(id, c.ids, x, u, t2).value,
                                 r.value.0, r.value.1))
  {
    hide MaskCom;
    hide ProductCom;
    hide ProductShare;
    hide WellShared;
    hide Multiplicative;
    hide VerifyShare;
    hide Shared;
    hide KeySet;
    hide Remaining;
    hide Books;
    hide Enough;
    hide CheatingMembers;
    hide GoneAfterV;
    hide GoneAfterNonce;
    hide Red;
    hide Eval;
    hide Inv;
    hide RobustResult;
    var matches := CheckInputs(c.ids, keys);
    if !matches {
      return InvalidParams;
    }
    NonEmpty(c.ids, c.t, u, a, t1, t2);
    KeySideShared(c.ids, keys, c.t);
    var key := KeySide(keys);
    ghost var x := ContextOf(0, u, a, key.com, t1, t2);
    var v, blamed, active := RobustV(c, u, a, t1, t2, key, x, f);
    if !v.Ok? {
      return NotEnoughShares(v.got, v.need);
    }
    if v.value == 0 {
      return ZeroValue;
    }
    var bigR;
    bigR, blamed, active := RobustR(c, u, a, t1, t2, key, x, f, v.value, blamed, active);
    if !bigR.Ok? {
      return NotEnoughShares(bigR.got, bigR.need);
    }
    if Ecdsa.F(bigR.value) == 0 {
      return ZeroValue;
    }
    var masks;
    masks, blamed, active := RobustZ(c, u, a, t1, t2, key, x, f, blamed, active);
    if !masks.Ok? {
      return NotEnoughShares(masks.got, masks.need);
    }
    var zCom := ProductCom(t2.pub, masks.value.0, masks.value.1);
    var all := RecordsOf(id, c.ids, Ecdsa.F(bigR.value), bigR.value, u, t2, masks.value.0, masks.value.1, zCom);
    ActiveAreMembers(c.ids, CheatingMembers(x, f, c.ids), blamed, active);
    var records := ActiveShares(c.ids, all, active);
    BlameSorted(c.ids, CheatingMembers(x, f, c.ids), blamed, active);
    RobustResultIs(c.ids, CheatingMembers(x, f, c.ids), all, records, Sort(blamed));
    return Ok((records, Sort(blamed)));
  }

  lemma ActiveAreMembers(ids: seq<nat>, gone: set<nat>, blamed: seq<nat>, active: seq<nat>)
    requires Books(ids, gone, blamed, active)
    ensures active == Remaining(ids, gone) && forall j :: j in active ==> j in ids
  {
    RemainingMembers(ids, gone);
  }

  lemma BlameSorted(ids: seq<nat>, gone: set<nat>, blamed: seq<nat>, active: seq<nat>)
    requires Books(ids, gone, blamed, active)
    ensures Members(Sort(blamed)) == gone && StrictlyIncreasing(Sort(blamed))
  {
    hide Sort;
    SortOrdered(blamed);
    SameMembers(Sort(blamed), blamed);
    NoRepeatsSurvive(blamed, Sort(blamed));
  }

  lemma RobustResultIs(ids: seq<nat>, bad: set<nat>, ideal: seq<Presignature>, records: seq<Presignature>,
                       blamed: seq<nat>)
    requires |ideal| == |ids| && Members(blamed) == bad && StrictlyIncreasing(blamed)
    requires forall j :: j in Remaining(ids, bad) ==> j in ids
    requires records == Pick(ids, ideal, Remaining(ids, bad))
    ensures RobustResult(ids, bad, ideal, records, blamed)
  {
  }

  /** With an honest majority left over: if at most n - t members cheat (at most t - 1 in the
      smallest committee), enough never do, so NotEnoughShares is unreachable. */
  lemma FewCheaters(c: Committee, x: Context, f: PresignFaults)
    requires c.Valid() && x.pub1.cc != [] && x.pub2.cc != []
    requires |CheatingMembers(x, f, c.ids)| <= |c.ids| - c.t
    ensures Enough(c, x, f)
  {
    hide CheatsIn;
    RemainingCount(c.ids, CheatingMembers(x, f, c.ids));
  }

  /** The survivors' records are a presignature of the key, exactly as in a fault-free run. */
  lemma RobustIsPresignature(id: nat, ids: seq<nat>, x: Context, u: Sharing, t2: Triple, len: nat, bad: set<nat>,
                             records: seq<Presignature>, blamed: seq<nat>)
    requires x.Sized(len) && x.Multiplies() && ids != [] && DistinctMod(ids) && StrictlyIncreasing(ids)
    requires u.com == x.uCom && t2.pub == x.pub2 && Shared(ids, u, len) && WellShared(ids, t2, len)
    requires Ideal(id, ids, x, u, t2).Ok? && RobustResult(ids, bad, Ideal(id, ids, x, u, t2).value, records, blamed)
    requires records != []
    ensures RecordSet(records) && |records[0].uCom| == |records[0].zCom| == len
      && Bound(records[0], x.e, At(x.xCom, x.e))
    ensures forall p :: p in records ==> p.index in ids && p.index !in blamed
  {
    hide VerifyShare;
    hide Ideal;
    hide RecordSet;
    hide Bound;
    hide RobustResult;
    hide MaskCom;
    hide ProductCom;
    hide Red;
    var ideal := Ideal(id, ids, x, u, t2).value;
    IdealIsPresignature(id, ids, x, u, t2, len);
    IdealIndices(id, ids, x, u, t2);
    PickedRecords(ids, bad, ideal, records, blamed, x.e, At(x.xCom, x.e), len);
  }

  lemma PickedRecords(ids: seq<nat>, bad: set<nat>, ideal: seq<Presignature>, records: seq<Presignature>,
                      blamed: seq<nat>,
                      e: int, key: Scalar, len: nat)
    requires DistinctMod(ids) && StrictlyIncreasing(ids) && |ideal| == |ids| && records != []
    requires RecordSet(ideal) && |ideal[0].uCom| == |ideal[0].zCom| == len && Bound(ideal[0], e, key)
    requires forall k :: 0 <= k < |ids| ==> ideal[k].index == ids[k]
    requires RobustResult(ids, bad, ideal, records, blamed)
    ensures RecordSet(records) && |records[0].uCom| == |records[0].zCom| == len && Bound(records[0], e, key)
    ensures forall p :: p in records ==> p.index in ids && p.index !in blamed
  {
    hide RecordSet;
    hide Bound;
    hide Red;
    hide Remaining;
    PickedSet(ids, bad, ideal, records, e, key, len);
    RemainingMembers(ids, bad);
    forall p | p in records
      ensures p.index !in blamed
    {
      assert p.index in Members(blamed) <==> p.index in bad;
    }
  }

  /** The records of any members of a committee are again a presignature. */
  lemma PickedSet(ids: seq<nat>, gone: set<nat>, all: seq<Presignature>, records: seq<Presignature>, e: int,
                  key: Scalar, len: nat)
    requires DistinctMod(ids) && StrictlyIncreasing(ids) && |all| == |ids| && records != []
    requires RecordSet(all) && |all[0].uCom| == |all[0].zCom| == len && Bound(all[0], e, key)
    requires forall k :: 0 <= k < |ids| ==> all[k].index == ids[k]
    requires (forall j :: j in Remaining(ids, gone) ==> j in ids) && records == Pick(ids, all, Remaining(ids, gone))
    ensures RecordSet(records) && |records[0].uCom| == |records[0].zCom| == len && Bound(records[0], e, key)
    ensures forall p :: p in records ==> p.index in ids && p.index !in gone
  {
    hide RecordOk;
    hide Bound;
    hide Red;
    hide Remaining;
    hide PositionOf;
    var active := Remaining(ids, gone);
    RemainingMembers(ids, gone);
    forall k | 0 <= k < |records|
      ensures records[k].index == active[k] && active[k] in ids && active[k] !in gone
      ensures SameMeta(records[k], all[0]) && RecordOk(records[k])
    {
      assert active[k] in active;
      assert records[k] == all[PositionOf(ids, active[k])];
    }
    BoundMeta(all[0], records[0], e, key);
    forall i, j | 0 <= i < j < |records|
      ensures !Cong(records[i].index, records[j].index)
    {
      assert active[i] < active[j];
      DistinctEntries(ids, PositionOf(ids, active[i]), PositionOf(ids, active[j]));
    }
  }

  lemma DistinctEntries(ids: seq<nat>, p: nat, q: nat)
    requires DistinctMod(ids) && p < |ids| && q < |ids| && ids[p] != ids[q]
    ensures !Cong(ids[p], ids[q])
  {
    if p < q {
      assert !Cong(ids[p], ids[q]);
    } else {
      assert !Cong(ids[q], ids[p]);
    }
  }

  lemma BoundMeta(p: Presignature, q: Presignature, e: int, x: Scalar)
    requires SameMeta(p, q) && Bound(p, e, x)
    ensures Bound(q, e, x)
  {
  }

  lemma IdealIndices(id: nat, ids: seq<nat>, x: Context, u: Sharing, t2: Triple)
    requires x.pub1.cc != [] && x.pub2.cc != [] && |u.shares| == |t2.shares| == |ids| && Ideal(id, ids, x, u, t2).Ok?
    ensures var ps := Ideal(id, ids, x, u, t2).value;
      |ps| == |ids| && forall k :: 0 <= k < |ps| ==> ps[k].index == ids[k]
  {
    hide MaskCom;
    hide ProductCom;
    hide ProductShare;
    hide Eval;
    hide Red;
    hide Inv;
  }
}
