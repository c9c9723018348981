/** Packed presigning (src/protocol/presign.rs): one presignature per slot of packed sharings.
    The key enters as a constant pack, bound slot by slot to the key commitment. */
module PresignPacked {
  import opened Field
  import opened Polynomials
  import opened Lagrange
  import opened Shamir
  import opened Vss
  import opened Outcomes
  import opened Committees
  import opened Dkg
  import opened Triples
  import opened Beaver
  import opened Broadcasts
  import opened Sign
  import opened Keys
  import opened Presign
  import Ecdsa

  /** Replaced values: masks are slot-independent broadcasts, the rest is per slot. */
  datatype PackedFaults = PackedFaults(
    delta: Faults, eps: Faults, v: seq<Faults>, nonce: seq<Faults>, d2: Faults, e2: Faults) {
    function Slot(b: nat): PresignFaults
      requires b < |v| && b < |nonce|
    {
      PresignFaults(delta, eps, v[b], nonce[b], d2, e2)
    }
  }

  // ---------------------------------------------------------------- the packed key

  /** Every dealer's key re-sharing carries lambda_j * x_j at every slot. */
  ghost predicate KeySlots(ids: seq<nat>, bPack: nat, keyCom: Poly, dealt: seq<Poly>, n: nat)
    requires DistinctMod(ids) && n <= |ids| == |dealt|
  {
    forall k, b :: 0 <= k < n && 0 <= b < bPack ==> KeySlot(ids, keyCom, dealt, k, b)
  }

  ghost predicate KeySlot(ids: seq<nat>, keyCom: Poly, dealt: seq<Poly>, k: nat, b: nat)
    requires DistinctMod(ids) && k < |ids| == |dealt|
  {
    At(dealt[k], SlotPoint(b)) == Times(At(keyCom, ids[k]), Weights(0, ids)[k])
  }

  ghost predicate KeySlotsFault(ids: seq<nat>, bPack: nat, keyCom: Poly, dealt: seq<Poly>, k: nat, blamed: seq<nat>)
    requires DistinctMod(ids) && k < |ids| == |dealt|
  {
    blamed == [ids[k]] && KeySlots(ids, bPack, keyCom, dealt, k) && !KeySlots(ids, bPack, keyCom, dealt, k + 1)
  }

  /** The first dealer whose key re-sharing is off at some slot. */
  ghost predicate KeySlotsBlame(ids: seq<nat>, bPack: nat, keyCom: Poly, dealt: seq<Poly>, blamed: seq<nat>)
    requires DistinctMod(ids) && |ids| == |dealt|
  {
    exists k :: 0 <= k < |ids| && KeySlotsFault(ids, bPack, keyCom, dealt, k, blamed)
  }

  method CheckKeySlots(ids: seq<nat>, bPack: nat, keyCom: Poly, dealt: seq<Poly>) returns (who: seq<nat>)
    requires DistinctMod(ids) && |ids| == |dealt|
    ensures who == [] ==> KeySlots(ids, bPack, keyCom, dealt, |ids|)
    ensures who != [] ==> KeySlotsBlame(ids, bPack, keyCom, dealt, who)
  {
    hide Weights;
    hide Eval;
    hide Red;
    var lambdas := LagrangeCoeffsAt(0, ids);
    for k := 0 to |ids|
      invariant KeySlots(ids, bPack, keyCom, dealt, k)
    {
      var share := EvalAtPoint(keyCom, ids[k]);
      for b := 0 to bPack
        invariant forall a :: 0 <= a < b ==> KeySlot(ids, keyCom, dealt, k, a)
      {
        var e := EvalAtPoint(dealt[k], SlotPoint(b));
        if e != Times(share, lambdas[k]) {
          assert !KeySlot(ids, keyCom, dealt, k, b);
          assert KeySlotsFault(ids, bPack, keyCom, dealt, k, [ids[k]]);
          return [ids[k]];
        }
      }
    }
    return [];
  }

  /** The summed key re-sharing has the key at every slot. */
  lemma PackedKey(ids: seq<nat>, bPack: nat, keyCom: Poly, dealt: seq<Poly>, xhat: Poly, b: nat)
    requires DistinctMod(ids) && |dealt| == |ids| && |keyCom| <= |ids| && b < bPack
    requires KeySlots(ids, bPack, keyCom, dealt, |ids|) && xhat == Combine(Ones(|ids|), dealt, |ids|)
    ensures At(xhat, SlotPoint(b)) == At(keyCom, 0)
  {
    hide Weights;
    hide Combine;
    hide Eval;
    hide Red;
    var n, ws := |ids|, Weights(0, ids);
    var xs := seq(n, k requires 0 <= k < n => Eval(keyCom, ids[k]));
    var vs := seq(n, k requires 0 <= k < n => Mul(ws[k], xs[k]));
    forall k | 0 <= k < n
      ensures Cong(vs[k], Eval(dealt[k], SlotPoint(b)))
    {
      assert KeySlot(ids, keyCom, dealt, k, b);
      SlotShare(Eval(dealt[k], SlotPoint(b)), At(keyCom, ids[k]), xs[k], ws[k]);
    }
    EvalCombine(Ones(n), dealt, vs, n, SlotPoint(b));
    DotOnes(ws, xs, vs, n, n);
    InterpolationExact(keyCom, ids, xs, 0);
  }

  lemma SlotShare(e: int, s: Scalar, x: int, w: int)
    requires Red(e) == Times(s, w) && s == Red(x)
    ensures Cong(Mul(w, x), e)
  {
    CongScale(w, s, x);
  }

  lemma {:induction false} DotOnes(ws: seq<Scalar>, xs: seq<int>, vs: seq<int>, total: nat, n: nat)
    requires n <= total && n <= |ws| && n <= |xs| && n <= |vs| && forall k :: 0 <= k < n ==> vs[k] == Mul(ws[k], xs[k])
    ensures Cong(Dot(Ones(total), vs, n), Dot(ws, xs, n))
    decreases n
  {
    hide Red;
    if n > 0 {
      var k := n - 1;
      DotOnes(ws, xs, vs, total, k);
      OneTimes(Ones(total)[k], vs[k]);
      CongAdd(Dot(Ones(total), vs, k), Dot(ws, xs, k), Mul(Ones(total)[k], vs[k]), vs[k]);
    }
  }

  lemma OneTimes(one: Scalar, v: int)
    requires one == Red(1)
    ensures Cong(Mul(one, v), v)
  {
    CongScale(v, one, 1);
  }

  // ---------------------------------------------------------------- rounds over all slots

  /** One masked value per slot, from one slot-independent share broadcast. */
  method OpenAll(bPack: nat, len: nat, com: Poly, ids: seq<nat>, honest: seq<Scalar>,
                 fake: Faults) returns (r: Outcome<seq<Scalar>>)
    requires bPack >= 1 && |com| <= len <= |ids| && DistinctMod(ids) && HonestShares(com, ids, honest)
    ensures r == if Cheaters(com, fake, ids) != [] then Abort(Cheaters(com, fake, ids)) else Ok(SlotValues(com, bPack))
  {
    hide Cheaters;
    hide HonestShares;
    hide At;
    var out: seq<Scalar> := [];
    for b := 0 to bPack
      invariant out == SlotValues(com, bPack)[..b]
      invariant b > 0 ==> Cheaters(com, fake, ids) == []
    {
      var v := OpenRound(SlotPoint(b), len, com, ids, honest, fake);
      if !v.Ok? {
        return Abort(v.blamed);
      }
      out := out + [v.value];
    }
    assert out == SlotValues(com, bPack);
    return Ok(out);
  }

  ghost function SlotValues(com: Poly, bPack: nat): (r: seq<Scalar>)
    ensures |r| == bPack && forall b :: 0 <= b < bPack ==> r[b] == At(com, SlotPoint(b))
  {
    seq(bPack, b requires 0 <= b < bPack => At(com, SlotPoint(b)))
  }

  /** Everything a packed run starts from. */
  ghost predicate PackedInputs(ids: seq<nat>, bPack: nat, len: nat, u: Sharing, a: Sharing, xhat: Sharing,
                               t1s: seq<Triple>, t2s: seq<Triple>) {
    && bPack >= 1 && |t1s| == |t2s| == bPack && ids != [] && DistinctMod(ids) && 0 < len <= |ids|
    && Shared(ids, u, len) && Shared(ids, a, len) && Shared(ids, xhat, len)
    && TriplePack(ids, bPack, t1s, len) && TriplePack(ids, bPack, t2s, len)
  }

  ghost function SlotContext(b: nat, u: Sharing, a: Sharing, xhat: Sharing, t1s: seq<Triple>, t2s: seq<Triple>): Context
    requires b < |t1s| && b < |t2s|
  {
    ContextOf(SlotPoint(b), u, a, xhat.com, t1s[b], t2s[b])
  }

  /** At its own slot each context is an ordinary run. */
  lemma SlotContextGood(ids: seq<nat>, bPack: nat, len: nat, u: Sharing, a: Sharing, xhat: Sharing,
                        t1s: seq<Triple>, t2s: seq<Triple>, b: nat)
    requires PackedInputs(ids, bPack, len, u, a, xhat, t1s, t2s) && b < bPack
    ensures var x := SlotContext(b, u, a, xhat, t1s, t2s);
      x.Sized(len) && x.Multiplies() && x.pub1.ca == t1s[0].pub.ca && x.pub1.cb == t1s[0].pub.cb
      && x.pub2.ca == t2s[0].pub.ca && x.pub2.cb == t2s[0].pub.cb
    ensures Ingredients(ids, len, u, a, t1s[b], t2s[b])
    ensures |u.shares| == |t2s[b].shares| == |ids|
  {
    hide ValidRecord;
    hide VerifyShare;
    hide At;
    assert SlotTriple(ids, bPack, b, t1s[b], len) && SlotTriple(ids, bPack, b, t2s[b], len);
  }

  /** v_b for every slot, and its inverse. */
  method OpenVs(bPack: nat, len: nat, ids: seq<nat>, u: Sharing, a: Sharing, ghost xhat: Sharing, t1s: seq<Triple>,
                ghost t2s: seq<Triple>,
                f: PackedFaults)
    returns (r: Outcome<seq<Scalar>>)
    requires PackedInputs(ids, bPack, len, u, a, xhat, t1s, t2s) && |f.v| == |f.nonce| == bPack
    ensures r.Ok? || r.Abort? || r.ZeroValue?
    ensures r.Ok? ==>
      |r.value| == bPack && forall b :: 0 <= b < bPack ==> VDone(u, a, xhat, t1s, t2s, f, ids, b, r.value[b])
    ensures r.ZeroValue? ==> exists b :: 0 <= b < bPack && VZero(u, a, xhat, t1s, t2s, b)
    ensures r.Abort? ==> SlotCheaters(u, a, xhat, t1s, t2s, f, ids, bPack, r.blamed)
  {
    hide MaskCom;
    hide ProductCom;
    hide Cheaters;
    hide NamesCheaters;
    hide NoneCheats;
    hide Ingredients;
    hide HonestShares;
    hide Red;
    hide Eval;
    hide Inv;
    hide TriplePack;
    hide Shared;
    SlotContextGood(ids, bPack, len, u, a, xhat, t1s, t2s, 0);
    MasksHonest(ids, len, u, a, t1s[0], t2s[0]);
    ghost var x0 := SlotContext(0, u, a, xhat, t1s, t2s);
    var deltas := OpenAll(bPack, len, MaskCom(u.com, t1s[0].pub.ca), ids, MaskShares(u, ASide(t1s[0])), f.delta);
    if !deltas.Ok? {
      RoundNames(x0, f.Slot(0), ids, x0.DeltaCom(), f.delta, deltas.blamed);
      assert SlotNames(u, a, xhat, t1s, t2s, f, ids, 0, deltas.blamed);
      return Abort(deltas.blamed);
    }
    var epss := OpenAll(bPack, len, MaskCom(a.com, t1s[0].pub.cb), ids, MaskShares(a, BSide(t1s[0])), f.eps);
    if !epss.Ok? {
      RoundNames(x0, f.Slot(0), ids, x0.EpsCom(), f.eps, epss.blamed);
      assert SlotNames(u, a, xhat, t1s, t2s, f, ids, 0, epss.blamed);
      return Abort(epss.blamed);
    }
    var vs: seq<Scalar> := [];
    for b := 0 to bPack
      invariant |vs| == b && forall i :: 0 <= i < b ==> VDone(u, a, xhat, t1s, t2s, f, ids, i, vs[i])
    {
      SlotContextGood(ids, bPack, len, u, a, xhat, t1s, t2s, b);
      ghost var x := SlotContext(b, u, a, xhat, t1s, t2s);
      var vCom := ProductCom(t1s[b].pub, deltas.value[b], epss.value[b]);
      assert vCom == x.VCom();
      SlotProductsHonest(ids, len, u, a, t1s[b], t2s[b], deltas.value[b], epss.value[b]);
      var v := OpenRound(SlotPoint(b), len, vCom, ids, ProductShares(t1s[b], deltas.value[b], epss.value[b]), f.v[b]);
      if !v.Ok? {
        RoundNames(x, f.Slot(b), ids, x.VCom(), f.v[b], v.blamed);
        assert SlotNames(u, a, xhat, t1s, t2s, f, ids, b, v.blamed);
        return Abort(v.blamed);
      }
      if v.value == 0 {
        assert VZero(u, a, xhat, t1s, t2s, b);
        return ZeroValue;
      }
      vs := vs + [v.value];
    }
    return Ok(vs);
  }

  lemma MasksHonest(ids: seq<nat>, len: nat, u: Sharing, a: Sharing, t1: Triple, t2: Triple)
    requires Ingredients(ids, len, u, a, t1, t2)
    ensures |ASide(t1).shares| == |BSide(t1).shares| == |u.shares| == |a.shares|
    ensures HonestShares(MaskCom(u.com, t1.pub.ca), ids, MaskShares(u, ASide(t1)))
    ensures HonestShares(MaskCom(a.com, t1.pub.cb), ids, MaskShares(a, BSide(t1)))
    ensures |MaskCom(u.com, t1.pub.ca)| <= len <= |ids| && |MaskCom(a.com, t1.pub.cb)| <= len && DistinctMod(ids)
  {
    hide VerifyShare;
    SidesShared(ids, t1, len);
    MaskSharesHonest(ids, u, ASide(t1), len, len);
    MaskSharesHonest(ids, a, BSide(t1), len, len);
  }

  lemma SlotProductsHonest(ids: seq<nat>, len: nat, u: Sharing, a: Sharing, t1: Triple, t2: Triple, delta: Scalar,
                           eps: Scalar)
    requires Ingredients(ids, len, u, a, t1, t2)
    ensures t1.pub.cc != [] && HonestShares(ProductCom(t1.pub, delta, eps), ids, ProductShares(t1, delta, eps))
    ensures |ProductCom(t1.pub, delta, eps)| == len
  {
    hide VerifyShare;
    ProductSharesHonest(ids, t1, delta, eps, len);
  }

  /** Slot b's v is opened, nonzero, and nobody cheated on the way. */
  ghost predicate VDone(u: Sharing, a: Sharing, xhat: Sharing, t1s: seq<Triple>, t2s: seq<Triple>, f: PackedFaults,
                        ids: seq<nat>, b: nat, v: Scalar) {
    && b < |t1s| && b < |t2s| && b < |f.v|
    && var x := SlotContext(b, u, a, xhat, t1s, t2s);
       && x.pub1.cc != [] && v == x.V() != 0
       && Cheaters(x.DeltaCom(), f.delta, ids) == [] && Cheaters(x.EpsCom(), f.eps, ids) == []
       && Cheaters(x.VCom(), f.v[b], ids) == []
  }

  ghost predicate VZero(u: Sharing, a: Sharing, xhat: Sharing, t1s: seq<Triple>, t2s: seq<Triple>, b: nat) {
    && b < |t1s| && b < |t2s|
    && var x := SlotContext(b, u, a, xhat, t1s, t2s); x.pub1.cc != [] && x.V() == 0
  }

  /** An abort over a broadcast names cheaters of some slot. */
  ghost predicate SlotCheaters(u: Sharing, a: Sharing, xhat: Sharing, t1s: seq<Triple>, t2s: seq<Triple>,
                               f: PackedFaults,
                               ids: seq<nat>, bPack: nat, blamed: seq<nat>) {
    exists b :: 0 <= b < bPack && SlotNames(u, a, xhat, t1s, t2s, f, ids, b, blamed)
  }

  ghost predicate SlotNames(u: Sharing, a: Sharing, xhat: Sharing, t1s: seq<Triple>, t2s: seq<Triple>, f: PackedFaults,
                            ids: seq<nat>, b: nat, blamed: seq<nat>) {
    && b < |t1s| && b < |t2s| && b < |f.v| && b < |f.nonce|
    && var x := SlotContext(b, u, a, xhat, t1s, t2s);
       x.pub1.cc != [] && x.pub2.cc != [] && NamesCheaters(x, f.Slot(b), ids, blamed)
  }

  /** Slot b's nonce is interpolated, has a nonzero x-coordinate, and nobody cheated so far. */
  ghost predicate RDone(u: Sharing, a: Sharing, xhat: Sharing, t1s: seq<Triple>, t2s: seq<Triple>, f: PackedFaults,
                        ids: seq<nat>, b: nat, big: Scalar) {
    && b < |t1s| && b < |t2s| && b < |f.v| && b < |f.nonce|
    && var x := SlotContext(b, u, a, xhat, t1s, t2s);
       && x.pub1.cc != [] && x.V() != 0 && big == At(x.KCom(), x.e) && Ecdsa.F(big) != 0
       && QuietSoFar(x, f.Slot(b), ids)
  }

  ghost predicate RZero(u: Sharing, a: Sharing, xhat: Sharing, t1s: seq<Triple>, t2s: seq<Triple>, b: nat) {
    && b < |t1s| && b < |t2s|
    && var x := SlotContext(b, u, a, xhat, t1s, t2s);
       x.pub1.cc != [] && x.V() != 0 && Ecdsa.F(At(x.KCom(), x.e)) == 0
  }

  /** R_b for every slot. */
  method NonceSlots(bPack: nat, len: nat, ids: seq<nat>, u: Sharing, a: Sharing, ghost xhat: Sharing,
                    ghost t1s: seq<Triple>,
                    ghost t2s: seq<Triple>, f: PackedFaults, vs: seq<Scalar>)
    returns (r: Outcome<seq<Scalar>>)
    requires PackedInputs(ids, bPack, len, u, a, xhat, t1s, t2s) && |f.v| == |f.nonce| == |vs| == bPack
    requires forall b :: 0 <= b < bPack ==> VDone(u, a, xhat, t1s, t2s, f, ids, b, vs[b])
    ensures r.Ok? || r.Abort? || r.ZeroValue?
    ensures r.Ok? ==>
      |r.value| == bPack && forall b :: 0 <= b < bPack ==> RDone(u, a, xhat, t1s, t2s, f, ids, b, r.value[b])
    ensures r.ZeroValue? ==> exists b :: 0 <= b < bPack && RZero(u, a, xhat, t1s, t2s, b)
    ensures r.Abort? ==> SlotCheaters(u, a, xhat, t1s, t2s, f, ids, bPack, r.blamed)
  {
    hide MaskCom;
    hide ProductCom;
    hide Cheaters;
    hide Cheats;
    hide NamesCheaters;
    hide NoneCheats;
    hide CheatsIn;
    hide HonestShares;
    hide TriplePack;
    hide Scale;
    hide Red;
    hide Eval;
    hide Inv;
    hide VerifyShare;
    var bigs: seq<Scalar> := [];
    for b := 0 to bPack
      invariant |bigs| == b && forall i :: 0 <= i < b ==> RDone(u, a, xhat, t1s, t2s, f, ids, i, bigs[i])
    {
      SlotContextGood(ids, bPack, len, u, a, xhat, t1s, t2s, b);
      assert VDone(u, a, xhat, t1s, t2s, f, ids, b, vs[b]);
      ghost var x := SlotContext(b, u, a, xhat, t1s, t2s);
      var vInv := Inv(vs[b]);
      NonceSharesHonest(ids, a, vInv, len);
      var bad, bigR := NonceRound(SlotPoint(b), len, ids, Scale(a.com, vInv), NonceShares(a, vInv), f.nonce[b]);
      if bad != [] {
        OneNonceCheater(x, f.Slot(b), ids, bad);
        EarlyNames(x, f.Slot(b), ids, bad);
        assert SlotNames(u, a, xhat, t1s, t2s, f, ids, b, bad);
        return Abort(bad);
      }
      if Ecdsa.F(bigR) == 0 {
        assert RZero(u, a, xhat, t1s, t2s, b);
        return ZeroValue;
      }
      bigs := bigs + [bigR];
    }
    return Ok(bigs);
  }

  /** Both masks of the key product for every slot. */
  method BindSlots(bPack: nat, len: nat, ids: seq<nat>, u: Sharing, ghost a: Sharing, xhat: Sharing,
                   ghost t1s: seq<Triple>,
                   t2s: seq<Triple>, f: PackedFaults)
    returns (r: Outcome<(seq<Scalar>, seq<Scalar>)>)
    requires PackedInputs(ids, bPack, len, u, a, xhat, t1s, t2s) && |f.v| == |f.nonce| == bPack
    ensures r.Ok? || r.Abort?
    ensures var d2Com, e2Com := MaskCom(u.com, t2s[0].pub.ca), MaskCom(xhat.com, t2s[0].pub.cb);
      && (r.Ok? ==> r.value == (SlotValues(d2Com, bPack), SlotValues(e2Com, bPack)))
      && (r.Ok? ==> Cheaters(d2Com, f.d2, ids) == [] && Cheaters(e2Com, f.e2, ids) == [])
    ensures r.Abort? ==> SlotCheaters(u, a, xhat, t1s, t2s, f, ids, bPack, r.blamed)
  {
    hide MaskCom;
    hide ProductCom;
    hide Cheaters;
    hide NamesCheaters;
    hide NoneCheats;
    hide Ingredients;
    hide HonestShares;
    hide TriplePack;
    hide Shared;
    hide Red;
    hide Eval;
    hide SlotValues;
    SlotContextGood(ids, bPack, len, u, a, xhat, t1s, t2s, 0);
    ghost var x0 := SlotContext(0, u, a, xhat, t1s, t2s);
    KeyMasksHonest(ids, len, u, a, xhat, t1s[0], t2s[0]);
    var d2s := OpenAll(bPack, len, MaskCom(u.com, t2s[0].pub.ca), ids, MaskShares(u, ASide(t2s[0])), f.d2);
    if !d2s.Ok? {
      RoundNames(x0, f.Slot(0), ids, x0.D2Com(), f.d2, d2s.blamed);
      assert SlotNames(u, a, xhat, t1s, t2s, f, ids, 0, d2s.blamed);
      return Abort(d2s.blamed);
    }
    var e2s := OpenAll(bPack, len, MaskCom(xhat.com, t2s[0].pub.cb), ids, MaskShares(xhat, BSide(t2s[0])), f.e2);
    if !e2s.Ok? {
      RoundNames(x0, f.Slot(0), ids, x0.E2Com(), f.e2, e2s.blamed);
      assert SlotNames(u, a, xhat, t1s, t2s, f, ids, 0, e2s.blamed);
      return Abort(e2s.blamed);
    }
    return Ok((d2s.value, e2s.value));
  }

  lemma KeyMasksHonest(ids: seq<nat>, len: nat, u: Sharing, a: Sharing, xhat: Sharing, t1: Triple, t2: Triple)
    requires Ingredients(ids, len, u, a, t1, t2) && Shared(ids, xhat, len)
    ensures |ASide(t2).shares| == |BSide(t2).shares| == |u.shares| == |xhat.shares|
    ensures HonestShares(MaskCom(u.com, t2.pub.ca), ids, MaskShares(u, ASide(t2)))
    ensures HonestShares(MaskCom(xhat.com, t2.pub.cb), ids, MaskShares(xhat, BSide(t2)))
    ensures |MaskCom(u.com, t2.pub.ca)| <= len <= |ids| && |MaskCom(xhat.com, t2.pub.cb)| <= len && DistinctMod(ids)
  {
    hide VerifyShare;
    SidesShared(ids, t2, len);
    MaskSharesHonest(ids, u, ASide(t2), len, len);
    MaskSharesHonest(ids, xhat, BSide(t2), len, len);
  }

  // ---------------------------------------------------------------- the run

  /** The records of slot b are those of the fault-free run at that slot; they are a
      presignature of the key at the slot point. */
  ghost predicate SlotResult(id: nat, ids: seq<nat>, len: nat, u: Sharing, a: Sharing, xhat: Sharing, t1s: seq<Triple>,
                             t2s: seq<Triple>,
                             f: PackedFaults, b: nat, key: Scalar, ps: seq<Presignature>) {
    && b < |t1s| && b < |t2s| && b < |f.v| && b < |f.nonce| && |u.shares| == |t2s[b].shares| == |ids|
    && var x := SlotContext(b, u, a, xhat, t1s, t2s);
       && x.pub1.cc != [] && x.pub2.cc != [] && Ideal(id, ids, x, u, t2s[b]) == Ok(ps)
       && NoneCheats(x, f.Slot(b), ids)
       && RecordSet(ps) && |ps[0].uCom| == |ps[0].zCom| == len && Bound(ps[0], SlotPoint(b), key) && ps[0].r != 0
  }

  lemma SlotDone(id: nat, ids: seq<nat>, bPack: nat, len: nat, u: Sharing, a: Sharing, xhat: Sharing, t1s: seq<Triple>,
                 t2s: seq<Triple>,
                 f: PackedFaults, b: nat, key: Scalar, big: Scalar, d2: Scalar, e2: Scalar, ps: seq<Presignature>)
    requires PackedInputs(ids, bPack, len, u, a, xhat, t1s, t2s) && |f.v| == |f.nonce| == bPack && b < bPack
    requires |u.shares| == |t2s[b].shares| == |ids| && t2s[b].pub.cc != []
    requires RDone(u, a, xhat, t1s, t2s, f, ids, b, big) && At(xhat.com, SlotPoint(b)) == key
    requires var d2Com, e2Com := MaskCom(u.com, t2s[0].pub.ca), MaskCom(xhat.com, t2s[0].pub.cb);
      d2 == At(d2Com, SlotPoint(b)) && e2 == At(e2Com, SlotPoint(b))
      && Cheaters(d2Com, f.d2, ids) == [] && Cheaters(e2Com, f.e2, ids) == []
    requires ps == RecordsOf(id, ids, Ecdsa.F(big), big, u, t2s[b], d2, e2, ProductCom(t2s[b].pub, d2, e2))
    ensures SlotResult(id, ids, len, u, a, xhat, t1s, t2s, f, b, key, ps)
  {
    hide MaskCom;
    hide ProductCom;
    hide ProductShare;
    hide Cheaters;
    hide NoneCheats;
    hide QuietSoFar;
    hide RecordSet;
    hide Bound;
    hide TriplePack;
    hide Multiplicative;
    hide VerifyShare;
    hide Red;
    hide Eval;
    hide Inv;
    hide Scale;
    SlotContextGood(ids, bPack, len, u, a, xhat, t1s, t2s, b);
    var x := SlotContext(b, u, a, xhat, t1s, t2s);
    QuietMeansNone(x, f.Slot(b), ids);
    IdealIsPresignature(id, ids, x, u, t2s[b], len);
  }

  /** Some slot of the fault-free run has v = 0 or r = 0. */
  ghost predicate SomeZero(u: Sharing, a: Sharing, xhat: Sharing, t1s: seq<Triple>, t2s: seq<Triple>, bPack: nat) {
    exists b :: 0 <= b < bPack && (VZero(u, a, xhat, t1s, t2s, b) || RZero(u, a, xhat, t1s, t2s, b))
  }

  /** Slot b has no usable nonce. */
  ghost predicate SlotZero(u: Sharing, a: Sharing, b: nat) {
    ZeroNonce(At(u.com, SlotPoint(b)), At(a.com, SlotPoint(b)))
  }

  /** A reported zero value is a slot without a nonce. */
  lemma SomeZeroMeans(ids: seq<nat>, bPack: nat, len: nat, u: Sharing, a: Sharing, xhat: Sharing, t1s: seq<Triple>,
                      t2s: seq<Triple>)
    requires PackedInputs(ids, bPack, len, u, a, xhat, t1s, t2s) && SomeZero(u, a, xhat, t1s, t2s, bPack)
    ensures exists b :: 0 <= b < bPack && SlotZero(u, a, b)
  {
    hide MaskCom;
    hide ProductCom;
    hide TriplePack;
    hide Multiplicative;
    hide VerifyShare;
    hide Shared;
    hide Red;
    hide Eval;
    hide Scale;
    hide Inv;
    var b :| 0 <= b < bPack && (VZero(u, a, xhat, t1s, t2s, b) || RZero(u, a, xhat, t1s, t2s, b));
    SlotContextGood(ids, bPack, len, u, a, xhat, t1s, t2s, b);
    NonceExactly(SlotContext(b, u, a, xhat, t1s, t2s));
    assert SlotZero(u, a, b);
  }

  /** A slot with records has the nonce 1/u of its own u. */
  lemma SlotNonce(id: nat, ids: seq<nat>, bPack: nat, len: nat, u: Sharing, a: Sharing, xhat: Sharing, t1s: seq<Triple>,
                  t2s: seq<Triple>, f: PackedFaults, b: nat, key: Scalar, ps: seq<Presignature>)
    requires PackedInputs(ids, bPack, len, u, a, xhat, t1s, t2s) && b < bPack
    requires SlotResult(id, ids, len, u, a, xhat, t1s, t2s, f, b, key, ps)
    ensures !SlotZero(u, a, b) && At(u.com, SlotPoint(b)) != 0
    ensures Numbered(ps, id, ids, Inv(At(u.com, SlotPoint(b))))
  {
    hide MaskCom;
    hide ProductCom;
    hide TriplePack;
    hide Ideal;
    hide Numbered;
    hide NoneCheats;
    hide RecordSet;
    hide Bound;
    hide Multiplicative;
    hide VerifyShare;
    hide Shared;
    hide At;
    hide Inv;
    SlotContextGood(ids, bPack, len, u, a, xhat, t1s, t2s, b);
    IdealExactly(id, ids, SlotContext(b, u, a, xhat, t1s, t2s), u, t2s[b]);
  }

  /** `presign_packed_with_committee`, after the triple sessions and the joint dealing of u, a and
      the key re-sharings (`dealt`, summing to `xhat`). */
  method WithCommittee(c: Committee, keys: seq<KeyShare>, pids: seq<nat>, bPack: nat, u: Sharing, a: Sharing,
                       xhat: Sharing,
                       dealt: seq<Poly>, t1s: seq<Triple>, t2s: seq<Triple>, f: PackedFaults)
    returns (r: Outcome<seq<seq<Presignature>>>)
    requires c.Valid() && |f.v| == |f.nonce| == bPack
    requires bPack >= 1 && |c.ids| >= 2 * c.t + 2 * bPack - 3 ==>
      PackedInputs(c.ids, bPack, PackedLength(c.t, bPack), u, a, xhat, t1s, t2s)
      && |dealt| == |c.ids| && xhat.com == Combine(Ones(|c.ids|), dealt, |c.ids|)
    requires Matches(c.ids, keys) ==> KeySet(keys, c.t)
    ensures r.Ok? || r.Abort? || r.ZeroValue? || r.InvalidParams?
    ensures r.InvalidParams? <==>
      !Matches(c.ids, keys) || bPack == 0 || |pids| != bPack || |c.ids| < 2 * c.t + 2 * bPack - 3
    ensures r.Abort? ==> DistinctMod(c.ids) && (KeySlotsBlame(c.ids, bPack, keys[0].com, dealt, r.blamed)
                         || SlotCheaters(u, a, xhat, t1s, t2s, f, c.ids, bPack, r.blamed))
    ensures r.ZeroValue? ==> SomeZero(u, a, xhat, t1s, t2s, bPack)
    ensures r.Ok? ==> |r.value| == bPack && forall b :: 0 <= b < bPack ==>
      SlotResult(pids[b], c.ids, PackedLength(c.t, bPack), u, a, xhat, t1s, t2s, f, b, PublicKey(keys), r.value[b])
  {
    hide MaskCom;
    hide ProductCom;
    hide TriplePack;
    hide Shared;
    hide KeySet;
    hide KeySlots;
    hide KeySlotsBlame;
    hide SlotCheaters;
    hide Cheaters;
    hide SlotResult;
    hide SlotValues;
    hide VDone;
    hide RDone;
    hide VZero;
    hide RZero;
    hide Combine;
    hide At;
    var matches := CheckInputs(c.ids, keys);
    if !matches || |pids| == 0 || |pids| != bPack || |c.ids| < 2 * c.t + 2 * bPack - 3 {
      return InvalidParams;
    }
    var ids, len := c.ids, PackedLength(c.t, bPack);
    var who := CheckKeySlots(ids, bPack, keys[0].com, dealt);
    if who != [] {
      return Abort(who);
    }
    var vs := OpenVs(bPack, len, ids, u, a, xhat, t1s, t2s, f);
    if !vs.Ok? {
      return if vs.Abort? then Abort(vs.blamed) else ZeroValue;
    }
    var bigs := NonceSlots(bPack, len, ids, u, a, xhat, t1s, t2s, f, vs.value);
    if !bigs.Ok? {
      return if bigs.Abort? then Abort(bigs.blamed) else ZeroValue;
    }
    var masks := BindSlots(bPack, len, ids, u, a, xhat, t1s, t2s, f);
    if !masks.Ok? {
      return Abort(masks.blamed);
    }
    KeyLength(keys, c.t);
    var out := SlotRecords(pids, bPack, len, ids, u, a, xhat, t1s, t2s, f, bigs.value, masks.value.0, masks.value.1,
                           dealt, keys);
    return Ok(out);
  }

  lemma KeyLength(keys: seq<KeyShare>, len: nat)
    requires KeySet(keys, len)
    ensures |keys[0].com| == len
  {
  }

  /** The records of every slot. */
  method SlotRecords(pids: seq<nat>, bPack: nat, len: nat, ids: seq<nat>, u: Sharing, ghost a: Sharing,
                     ghost xhat: Sharing,
                     ghost t1s: seq<Triple>, t2s: seq<Triple>, ghost f: PackedFaults, bigs: seq<Scalar>,
                     d2s: seq<Scalar>, e2s: seq<Scalar>, ghost dealt: seq<Poly>, ghost keys: seq<KeyShare>)
    returns (out: seq<seq<Presignature>>)
    requires PackedInputs(ids, bPack, len, u, a, xhat, t1s, t2s) && |f.v| == |f.nonce| == |pids| == |bigs| == bPack
    requires forall b :: 0 <= b < bPack ==> RDone(u, a, xhat, t1s, t2s, f, ids, b, bigs[b])
    requires var d2Com, e2Com := MaskCom(u.com, t2s[0].pub.ca), MaskCom(xhat.com, t2s[0].pub.cb);
      d2s == SlotValues(d2Com, bPack) && e2s == SlotValues(e2Com, bPack)
      && Cheaters(d2Com, f.d2, ids) == [] && Cheaters(e2Com, f.e2, ids) == []
    requires keys != [] && |dealt| == |ids| && |keys[0].com| <= |ids| && xhat.com == Combine(Ones(|ids|), dealt, |ids|)
    requires KeySlots(ids, bPack, keys[0].com, dealt, |ids|)
    ensures |out| == bPack && forall b :: 0 <= b < bPack ==>
      SlotResult(pids[b], ids, len, u, a, xhat, t1s, t2s, f, b, PublicKey(keys), out[b])
  {
    hide MaskCom;
    hide ProductCom;
    hide ProductShare;
    hide TriplePack;
    hide Shared;
    hide Ingredients;
    hide KeySlots;
    hide Cheaters;
    hide SlotResult;
    hide RDone;
    hide Combine;
    hide At;
    out := [];
    for b := 0 to bPack
      invariant |out| == b && forall i :: 0 <= i < b ==>
        SlotResult(pids[i], ids, len, u, a, xhat, t1s, t2s, f, i, PublicKey(keys), out[i])
    {
      SlotContextGood(ids, bPack, len, u, a, xhat, t1s, t2s, b);
      PackedKey(ids, bPack, keys[0].com, dealt, xhat.com, b);
      var zCom := ProductCom(t2s[b].pub, d2s[b], e2s[b]);
      var big := bigs[b];
      var ps := RecordsOf(pids[b], ids, Ecdsa.F(big), big, u, t2s[b], d2s[b], e2s[b], zCom);
      SlotDone(pids[b], ids, bPack, len, u, a, xhat, t1s, t2s, f, b, PublicKey(keys), big, d2s[b], e2s[b], ps);
      out := out + [ps];
    }
  }
}
