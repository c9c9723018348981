/** The Beaver triple factory (src/protocol/triples.rs): plain, robust and packed.  The
    re-sharing messages are whatever the dealers sent; an accepted product proof is taken to
    prove its statement (module Dleq has the algebra behind that). */
module Triples {
  import opened Field
  import opened Polynomials
  import opened Lagrange
  import opened Shamir
  import opened Vss
  import opened Outcomes
  import opened Committees
  import opened IdLists
  import opened Bytes
  import opened Dkg
  import Dleq
  import Opening

  datatype TripleShare = TripleShare(index: nat, a: Scalar, b: Scalar, c: Scalar)

  datatype TriplePublic = TriplePublic(ca: Poly, cb: Poly, cc: Poly)

  /** One triple: the common commitments and the members' shares. */
  datatype Triple = Triple(pub: TriplePublic, shares: seq<TripleShare>)

  /** What one dealer contributes in T2: a re-sharing of its local product and a product proof. */
  datatype Resharing = Resharing(com: Poly, shares: seq<Scalar>, x1: Scalar, x2: Scalar, proof: Dleq.Proof)

  const TRIPLE_PRODUCT: bytes := Ascii("OHM-ECDSA/v0.1/triple-product")

  // ---------------------------------------------------------------- what a good triple is

  ghost predicate ValidRecord(pub: TriplePublic, s: TripleShare) {
    VerifyShare(pub.ca, s.index, s.a) && VerifyShare(pub.cb, s.index, s.b) && VerifyShare(pub.cc, s.index, s.c)
  }

  ghost predicate Multiplicative(pub: TriplePublic, e: int) {
    At(pub.cc, e) == Times(At(pub.ca, e), At(pub.cb, e))
  }

  /** All three commitments have `len` coefficients and every member's record is on them. */
  ghost predicate WellShared(ids: seq<nat>, t: Triple, len: nat) {
    && |t.pub.ca| == |t.pub.cb| == |t.pub.cc| == len
    && |t.shares| == |ids|
    && forall k :: 0 <= k < |ids| ==> t.shares[k].index == ids[k] && ValidRecord(t.pub, t.shares[k])
  }

  // ---------------------------------------------------------------- checks on one dealer

  function ProductStatement(x1: Scalar, baseB: Scalar, x2: Scalar): Dleq.Statement {
    Dleq.Statement(1, x1, baseB, x2)
  }

  ghost predicate ProofOk(sid: bytes, ca: Poly, cb: Poly, j: nat, m: Resharing) {
    && m.com != [] && m.x1 == At(ca, j) && m.x2 == m.com[0]
    && Dleq.Verify(sid, TRIPLE_PRODUCT, ProductStatement(m.x1, At(cb, j), m.x2), m.proof)
  }

  /** Soundness of the product proof: if it is accepted, the product relation holds. */
  ghost predicate ProofSound(sid: bytes, cb: Poly, j: nat, m: Resharing) {
    Dleq.Verify(sid, TRIPLE_PRODUCT, ProductStatement(m.x1, At(cb, j), m.x2), m.proof) ==>
      m.x2 == Times(m.x1, At(cb, j))
  }

  ghost predicate SharesOk(ids: seq<nat>, m: Resharing)
    requires |m.shares| == |ids|
  {
    forall v :: 0 <= v < |ids| ==> VerifyShare(m.com, ids[v], m.shares[v])
  }

  /** Shape that the code relies on without checking it, and soundness of the proofs. */
  ghost predicate Plausible(ids: seq<nat>, sid: bytes, cb: Poly, msgs: seq<Resharing>, len: nat) {
    && |msgs| == |ids|
    && forall k :: 0 <= k < |ids| ==>
      |msgs[k].com| == len && |msgs[k].shares| == |ids| && ProofSound(sid, cb, ids[k], msgs[k])
  }

  method CheckProof(sid: bytes, ca: Poly, cb: Poly, j: nat, m: Resharing) returns (ok: bool)
    requires m.com != []
    ensures ok == ProofOk(sid, ca, cb, j, m)
  {
    var baseA := EvalAtPoint(ca, j);
    var baseB := EvalAtPoint(cb, j);
    ok := m.x1 == baseA && m.x2 == m.com[0]
      && Dleq.Verify(sid, TRIPLE_PRODUCT, ProductStatement(m.x1, baseB, m.x2), m.proof);
  }

  /** An accepted dealer committed to a value of the product polynomial. */
  lemma CommitsToProduct(sid: bytes, ca: Poly, cb: Poly, j: nat, m: Resharing)
    requires cb != [] && ProofOk(sid, ca, cb, j, m) && ProofSound(sid, cb, j, m)
    ensures m.com[0] == At(Convolve(ca, cb), j)
  {
    hide Convolve;
    EvalConvolve(ca, cb, j);
    CongMul(At(ca, j), Eval(ca, j), At(cb, j), Eval(cb, j));
  }

  /** The honest dealer of one re-sharing is accepted, and its proof is sound. */
  lemma HonestDealerAccepted(ids: seq<nat>, sid: bytes, ca: Poly, cb: Poly, k: nat, g: Poly, w: Scalar, m: Resharing)
    requires k < |ids| && cb != [] && g != [] && g[0] == Times(At(ca, ids[k]), At(cb, ids[k]))
    requires m.com == g && |m.shares| == |ids| && forall v :: 0 <= v < |ids| ==> m.shares[v] == At(g, ids[v])
    requires m.x1 == At(ca, ids[k]) && m.x2 == Times(m.x1, At(cb, ids[k]))
    requires m.proof == Dleq.Prove(sid, TRIPLE_PRODUCT, m.x1, 1, At(cb, ids[k]), w).1
    ensures ProofOk(sid, ca, cb, ids[k], m) && ProofSound(sid, cb, ids[k], m) && SharesOk(ids, m)
  {
    hide Eval;
    hide Dleq.Challenge;
    var a, b := At(ca, ids[k]), At(cb, ids[k]);
    Dleq.Completeness(sid, TRIPLE_PRODUCT, a, 1, b, w);
    var s := Dleq.Prove(sid, TRIPLE_PRODUCT, a, 1, b, w).0;
    assert s.x1 == a by { RedScalar(a); }
  }

  /** What an honest dealer re-shares: the product of its two shares, truthfully proved. */
  ghost predicate HonestResharing(ids: seq<nat>, sid: bytes, ca: Poly, cb: Poly, j: nat, m: Resharing) {
    && m.com != [] && m.com[0] == Times(At(ca, j), At(cb, j))
    && |m.shares| == |ids| && (forall v :: 0 <= v < |ids| ==> m.shares[v] == At(m.com, ids[v]))
    && m.x1 == At(ca, j) && m.x2 == m.com[0]
    && exists w :: m.proof == Dleq.Prove(sid, TRIPLE_PRODUCT, m.x1, 1, At(cb, j), w).1
  }

  ghost predicate HonestResharings(ids: seq<nat>, sid: bytes, ca: Poly, cb: Poly, msgs: seq<Resharing>, bad: set<nat>) {
    && |msgs| == |ids|
    && forall k :: 0 <= k < |ids| && ids[k] !in bad ==> HonestResharing(ids, sid, ca, cb, ids[k], msgs[k])
  }

  lemma HonestResharingOk(ids: seq<nat>, sid: bytes, ca: Poly, cb: Poly, k: nat, m: Resharing)
    requires k < |ids| && cb != [] && HonestResharing(ids, sid, ca, cb, ids[k], m)
    ensures ProofOk(sid, ca, cb, ids[k], m) && SharesOk(ids, m)
  {
    hide At;
    hide Dleq.Prove;
    var w :| m.proof == Dleq.Prove(sid, TRIPLE_PRODUCT, m.x1, 1, At(cb, ids[k]), w).1;
    HonestDealerAccepted(ids, sid, ca, cb, k, m.com, w, m);
  }

  // ---------------------------------------------------------------- degree reduction

  /** The re-sharing commitments, in committee order. */
  ghost function Coms(msgs: seq<Resharing>): (r: seq<Poly>)
    ensures |r| == |msgs| && forall k :: 0 <= k < |r| ==> r[k] == msgs[k].com
  {
    seq(|msgs|, k requires 0 <= k < |msgs| => msgs[k].com)
  }

  /** The triple that the commitments determine when recombined at e: no message share enters. */
  ghost function Reduced(ids: seq<nat>, e: int, alpha: Sharing, beta: Sharing, coms: seq<Poly>): Triple
    requires DistinctMod(ids) && |coms| == |ids| == |alpha.shares| == |beta.shares|
  {
    var cc := Combine(Weights(e, ids), coms, |ids|);
    Triple(TriplePublic(alpha.com, beta.com, cc),
           seq(|ids|, k requires 0 <= k < |ids| =>
             TripleShare(ids[k], alpha.shares[k], beta.shares[k], At(cc, ids[k]))))
  }

  lemma ReducedWellShared(ids: seq<nat>, e: int, alpha: Sharing, beta: Sharing, coms: seq<Poly>, len: nat)
    requires ids != [] && DistinctMod(ids) && |coms| == |ids| && forall k :: 0 <= k < |ids| ==> |coms[k]| == len
    requires Shared(ids, alpha, len) && Shared(ids, beta, len)
    ensures WellShared(ids, Reduced(ids, e, alpha, beta, coms), len)
  {
    hide Combine;
    hide Eval;
    CombineLength(Weights(e, ids), coms, |ids|, len);
    var t := Reduced(ids, e, alpha, beta, coms);
    forall k | 0 <= k < |ids|
      ensures t.shares[k].index == ids[k] && ValidRecord(t.pub, t.shares[k])
    {
      assert VerifyShare(alpha.com, ids[k], alpha.shares[k]) && VerifyShare(beta.com, ids[k], beta.shares[k]);
    }
  }

  /** Degree reduction: dealers whose commitments have the product-polynomial value at y, for
      enough parties, recombine to the product at e. */
  lemma ReducedMultiplies(ids: seq<nat>, e: int, y: int, alpha: Sharing, beta: Sharing, coms: seq<Poly>)
    requires DistinctMod(ids) && |coms| == |ids| == |alpha.shares| == |beta.shares|
    requires alpha.com != [] && beta.com != [] && |alpha.com| + |beta.com| - 1 <= |ids|
    requires forall k :: 0 <= k < |ids| ==> At(coms[k], y) == At(Convolve(alpha.com, beta.com), ids[k])
    ensures At(Reduced(ids, e, alpha, beta, coms).pub.cc, y) == Times(At(alpha.com, e), At(beta.com, e))
  {
    hide Combine;
    hide Convolve;
    hide Eval;
    var f := Convolve(alpha.com, beta.com);
    ConvolveLength(alpha.com, beta.com);
    Recombine(f, ids, coms, e, y);
    EvalConvolve(alpha.com, beta.com, e);
    CongMul(At(alpha.com, e), Eval(alpha.com, e), At(beta.com, e), Eval(beta.com, e));
  }

  lemma ConvolveLength(p: Poly, q: Poly)
    requires p != [] && q != []
    ensures |Convolve(p, q)| == |p| + |q| - 1
  {
  }

  /** Column k of the matrix of re-shared shares. */
  ghost function Column(rows: seq<seq<Scalar>>, k: nat): (r: seq<Scalar>)
    requires forall d :: 0 <= d < |rows| ==> k < |rows[d]|
    ensures |r| == |rows| && forall d :: 0 <= d < |rows| ==> r[d] == rows[d][k]
  {
    seq(|rows|, d requires 0 <= d < |rows| => rows[d][k])
  }

  /** sum over dealers of lambda_d times the share dealt to position k. */
  method WeightedColumn(lambdas: seq<Scalar>, rows: seq<seq<Scalar>>, k: nat) returns (acc: Scalar)
    requires |lambdas| == |rows| && forall d :: 0 <= d < |rows| ==> k < |rows[d]|
    ensures acc == Red(Dot(lambdas, Column(rows, k), |rows|))
  {
    hide Red;
    RedScalar(0);
    acc := 0;
    for d := 0 to |rows|
      invariant acc == Red(Dot(lambdas, Column(rows, k), d))
    {
      DotStep(acc, lambdas, Column(rows, k), d);
      acc := Plus(acc, Times(lambdas[d], rows[d][k]));
    }
  }

  /** Rows of valid shares: row d lies on commitment d. */
  ghost predicate RowsValid(ids: seq<nat>, coms: seq<Poly>, rows: seq<seq<Scalar>>) {
    && |coms| == |rows|
    && forall d :: 0 <= d < |rows| ==> RowValid(ids, coms[d], rows[d])
  }

  ghost predicate RowValid(ids: seq<nat>, com: Poly, row: seq<Scalar>) {
    |row| == |ids| && forall v :: 0 <= v < |ids| ==> VerifyShare(com, ids[v], row[v])
  }

  lemma WeightedColumnIs(ids: seq<nat>, ws: seq<Scalar>, coms: seq<Poly>, rows: seq<seq<Scalar>>, k: nat)
    requires RowsValid(ids, coms, rows) && |ws| == |rows| && k < |ids|
    ensures Red(Dot(ws, Column(rows, k), |rows|)) == At(Combine(ws, coms, |rows|), ids[k])
  {
    hide Combine;
    hide Eval;
    hide Dot;
    forall d | 0 <= d < |rows|
      ensures Cong(Column(rows, k)[d], Eval(coms[d], ids[k]))
    {
      assert RowValid(ids, coms[d], rows[d]);
      assert VerifyShare(coms[d], ids[k], rows[d][k]);
    }
    EvalCombine(ws, coms, Column(rows, k), |rows|, ids[k]);
  }

  /** The output records. */
  method Records(ids: seq<nat>, e: int, lambdas: seq<Scalar>, alpha: Sharing, beta: Sharing, rows: seq<seq<Scalar>>,
                 ghost coms: seq<Poly>)
    returns (out: seq<TripleShare>)
    requires DistinctMod(ids) && lambdas == Weights(e, ids) && |alpha.shares| == |beta.shares| == |ids| == |rows|
    requires RowsValid(ids, coms, rows)
    ensures out == Reduced(ids, e, alpha, beta, coms).shares
  {
    hide Combine;
    hide At;
    hide Dot;
    hide VerifyShare;
    hide Weights;
    out := [];
    for k := 0 to |ids|
      invariant out == Reduced(ids, e, alpha, beta, coms).shares[..k]
    {
      forall d | 0 <= d < |rows| ensures k < |rows[d]| { assert RowValid(ids, coms[d], rows[d]); }
      var cShare := WeightedColumn(lambdas, rows, k);
      WeightedColumnIs(ids, lambdas, coms, rows, k);
      out := out + [TripleShare(ids[k], alpha.shares[k], beta.shares[k], cShare)];
    }
  }

  // ---------------------------------------------------------------- plain generation

  ghost predicate DealerOk(sid: bytes, ids: seq<nat>, ca: Poly, cb: Poly, k: nat, m: Resharing)
    requires k < |ids| == |m.shares|
  {
    ProofOk(sid, ca, cb, ids[k], m) && SharesOk(ids, m)
  }

  ghost predicate DealersOk(sid: bytes, ids: seq<nat>, ca: Poly, cb: Poly, msgs: seq<Resharing>, n: nat) {
    && n <= |ids| && n <= |msgs|
    && forall k :: 0 <= k < n ==> |msgs[k].shares| == |ids| && DealerOk(sid, ids, ca, cb, k, msgs[k])
  }

  ghost predicate FirstBadDealer(sid: bytes, ids: seq<nat>, ca: Poly, cb: Poly, msgs: seq<Resharing>, k: nat,
                                 blamed: seq<nat>)
    requires k < |ids| == |msgs| && |msgs[k].shares| == |ids|
  {
    blamed == [ids[k]] && DealersOk(sid, ids, ca, cb, msgs, k) && !DealerOk(sid, ids, ca, cb, k, msgs[k])
  }

  /** The abort names the first dealer that fails a check. */
  ghost predicate FaultyDealer(sid: bytes, ids: seq<nat>, ca: Poly, cb: Poly, msgs: seq<Resharing>, blamed: seq<nat>)
    requires |msgs| == |ids| && forall k :: 0 <= k < |ids| ==> |msgs[k].shares| == |ids|
  {
    exists k :: 0 <= k < |ids| && FirstBadDealer(sid, ids, ca, cb, msgs, k, blamed)
  }

  /** A failed re-sharing phase names a misbehaving member; without any it does not fail. */
  lemma ResharingBlame<T>(ids: seq<nat>, sid: bytes, ca: Poly, cb: Poly, msgs: seq<Resharing>, len: nat, bad: set<nat>,
                          r: Outcome<T>)
    requires cb != [] && Plausible(ids, sid, cb, msgs, len)
    requires r.Ok? <==> DealersOk(sid, ids, ca, cb, msgs, |ids|)
    requires r.Abort? ==> FaultyDealer(sid, ids, ca, cb, msgs, r.blamed)
    ensures HonestResharings(ids, sid, ca, cb, msgs, bad) ==>
      (r.Abort? ==> r.blamed != [] && Members(r.blamed) <= bad) && (bad == {} ==> r.Ok?)
  {
    hide ProofOk;
    hide SharesOk;
    hide HonestResharing;
    if HonestResharings(ids, sid, ca, cb, msgs, bad) {
      forall k | 0 <= k < |ids| && ids[k] !in bad
        ensures DealerOk(sid, ids, ca, cb, k, msgs[k])
      {
        HonestResharingOk(ids, sid, ca, cb, k, msgs[k]);
      }
    }
  }

  /** T2 and T3 of the plain protocol: the first faulty dealer is blamed, otherwise the triple is
      the one the commitments determine, and it multiplies. */
  method Generate(c: Committee, sid: bytes, alpha: Sharing, beta: Sharing, msgs: seq<Resharing>)
    returns (r: Outcome<Triple>)
    requires c.Valid() && Shared(c.ids, alpha, c.t) && Shared(c.ids, beta, c.t)
    requires Plausible(c.ids, sid, beta.com, msgs, c.t)
    ensures r.Ok? || r.Abort?
    ensures r.Ok? <==> DealersOk(sid, c.ids, alpha.com, beta.com, msgs, |c.ids|)
    ensures r.Abort? ==> FaultyDealer(sid, c.ids, alpha.com, beta.com, msgs, r.blamed)
    ensures r.Ok? ==> DistinctMod(c.ids) && r.value == Reduced(c.ids, 0, alpha, beta, Coms(msgs))
    ensures r.Ok? ==> WellShared(c.ids, r.value, c.t) && Multiplicative(r.value.pub, 0)
  {
    hide Weights;
    hide Combine;
    hide Eval;
    hide ProofOk;
    hide ProofSound;
    hide SharesOk;
    hide Multiplicative;
    hide WellShared;
    hide ValidRecord;
    hide Reduced;
    var ids := c.ids;
    IdsDistinct(c);
    var lambdas := LagrangeCoeffsAt(0, ids);
    var cc: Poly := [];
    CombineNone(lambdas, Coms(msgs));
    for k := 0 to |ids|
      invariant DealersOk(sid, ids, alpha.com, beta.com, msgs, k)
      invariant cc == Combine(lambdas, Coms(msgs), k)
    {
      var j, m := ids[k], msgs[k];
      var proved := CheckProof(sid, alpha.com, beta.com, j, m);
      if !proved {
        assert FirstBadDealer(sid, ids, alpha.com, beta.com, msgs, k, [j]);
        return Abort([j]);
      }
      var who := CheckRow(ids, j, m);
      if who != [] {
        assert FirstBadDealer(sid, ids, alpha.com, beta.com, msgs, k, who);
        return Abort(who);
      }
      cc := Accumulate(lambdas, Coms(msgs), k, cc, m.com);
    }
    RowsAreValid(sid, ids, alpha.com, beta.com, msgs);
    var rows := seq(|ids|, k requires 0 <= k < |ids| => msgs[k].shares);
    var records := Records(ids, 0, lambdas, alpha, beta, rows, Coms(msgs));
    TripleParts(ids, 0, alpha, beta, Coms(msgs));
    PlainTripleGood(c, sid, alpha, beta, msgs);
    return Ok(Triple(TriplePublic(alpha.com, beta.com, cc), records));
  }

  lemma CombineNone(ws: seq<Scalar>, ps: seq<Poly>)
    ensures Combine(ws, ps, 0) == []
  {
  }

  lemma TripleParts(ids: seq<nat>, e: int, alpha: Sharing, beta: Sharing, coms: seq<Poly>)
    requires DistinctMod(ids) && |coms| == |ids| == |alpha.shares| == |beta.shares|
    ensures Reduced(ids, e, alpha, beta, coms).pub ==
      TriplePublic(alpha.com, beta.com, Combine(Weights(e, ids), coms, |ids|))
  {
  }

  /** The share check of one dealer; the defence it can offer is the share it dealt, so a bad
      share always blames the dealer. */
  method CheckRow(ids: seq<nat>, j: nat, m: Resharing) returns (who: seq<nat>)
    requires |m.shares| == |ids|
    ensures SharesOk(ids, m) ==> who == []
    ensures !SharesOk(ids, m) ==> who == [j]
  {
    hide Eval;
    for v := 0 to |ids|
      invariant forall u :: 0 <= u < v ==> VerifyShare(m.com, ids[u], m.shares[u])
    {
      var e := EvalAtPoint(m.com, ids[v]);
      if m.shares[v] != e {
        var w := ResolveComplaint(m.com, j, ids[v], m.shares[v]);
        return [w];
      }
    }
    return [];
  }

  /** cc := cc + lambda_k * C_k, starting from nothing. */
  method Accumulate(ws: seq<Scalar>, ghost ps: seq<Poly>, k: nat, cc: Poly, com: Poly) returns (r: Poly)
    requires k < |ws| && k < |ps| && com == ps[k] && cc == Combine(ws, ps, k)
    ensures r == Combine(ws, ps, k + 1)
  {
    hide Eval;
    var scaled := Scale(com, ws[k]);
    if k == 0 {
      r := scaled;
    } else {
      r := AddPoints(cc, scaled);
    }
  }

  lemma RowsAreValid(sid: bytes, ids: seq<nat>, ca: Poly, cb: Poly, msgs: seq<Resharing>)
    requires |msgs| == |ids| && DealersOk(sid, ids, ca, cb, msgs, |ids|)
    ensures RowsValid(ids, Coms(msgs), seq(|ids|, k requires 0 <= k < |ids| => msgs[k].shares))
  {
    hide ProofOk;
    hide VerifyShare;
    forall d | 0 <= d < |ids|
      ensures RowValid(ids, msgs[d].com, msgs[d].shares)
    {
      assert DealerOk(sid, ids, ca, cb, d, msgs[d]);
    }
  }

  lemma PlainTripleGood(c: Committee, sid: bytes, alpha: Sharing, beta: Sharing, msgs: seq<Resharing>)
    requires c.Valid() && DistinctMod(c.ids) && Shared(c.ids, alpha, c.t) && Shared(c.ids, beta, c.t)
    requires Plausible(c.ids, sid, beta.com, msgs, c.t)
    requires forall k :: 0 <= k < |c.ids| ==> ProofOk(sid, alpha.com, beta.com, c.ids[k], msgs[k])
    ensures WellShared(c.ids, Reduced(c.ids, 0, alpha, beta, Coms(msgs)), c.t)
    ensures Multiplicative(Reduced(c.ids, 0, alpha, beta, Coms(msgs)).pub, 0)
  {
    hide Convolve;
    hide Combine;
    hide Weights;
    hide Eval;
    var ids, coms := c.ids, Coms(msgs);
    ReducedWellShared(ids, 0, alpha, beta, coms, c.t);
    forall k | 0 <= k < |ids|
      ensures At(coms[k], 0) == At(Convolve(alpha.com, beta.com), ids[k])
    {
      CommitsToProduct(sid, alpha.com, beta.com, ids[k], msgs[k]);
      AtZeroIs(coms[k]);
    }
    ReducedMultiplies(ids, 0, 0, alpha, beta, coms);
  }

  // ---------------------------------------------------------------- robust generation

  /** The shares a dealer dealt, as an opening sees them. */
  ghost function Cards(ids: seq<nat>, row: seq<Scalar>): (r: seq<Opening.Share>)
    requires |row| == |ids|
    ensures |r| == |ids| && forall v :: 0 <= v < |ids| ==> r[v] == Opening.Share(ids[v], row[v])
  {
    seq(|ids|, v requires 0 <= v < |ids| => Opening.Share(ids[v], row[v]))
  }

  /** How many of the dealt shares verify. */
  ghost function ValidCount(ids: seq<nat>, m: Resharing): nat
    requires |m.shares| == |ids|
  {
    |Opening.ValidShares(m.com, Cards(ids, m.shares))|
  }

  /** A dealer the robust protocol can continue with: its proof is good, and either all its
      shares are or enough of them to reconstruct its polynomial. */
  ghost predicate Continuable(sid: bytes, c: Committee, ca: Poly, cb: Poly, k: nat, m: Resharing)
    requires k < |c.ids| == |m.shares|
  {
    ProofOk(sid, ca, cb, c.ids[k], m) && (SharesOk(c.ids, m) || ValidCount(c.ids, m) >= c.t)
  }

  ghost predicate AllContinuable(sid: bytes, c: Committee, ca: Poly, cb: Poly, msgs: seq<Resharing>, n: nat) {
    n <= |c.ids| && n <= |msgs|
    && forall k :: 0 <= k < n ==> |msgs[k].shares| == |c.ids| && Continuable(sid, c, ca, cb, k, msgs[k])
  }

  ghost predicate FirstLostDealer(sid: bytes, c: Committee, ca: Poly, cb: Poly, msgs: seq<Resharing>, k: nat,
                                  blamed: seq<nat>)
    requires k < |c.ids| == |msgs| && |msgs[k].shares| == |c.ids|
  {
    blamed == [c.ids[k]] && AllContinuable(sid, c, ca, cb, msgs, k) && !Continuable(sid, c, ca, cb, k, msgs[k])
  }

  /** The blame list after the first n dealers: exactly those that dealt a bad share, in order. */
  ghost function BadSharers(ids: seq<nat>, msgs: seq<Resharing>, n: nat): (r: seq<nat>)
    requires n <= |ids| && n <= |msgs| && forall k :: 0 <= k < n ==> |msgs[k].shares| == |ids|
  {
    if n == 0 then []
    else BadSharers(ids, msgs, n - 1) + (if SharesOk(ids, msgs[n - 1]) then [] else [ids[n - 1]])
  }

  lemma {:induction false} BadSharersExactly(ids: seq<nat>, msgs: seq<Resharing>, n: nat, j: nat)
    requires n <= |ids| && n <= |msgs| && forall k :: 0 <= k < n ==> |msgs[k].shares| == |ids|
    ensures j in BadSharers(ids, msgs, n) <==> exists k :: 0 <= k < n && ids[k] == j && !SharesOk(ids, msgs[k])
  {
    hide SharesOk;
    if n > 0 {
      BadSharersExactly(ids, msgs, n - 1, j);
    }
  }

  /** The records of those not on the blame list, in committee order. */
  ghost function Survivors(shares: seq<TripleShare>, blamed: seq<nat>, n: nat): seq<TripleShare>
    requires n <= |shares|
  {
    if n == 0 then []
    else Survivors(shares, blamed, n - 1) + (if shares[n - 1].index in blamed then [] else [shares[n - 1]])
  }

  /** An abort names the first dealer the protocol cannot continue with. */
  ghost predicate LostDealer(sid: bytes, c: Committee, ca: Poly, cb: Poly, msgs: seq<Resharing>, blamed: seq<nat>)
    requires |msgs| == |c.ids| && forall k :: 0 <= k < |c.ids| ==> |msgs[k].shares| == |c.ids|
  {
    exists k :: 0 <= k < |c.ids| && FirstLostDealer(sid, c, ca, cb, msgs, k, blamed)
  }

  /** `generate_robust`: bad shares are recomputed from the dealer's committed polynomial. */
  method GenerateRobust(c: Committee, sid: bytes, alpha: Sharing, beta: Sharing, msgs: seq<Resharing>)
    returns (r: Outcome<(Triple, seq<nat>)>)
    requires c.Valid() && Shared(c.ids, alpha, c.t) && Shared(c.ids, beta, c.t)
    requires Plausible(c.ids, sid, beta.com, msgs, c.t)
    ensures r.Ok? || r.Abort?
    ensures r.Ok? <==> AllContinuable(sid, c, alpha.com, beta.com, msgs, |c.ids|)
    ensures r.Abort? ==> LostDealer(sid, c, alpha.com, beta.com, msgs, r.blamed)
    ensures r.Ok? ==> r.value.1 == BadSharers(c.ids, msgs, |c.ids|)
    ensures r.Ok? ==> DistinctMod(c.ids) && RobustOf(Reduced(c.ids, 0, alpha, beta, Coms(msgs)), r.value.1, r.value.0)
    ensures r.Ok? ==> Multiplicative(r.value.0.pub, 0)
  {
    hide Weights;
    hide Combine;
    hide ProofOk;
    hide ProofSound;
    hide Continuable;
    hide VerifyShare;
    hide Multiplicative;
    hide WellShared;
    hide RowValid;
    hide Reduced;
    hide BadSharers;
    var ids := c.ids;
    IdsDistinct(c);
    var lambdas := LagrangeCoeffsAt(0, ids);
    var who, cc, blamed, rows := CheckRobust(c, sid, alpha.com, beta.com, msgs, lambdas);
    if who != [] {
      LostMeansNotAll(sid, c, alpha.com, beta.com, msgs, who);
      return Abort(who);
    }
    var records := Records(ids, 0, lambdas, alpha, beta, rows, Coms(msgs));
    TripleParts(ids, 0, alpha, beta, Coms(msgs));
    ContinuableProved(sid, c, alpha.com, beta.com, msgs);
    PlainTripleGood(c, sid, alpha, beta, msgs);
    var kept := Keep(records, blamed);
    var t := Triple(TriplePublic(alpha.com, beta.com, cc), kept);
    return Ok((t, blamed));
  }

  lemma LostMeansNotAll(sid: bytes, c: Committee, ca: Poly, cb: Poly, msgs: seq<Resharing>, blamed: seq<nat>)
    requires |msgs| == |c.ids| && forall k :: 0 <= k < |c.ids| ==> |msgs[k].shares| == |c.ids|
    requires LostDealer(sid, c, ca, cb, msgs, blamed)
    ensures !AllContinuable(sid, c, ca, cb, msgs, |c.ids|)
  {
  }

  lemma ContinuableProved(sid: bytes, c: Committee, ca: Poly, cb: Poly, msgs: seq<Resharing>)
    requires |msgs| == |c.ids| && AllContinuable(sid, c, ca, cb, msgs, |c.ids|)
    ensures forall k :: 0 <= k < |c.ids| ==> ProofOk(sid, ca, cb, c.ids[k], msgs[k])
  {
    hide ProofOk;
    forall k | 0 <= k < |c.ids| ensures ProofOk(sid, ca, cb, c.ids[k], msgs[k]) {
      assert Continuable(sid, c, ca, cb, k, msgs[k]);
    }
  }

  /** The loop over dealers: checks, repairs, and the accumulator. */
  method CheckRobust(c: Committee, sid: bytes, ca: Poly, cb: Poly, msgs: seq<Resharing>, lambdas: seq<Scalar>)
    returns (who: seq<nat>, cc: Poly, blamed: seq<nat>, rows: seq<seq<Scalar>>)
    requires c.Valid() && |lambdas| == |msgs| == |c.ids|
    requires forall k :: 0 <= k < |c.ids| ==> |msgs[k].com| == c.t && |msgs[k].shares| == |c.ids|
    ensures who != [] ==> LostDealer(sid, c, ca, cb, msgs, who)
    ensures who == [] ==> AllContinuable(sid, c, ca, cb, msgs, |c.ids|)
    ensures who == [] ==> cc == Combine(lambdas, Coms(msgs), |c.ids|) && blamed == BadSharers(c.ids, msgs, |c.ids|)
    ensures who == [] ==> |rows| == |c.ids| && RowsValid(c.ids, Coms(msgs), rows)
  {
    hide Combine;
    hide ProofOk;
    hide SharesOk;
    hide ValidCount;
    hide RowValid;
    var ids := c.ids;
    who, cc, blamed := [], [], [];
    rows := seq(|ids|, k requires 0 <= k < |ids| => msgs[k].shares);
    CombineNone(lambdas, Coms(msgs));
    for k := 0 to |ids|
      invariant who == [] && AllContinuable(sid, c, ca, cb, msgs, k)
      invariant cc == Combine(lambdas, Coms(msgs), k)
      invariant blamed == BadSharers(ids, msgs, k)
      invariant |rows| == |ids| && forall d :: 0 <= d < k ==> RowValid(ids, msgs[d].com, rows[d])
    {
      var j, m := ids[k], msgs[k];
      var proved := CheckProof(sid, ca, cb, j, m);
      if !proved {
        who := [j];
        assert FirstLostDealer(sid, c, ca, cb, msgs, k, who);
        return;
      }
      var lost, faulty, fixed := Repair(c, m);
      if lost {
        who := [j];
        assert FirstLostDealer(sid, c, ca, cb, msgs, k, who);
        return;
      }
      rows := rows[k := fixed];
      if faulty {
        blamed := blamed + [j];
      }
      cc := Accumulate(lambdas, Coms(msgs), k, cc, m.com);
    }
  }

  /** The robust output: the same commitments as the fault-free triple, and the very same record
      for everyone who is not blamed. */
  ghost predicate RobustOf(plain: Triple, blamed: seq<nat>, t: Triple) {
    t.pub == plain.pub && t.shares == Survivors(plain.shares, blamed, |plain.shares|)
  }

  method Keep(records: seq<TripleShare>, blamed: seq<nat>) returns (kept: seq<TripleShare>)
    ensures kept == Survivors(records, blamed, |records|)
  {
    kept := [];
    for k := 0 to |records|
      invariant kept == Survivors(records, blamed, k)
    {
      if records[k].index !in blamed {
        kept := kept + [records[k]];
      }
    }
  }

  /** The share check of one dealer and the reconstruction of its bad shares. */
  method Repair(c: Committee, m: Resharing) returns (lost: bool, faulty: bool, fixed: seq<Scalar>)
    requires c.Valid() && |m.shares| == |c.ids| && |m.com| == c.t
    ensures faulty == !SharesOk(c.ids, m)
    ensures lost == (faulty && ValidCount(c.ids, m) < c.t)
    ensures !lost ==> RowValid(c.ids, m.com, fixed)
  {
    hide Eval;
    hide Red;
    hide Opening.ValidShares;
    hide Opening.Blamed;
    var ids := c.ids;
    var cards := CardList(c.ids, m.shares);
    var validParties, validShares, victims := Opening.Filter(m.com, cards);
    VictimsExactly(ids, m);
    fixed := m.shares;
    faulty, lost := victims != [], false;
    if faulty {
      if |validParties| < c.t {
        lost := true;
        return;
      }
      fixed := Recompute(c, m, victims, validParties, validShares);
    }
  }

  method CardList(ids: seq<nat>, row: seq<Scalar>) returns (r: seq<Opening.Share>)
    requires |row| == |ids|
    ensures r == Cards(ids, row)
  {
    r := seq(|ids|, v requires 0 <= v < |ids| => Opening.Share(ids[v], row[v]));
  }

  /** The victims are exactly the positions with a bad share. */
  lemma VictimsExactly(ids: seq<nat>, m: Resharing)
    requires |m.shares| == |ids|
    ensures SharesOk(ids, m) <==> Opening.Blamed(m.com, Cards(ids, m.shares)) == []
    ensures forall v :: 0 <= v < |ids| ==>
      VerifyShare(m.com, ids[v], m.shares[v]) || ids[v] in Opening.Blamed(m.com, Cards(ids, m.shares))
    ensures forall j :: j in Opening.Blamed(m.com, Cards(ids, m.shares)) ==> j in ids
  {
    hide VerifyShare;
    var cards := Cards(ids, m.shares);
    var victims := Opening.Blamed(m.com, cards);
    forall v | 0 <= v < |ids| && !VerifyShare(m.com, ids[v], m.shares[v])
      ensures ids[v] in victims
    {
      Opening.BlamedExactly(m.com, cards, ids[v]);
      assert !Opening.Valid(m.com, cards[v]);
    }
    forall j | j in victims
      ensures j in ids && !SharesOk(ids, m)
    {
      Opening.BlamedExactly(m.com, cards, j);
      var i :| 0 <= i < |cards| && cards[i].from == j && !Opening.Valid(m.com, cards[i]);
      assert !VerifyShare(m.com, ids[i], m.shares[i]);
    }
    if victims != [] {
      assert victims[0] in victims;
    }
  }

  /** Recompute every victim's share from the first t valid ones. */
  method Recompute(c: Committee, m: Resharing, victims: seq<nat>, validParties: seq<nat>, validShares: seq<Scalar>)
    returns (fixed: seq<Scalar>)
    requires c.Valid() && |m.shares| == |c.ids| && |m.com| == c.t <= |validParties|
    requires victims == Opening.Blamed(m.com, Cards(c.ids, m.shares))
    requires validParties == Opening.Senders(Opening.ValidShares(m.com, Cards(c.ids, m.shares)))
    requires validShares == Opening.Values(Opening.ValidShares(m.com, Cards(c.ids, m.shares)))
    ensures RowValid(c.ids, m.com, fixed)
  {
    hide VerifyShare;
    hide Red;
    hide Cards;
    hide Opening.ValidShares;
    hide Opening.Blamed;
    hide Opening.Senders;
    hide Opening.Values;
    var ids := c.ids;
    VictimsExactly(ids, m);
    fixed := m.shares;
    for q := 0 to |victims|
      invariant |fixed| == |ids|
      invariant forall v :: 0 <= v < |ids| ==> VerifyShare(m.com, ids[v], fixed[v]) || ids[v] in victims[q..]
    {
      var i := victims[q];
      assert i in ids;
      var v := Position(ids, i);
      var s := RecomputeOne(c, m, i, validParties, validShares);
      fixed := fixed[v := s];
      assert victims[q..] == [i] + victims[q + 1..];
      PositionUnique(ids, v);
    }
  }

  /** Interpolate the dealer's committed polynomial at one victim. */
  method RecomputeOne(c: Committee, m: Resharing, i: nat, validParties: seq<nat>,
                      validShares: seq<Scalar>) returns (s: Scalar)
    requires c.Valid() && |m.shares| == |c.ids| && |m.com| == c.t <= |validParties|
    requires validParties == Opening.Senders(Opening.ValidShares(m.com, Cards(c.ids, m.shares)))
    requires validShares == Opening.Values(Opening.ValidShares(m.com, Cards(c.ids, m.shares)))
    ensures VerifyShare(m.com, i, s)
  {
    hide VerifyShare;
    hide Red;
    hide Opening.ValidShares;
    ghost var cards := Cards(c.ids, m.shares);
    CardsDistinct(c, m.shares);
    Opening.DistinctFirst(c.t, m.com, cards);
    Opening.OpensToCommitted(m.com, cards, c.t, i);
    ghost var first := Opening.ValidShares(m.com, cards)[..c.t];
    assert validParties[..c.t] == Opening.Senders(first) && validShares[..c.t] == Opening.Values(first);
    s := InterpolateAt(i, validParties[..c.t], validShares[..c.t]);
    VerifiesIf(m.com, i, s);
  }

  lemma VerifiesIf(com: Poly, j: int, s: Scalar)
    requires s == At(com, j)
    ensures VerifyShare(com, j, s)
  {
  }

  lemma PositionUnique(ids: seq<nat>, v: nat)
    requires StrictlyIncreasing(ids) && v < |ids|
    ensures forall u :: 0 <= u < |ids| && ids[u] == ids[v] ==> u == v
  {
  }

  lemma CardsDistinct(c: Committee, row: seq<Scalar>)
    requires c.Valid() && |row| == |c.ids|
    ensures Opening.DistinctSenders(Cards(c.ids, row))
  {
    IdsDistinct(c);
  }

  lemma {:induction false} SurvivorIsPlain(shares: seq<TripleShare>, blamed: seq<nat>, n: nat, s: TripleShare)
    requires n <= |shares|
    ensures s in Survivors(shares, blamed, n) <==> s.index !in blamed && exists k :: 0 <= k < n && shares[k] == s
  {
    if n > 0 {
      SurvivorIsPlain(shares, blamed, n - 1, s);
    }
  }

  /** Robust generation refines plain generation: whatever shares were dealt, it yields the
      commitments of the run `clean` in which the same commitments come with good shares, that
      run's record for everyone who dealt no bad share, and no other record. */
  lemma RobustRefinesPlain(c: Committee, alpha: Sharing, beta: Sharing, msgs: seq<Resharing>, clean: seq<Resharing>,
                           t: Triple)
    requires c.Valid() && DistinctMod(c.ids) && |msgs| == |clean| == |c.ids| == |alpha.shares| == |beta.shares|
    requires forall k :: 0 <= k < |c.ids| ==> clean[k].com == msgs[k].com && |msgs[k].shares| == |c.ids|
    requires var blamed := BadSharers(c.ids, msgs, |c.ids|);
      RobustOf(Reduced(c.ids, 0, alpha, beta, Coms(msgs)), blamed, t)
    ensures t.pub == Reduced(c.ids, 0, alpha, beta, Coms(clean)).pub
    ensures forall k :: 0 <= k < |c.ids| && SharesOk(c.ids, msgs[k]) ==>
      Reduced(c.ids, 0, alpha, beta, Coms(clean)).shares[k] in t.shares
    ensures forall s :: s in t.shares ==> s in Reduced(c.ids, 0, alpha, beta, Coms(clean)).shares
  {
    hide SharesOk;
    hide Combine;
    hide VerifyShare;
    var plain, blamed := Reduced(c.ids, 0, alpha, beta, Coms(msgs)), BadSharers(c.ids, msgs, |c.ids|);
    assert Coms(clean) == Coms(msgs);
    forall k | 0 <= k < |c.ids| && SharesOk(c.ids, msgs[k])
      ensures plain.shares[k] in t.shares
    {
      BadSharersExactly(c.ids, msgs, |c.ids|, c.ids[k]);
      PositionUnique(c.ids, k);
      SurvivorIsPlain(plain.shares, blamed, |c.ids|, plain.shares[k]);
    }
    forall s | s in t.shares
      ensures s in plain.shares
    {
      SurvivorIsPlain(plain.shares, blamed, |c.ids|, s);
    }
  }

  // ---------------------------------------------------------------- packed generation

  /** The re-sharing is a constant pack: the value at 0 sits at every slot point. */
  ghost predicate SlotBound(bPack: nat, m: Resharing) {
    m.com != [] && forall b :: 1 <= b < bPack ==> At(m.com, SlotPoint(b)) == m.com[0]
  }

  ghost predicate PackedDealerOk(sid: bytes, ids: seq<nat>, bPack: nat, ca: Poly, cb: Poly, k: nat, m: Resharing)
    requires k < |ids| == |m.shares|
  {
    ProofOk(sid, ca, cb, ids[k], m) && SlotBound(bPack, m) && SharesOk(ids, m)
  }

  ghost predicate PackedDealersOk(sid: bytes, ids: seq<nat>, bPack: nat, ca: Poly, cb: Poly, msgs: seq<Resharing>,
                                  n: nat) {
    n <= |ids| && n <= |msgs|
    && forall k :: 0 <= k < n ==> |msgs[k].shares| == |ids| && PackedDealerOk(sid, ids, bPack, ca, cb, k, msgs[k])
  }

  ghost predicate FirstBadPackedDealer(sid: bytes, ids: seq<nat>, bPack: nat, ca: Poly, cb: Poly, msgs: seq<Resharing>,
                                       k: nat, blamed: seq<nat>)
    requires k < |ids| == |msgs| && |msgs[k].shares| == |ids|
  {
    && blamed == [ids[k]] && PackedDealersOk(sid, ids, bPack, ca, cb, msgs, k)
    && !PackedDealerOk(sid, ids, bPack, ca, cb, k, msgs[k])
  }

  /** The abort names the first dealer that fails a check. */
  ghost predicate FaultyPackedDealer(sid: bytes, ids: seq<nat>, bPack: nat, ca: Poly, cb: Poly, msgs: seq<Resharing>,
                                     blamed: seq<nat>)
    requires |msgs| == |ids| && forall k :: 0 <= k < |ids| ==> |msgs[k].shares| == |ids|
  {
    exists k :: 0 <= k < |ids| && FirstBadPackedDealer(sid, ids, bPack, ca, cb, msgs, k, blamed)
  }

  ghost predicate HonestPackedResharings(ids: seq<nat>, bPack: nat, sid: bytes, ca: Poly, cb: Poly,
                                         msgs: seq<Resharing>, bad: set<nat>) {
    && |msgs| == |ids|
    && forall k :: 0 <= k < |ids| && ids[k] !in bad ==>
      HonestResharing(ids, sid, ca, cb, ids[k], msgs[k]) && SlotBound(bPack, msgs[k])
  }

  lemma PackedResharingBlame<T>(ids: seq<nat>, bPack: nat, sid: bytes, ca: Poly, cb: Poly, msgs: seq<Resharing>,
                                len: nat, bad: set<nat>, r: Outcome<T>)
    requires cb != [] && Plausible(ids, sid, cb, msgs, len)
    requires r.Ok? <==> PackedDealersOk(sid, ids, bPack, ca, cb, msgs, |ids|)
    requires r.Abort? ==> FaultyPackedDealer(sid, ids, bPack, ca, cb, msgs, r.blamed)
    ensures HonestPackedResharings(ids, bPack, sid, ca, cb, msgs, bad) ==>
      (r.Abort? ==> r.blamed != [] && Members(r.blamed) <= bad) && (bad == {} ==> r.Ok?)
  {
    hide ProofOk;
    hide SharesOk;
    hide SlotBound;
    hide HonestResharing;
    if HonestPackedResharings(ids, bPack, sid, ca, cb, msgs, bad) {
      forall k | 0 <= k < |ids| && ids[k] !in bad
        ensures PackedDealerOk(sid, ids, bPack, ca, cb, k, msgs[k])
      {
        HonestResharingOk(ids, sid, ca, cb, k, msgs[k]);
      }
    }
  }

  /** The degree of a packed sharing, plus one. */
  function PackedLength(t: nat, bPack: nat): nat
    requires t >= 1 && bPack >= 1
  {
    t + bPack - 1
  }

  method CheckSlots(bPack: nat, m: Resharing) returns (ok: bool)
    requires bPack >= 1 && m.com != []
    ensures ok == SlotBound(bPack, m)
  {
    hide Eval;
    for b := 1 to bPack
      invariant forall a :: 1 <= a < b ==> At(m.com, SlotPoint(a)) == m.com[0]
    {
      var e := EvalAtPoint(m.com, SlotPoint(b));
      if e != m.com[0] {
        return false;
      }
    }
    return true;
  }

  /** What packed generation promises for slot b: every slot point of its product commitment
      carries the product of the operands' values at slot b. */
  ghost predicate SlotTriple(ids: seq<nat>, bPack: nat, b: nat, t: Triple, len: nat) {
    && WellShared(ids, t, len)
    && forall a :: 0 <= a < bPack ==>
      At(t.pub.cc, SlotPoint(a)) == Times(At(t.pub.ca, SlotPoint(b)), At(t.pub.cb, SlotPoint(b)))
  }

  /** `generate_packed`: one triple per slot from one re-sharing per party. */
  method GeneratePacked(c: Committee, bPack: nat, sid: bytes, alpha: Sharing, beta: Sharing, msgs: seq<Resharing>)
    returns (r: Outcome<seq<Triple>>)
    requires c.Valid()
    requires bPack >= 1 ==> var len := PackedLength(c.t, bPack);
      Shared(c.ids, alpha, len) && Shared(c.ids, beta, len) && Plausible(c.ids, sid, beta.com, msgs, len)
    ensures r.Ok? || r.Abort? || r.InvalidParams?
    ensures r.InvalidParams? <==> bPack < 1 || |c.ids| < 2 * c.t + 2 * bPack - 3
    ensures r.Ok? <==> !r.InvalidParams? && PackedDealersOk(sid, c.ids, bPack, alpha.com, beta.com, msgs, |c.ids|)
    ensures r.Abort? ==> FaultyPackedDealer(sid, c.ids, bPack, alpha.com, beta.com, msgs, r.blamed)
    ensures r.Ok? ==> |r.value| == bPack && forall b :: 0 <= b < bPack ==>
      r.value[b].pub.ca == alpha.com && r.value[b].pub.cb == beta.com
      && SlotTriple(c.ids, bPack, b, r.value[b], PackedLength(c.t, bPack))
  {
    if bPack < 1 || |c.ids| < 2 * c.t + 2 * bPack - 3 {
      return InvalidParams;
    }
    var ids := c.ids;
    IdsDistinct(c);
    var lambdas := SlotLambdas(ids, bPack);
    var who, ccs := CheckPacked(c, bPack, sid, alpha.com, beta.com, msgs, lambdas);
    if who != [] {
      return Abort(who);
    }
    var out := PackedTriples(c, bPack, sid, alpha, beta, msgs, lambdas, ccs);
    return Ok(out);
  }

  /** The slot Lagrange weights. */
  method SlotLambdas(ids: seq<nat>, bPack: nat) returns (out: seq<seq<Scalar>>)
    requires DistinctMod(ids)
    ensures |out| == bPack && forall b :: 0 <= b < bPack ==> out[b] == Weights(SlotPoint(b), ids)
  {
    hide Weights;
    out := [];
    for b := 0 to bPack
      invariant |out| == b && forall a :: 0 <= a < b ==> out[a] == Weights(SlotPoint(a), ids)
    {
      var ws := LagrangeCoeffsAt(SlotPoint(b), ids);
      out := out + [ws];
    }
  }

  /** The loop over dealers: checks, and one accumulator per slot. */
  method CheckPacked(c: Committee, bPack: nat, sid: bytes, ca: Poly, cb: Poly, msgs: seq<Resharing>,
                     lambdas: seq<seq<Scalar>>)
    returns (who: seq<nat>, ccs: seq<Poly>)
    requires |lambdas| == bPack >= 1 && forall b :: 0 <= b < bPack ==> |lambdas[b]| == |c.ids|
    requires |msgs| == |c.ids| && forall k :: 0 <= k < |c.ids| ==> msgs[k].com != [] && |msgs[k].shares| == |c.ids|
    ensures who != [] ==> FaultyPackedDealer(sid, c.ids, bPack, ca, cb, msgs, who)
    ensures who == [] ==> PackedDealersOk(sid, c.ids, bPack, ca, cb, msgs, |c.ids|)
    ensures who == [] ==>
      |ccs| == bPack && forall b :: 0 <= b < bPack ==> ccs[b] == Combine(lambdas[b], Coms(msgs), |c.ids|)
  {
    hide ProofOk;
    hide SharesOk;
    hide SlotBound;
    hide Combine;
    var ids := c.ids;
    who := [];
    ccs := seq(bPack, _ => []);
    forall b | 0 <= b < bPack
      ensures ccs[b] == Combine(lambdas[b], Coms(msgs), 0)
    {
      CombineNone(lambdas[b], Coms(msgs));
    }
    for k := 0 to |ids|
      invariant who == [] && PackedDealersOk(sid, ids, bPack, ca, cb, msgs, k)
      invariant |ccs| == bPack && forall b :: 0 <= b < bPack ==> ccs[b] == Combine(lambdas[b], Coms(msgs), k)
    {
      var j, m := ids[k], msgs[k];
      var proved := CheckProof(sid, ca, cb, j, m);
      if !proved {
        who := [j];
        assert FirstBadPackedDealer(sid, ids, bPack, ca, cb, msgs, k, who);
        return;
      }
      var bound := CheckSlots(bPack, m);
      if !bound {
        who := [j];
        assert FirstBadPackedDealer(sid, ids, bPack, ca, cb, msgs, k, who);
        return;
      }
      who := CheckRow(ids, j, m);
      if who != [] {
        assert FirstBadPackedDealer(sid, ids, bPack, ca, cb, msgs, k, who);
        return;
      }
      ccs := AccumulateSlots(lambdas, msgs, k, ccs);
    }
  }

  method AccumulateSlots(lambdas: seq<seq<Scalar>>, msgs: seq<Resharing>, k: nat,
                         ccs: seq<Poly>) returns (out: seq<Poly>)
    requires k < |msgs| && |ccs| == |lambdas| && forall b :: 0 <= b < |lambdas| ==> |lambdas[b]| == |msgs|
    requires forall b :: 0 <= b < |lambdas| ==> ccs[b] == Combine(lambdas[b], Coms(msgs), k)
    ensures |out| == |lambdas| && forall b :: 0 <= b < |lambdas| ==> out[b] == Combine(lambdas[b], Coms(msgs), k + 1)
  {
    hide Combine;
    out := ccs;
    for b := 0 to |lambdas|
      invariant |out| == |lambdas|
      invariant forall a :: 0 <= a < |lambdas| ==> out[a] == Combine(lambdas[a], Coms(msgs), if a < b then k + 1 else k)
    {
      var acc := Accumulate(lambdas[b], Coms(msgs), k, out[b], msgs[k].com);
      out := out[b := acc];
    }
  }

  /** One triple per slot out of the accumulators. */
  method PackedTriples(c: Committee, bPack: nat, sid: bytes, alpha: Sharing, beta: Sharing, msgs: seq<Resharing>,
                       lambdas: seq<seq<Scalar>>, ccs: seq<Poly>)
    returns (out: seq<Triple>)
    requires c.Valid() && DistinctMod(c.ids) && bPack >= 1 && |c.ids| >= 2 * c.t + 2 * bPack - 3
    requires var len := PackedLength(c.t, bPack);
      Shared(c.ids, alpha, len) && Shared(c.ids, beta, len) && Plausible(c.ids, sid, beta.com, msgs, len)
    requires PackedDealersOk(sid, c.ids, bPack, alpha.com, beta.com, msgs, |c.ids|)
    requires |lambdas| == |ccs| == bPack
    requires forall b :: 0 <= b < bPack ==> lambdas[b] == Weights(SlotPoint(b), c.ids) && |lambdas[b]| == |c.ids|
    requires forall b :: 0 <= b < bPack ==> ccs[b] == Combine(lambdas[b], Coms(msgs), |c.ids|)
    ensures |out| == bPack && forall b :: 0 <= b < bPack ==>
      out[b].pub.ca == alpha.com && out[b].pub.cb == beta.com
      && SlotTriple(c.ids, bPack, b, out[b], PackedLength(c.t, bPack))
  {
    hide Weights;
    hide Combine;
    hide ProofOk;
    hide ProofSound;
    hide SharesOk;
    hide SlotBound;
    hide SlotTriple;
    hide Reduced;
    var ids := c.ids;
    PackedRowsValid(sid, ids, bPack, alpha.com, beta.com, msgs);
    var rows := seq(|ids|, k requires 0 <= k < |ids| => msgs[k].shares);
    out := [];
    for b := 0 to bPack
      invariant |out| == b && forall a :: 0 <= a < b ==>
        out[a].pub.ca == alpha.com && out[a].pub.cb == beta.com
        && SlotTriple(ids, bPack, a, out[a], PackedLength(c.t, bPack))
    {
      var records := Records(ids, SlotPoint(b), lambdas[b], alpha, beta, rows, Coms(msgs));
      TripleParts(ids, SlotPoint(b), alpha, beta, Coms(msgs));
      PackedTripleGood(c, bPack, b, sid, alpha, beta, msgs);
      out := out + [Triple(TriplePublic(alpha.com, beta.com, ccs[b]), records)];
    }
  }

  lemma PackedRowsValid(sid: bytes, ids: seq<nat>, bPack: nat, ca: Poly, cb: Poly, msgs: seq<Resharing>)
    requires |msgs| == |ids| && PackedDealersOk(sid, ids, bPack, ca, cb, msgs, |ids|)
    ensures RowsValid(ids, Coms(msgs), seq(|ids|, k requires 0 <= k < |ids| => msgs[k].shares))
  {
    hide ProofOk;
    hide SlotBound;
    hide VerifyShare;
    forall d | 0 <= d < |ids|
      ensures RowValid(ids, msgs[d].com, msgs[d].shares)
    {
      assert PackedDealerOk(sid, ids, bPack, ca, cb, d, msgs[d]);
    }
  }

  /** The product polynomial has degree 2d < n, so its value at a slot point can be interpolated
      from the party points; the slot binding carries it to every slot. */
  lemma PackedTripleGood(c: Committee, bPack: nat, b: nat, sid: bytes, alpha: Sharing, beta: Sharing,
                         msgs: seq<Resharing>)
    requires c.Valid() && DistinctMod(c.ids) && b < bPack && |c.ids| >= 2 * c.t + 2 * bPack - 3
    requires var len := PackedLength(c.t, bPack);
      Shared(c.ids, alpha, len) && Shared(c.ids, beta, len) && Plausible(c.ids, sid, beta.com, msgs, len)
    requires PackedDealersOk(sid, c.ids, bPack, alpha.com, beta.com, msgs, |c.ids|)
    ensures SlotTriple(c.ids, bPack, b, Reduced(c.ids, SlotPoint(b), alpha, beta, Coms(msgs)), PackedLength(c.t, bPack))
  {
    hide Convolve;
    hide Combine;
    hide Weights;
    hide Eval;
    hide ProofOk;
    hide ProofSound;
    var ids, coms := c.ids, Coms(msgs);
    ReducedWellShared(ids, SlotPoint(b), alpha, beta, coms, PackedLength(c.t, bPack));
    forall a | 0 <= a < bPack
      ensures At(Reduced(ids, SlotPoint(b), alpha, beta, coms).pub.cc, SlotPoint(a))
        == Times(At(alpha.com, SlotPoint(b)), At(beta.com, SlotPoint(b)))
    {
      forall k | 0 <= k < |ids|
        ensures At(coms[k], SlotPoint(a)) == At(Convolve(alpha.com, beta.com), ids[k])
      {
        assert PackedDealerOk(sid, ids, bPack, alpha.com, beta.com, k, msgs[k]);
        CommitsToProduct(sid, alpha.com, beta.com, ids[k], msgs[k]);
        SlotValue(bPack, a, msgs[k]);
      }
      ReducedMultiplies(ids, SlotPoint(b), SlotPoint(a), alpha, beta, coms);
    }
  }

  lemma SlotValue(bPack: nat, a: nat, m: Resharing)
    requires a < bPack && SlotBound(bPack, m)
    ensures At(m.com, SlotPoint(a)) == m.com[0]
  {
    if a == 0 {
      AtZeroIs(m.com);
      RedScalar(0);
    }
  }

  // ---------------------------------------------------------------- with the dealing sessions

  const DKG_COMMIT: bytes := Ascii("OHM-ECDSA/v0.1/dkg-commit")
  const DKG_PACKED_COMMIT: bytes := Ascii("OHM-ECDSA/v0.1/dkg-packed-commit")

  /** All messages of one triple session. */
  datatype Run = Run(alpha: Dealing, beta: Dealing, resharings: seq<Resharing>)

  function AlphaSession(sid: bytes, t: nat): Session {
    Session(sid + Ascii("/alpha"), DKG_COMMIT, 1, t)
  }

  function BetaSession(sid: bytes, t: nat): Session {
    Session(sid + Ascii("/beta"), DKG_COMMIT, 1, t)
  }

  ghost predicate RunPlausible(c: Committee, sid: bytes, run: Run) {
    && FromCommittee(c.ids, AlphaSession(sid, c.t), run.alpha)
    && FromCommittee(c.ids, BetaSession(sid, c.t), run.beta)
    && forall beta: Sharing :: Established(c.ids, BetaSession(sid, c.t), run.beta, 0, beta) ==>
      Plausible(c.ids, sid, beta.com, run.resharings, c.t)
  }

  /** The two operands that the dealings of a session establish. */
  ghost predicate Operands(c: Committee, sid: bytes, run: Run, alpha: Sharing, beta: Sharing) {
    && FromCommittee(c.ids, AlphaSession(sid, c.t), run.alpha) && Accepted(c.ids, AlphaSession(sid, c.t), run.alpha)
    && FromCommittee(c.ids, BetaSession(sid, c.t), run.beta) && Accepted(c.ids, BetaSession(sid, c.t), run.beta)
    && Established(c.ids, AlphaSession(sid, c.t), run.alpha, 0, alpha)
    && Established(c.ids, BetaSession(sid, c.t), run.beta, 0, beta)
  }

  ghost predicate DealtFairly(c: Committee, sid: bytes, run: Run, bad: set<nat>) {
    && Behaved(c.ids, AlphaSession(sid, c.t), run.alpha, bad)
    && Behaved(c.ids, BetaSession(sid, c.t), run.beta, bad)
  }

  /** Everybody outside `bad` follows the protocol of the session. */
  ghost predicate RunBehaved(c: Committee, sid: bytes, run: Run, bad: set<nat>) {
    && DealtFairly(c, sid, run, bad)
    && forall alpha, beta :: Operands(c, sid, run, alpha, beta) ==>
      HonestResharings(c.ids, sid, alpha.com, beta.com, run.resharings, bad)
  }

  /** The session passes: its operands are established and every re-sharing is accepted. */
  ghost predicate Passes(c: Committee, sid: bytes, run: Run, alpha: Sharing, beta: Sharing) {
    Operands(c, sid, run, alpha, beta) && DealersOk(sid, c.ids, alpha.com, beta.com, run.resharings, |c.ids|)
  }

  /** The two joint dealings of a session. */
  method DealOperands(c: Committee, sid: bytes, run: Run, ghost bad: set<nat>) returns (r: Outcome<(Sharing, Sharing)>)
    requires c.Valid() && FromCommittee(c.ids, AlphaSession(sid, c.t), run.alpha)
      && FromCommittee(c.ids, BetaSession(sid, c.t), run.beta)
    ensures r.Ok? || r.Abort? || r.InvalidParams?
    ensures r.Ok? ==>
      Operands(c, sid, run, r.value.0, r.value.1) && Shared(c.ids, r.value.0, c.t) && Shared(c.ids, r.value.1, c.t)
    ensures !r.Ok? ==> forall alpha, beta :: !Operands(c, sid, run, alpha, beta)
    ensures DealtFairly(c, sid, run, bad) ==>
      (r.Abort? ==> r.blamed != [] && Members(r.blamed) <= bad) && (bad == {} ==> r.Ok?)
  {
    hide Accepted;
    hide FromCommittee;
    hide Behaved;
    hide FirstFault;
    hide Established;
    hide Shared;
    var dealtA := JointDeal(c, AlphaSession(sid, c.t), run.alpha);
    DealingBlame(c, AlphaSession(sid, c.t), run.alpha, bad, dealtA);
    if !dealtA.Ok? {
      return if dealtA.Abort? then Abort(dealtA.blamed) else InvalidParams;
    }
    var dealtB := JointDeal(c, BetaSession(sid, c.t), run.beta);
    DealingBlame(c, BetaSession(sid, c.t), run.beta, bad, dealtB);
    if !dealtB.Ok? {
      return if dealtB.Abort? then Abort(dealtB.blamed) else InvalidParams;
    }
    var alpha, beta := dealtA.value[0], dealtB.value[0];
    assert Established(c.ids, AlphaSession(sid, c.t), run.alpha, 0, alpha);
    assert Established(c.ids, BetaSession(sid, c.t), run.beta, 0, beta);
    EstablishedShared(c.ids, AlphaSession(sid, c.t), run.alpha, 0, alpha);
    EstablishedShared(c.ids, BetaSession(sid, c.t), run.beta, 0, beta);
    return Ok((alpha, beta));
  }

  /** `generate_with_committee` from the first message to the triple.  It succeeds exactly when
      both dealings are accepted and every re-sharing passes; an abort names misbehaving members
      only, and without any there is a triple. */
  method GenerateRun(c: Committee, sid: bytes, run: Run, ghost bad: set<nat>) returns (r: Outcome<Triple>)
    requires c.Valid() && RunPlausible(c, sid, run)
    ensures r.Ok? || r.Abort? || r.InvalidParams?
    ensures r.Ok? ==> WellShared(c.ids, r.value, c.t) && Multiplicative(r.value.pub, 0)
    ensures r.Ok? <==> exists alpha, beta :: Passes(c, sid, run, alpha, beta)
    ensures RunBehaved(c, sid, run, bad) ==>
      (r.Abort? ==> r.blamed != [] && Members(r.blamed) <= bad) && (bad == {} ==> r.Ok?)
  {
    hide Plausible;
    hide WellShared;
    hide Multiplicative;
    hide FromCommittee;
    hide Behaved;
    hide HonestResharings;
    hide FaultyDealer;
    hide DealersOk;
    hide Operands;
    var dealt := DealOperands(c, sid, run, bad);
    if !dealt.Ok? {
      return if dealt.Abort? then Abort(dealt.blamed) else InvalidParams;
    }
    var alpha, beta := dealt.value.0, dealt.value.1;
    OperandsUnique(c, sid, run, alpha, beta);
    OperandsPlausible(c, sid, run, alpha, beta);
    r := Generate(c, sid, alpha, beta, run.resharings);
    ResharingBlame(c.ids, sid, alpha.com, beta.com, run.resharings, c.t, bad, r);
    assert r.Ok? ==> Passes(c, sid, run, alpha, beta);
  }

  /** The robust session passes: its operands are established and every dealer is continuable. */
  ghost predicate RobustPasses(c: Committee, sid: bytes, run: Run, alpha: Sharing, beta: Sharing) {
    Operands(c, sid, run, alpha, beta) && AllContinuable(sid, c, alpha.com, beta.com, run.resharings, |c.ids|)
  }

  /** `generate_robust_with_committee` from the first message to the triple. */
  method GenerateRobustRun(c: Committee, sid: bytes, run: Run,
                           ghost bad: set<nat>) returns (r: Outcome<(Triple, seq<nat>)>)
    requires c.Valid() && RunPlausible(c, sid, run)
    ensures r.Ok? || r.Abort? || r.InvalidParams?
    ensures r.Ok? <==> exists alpha, beta :: RobustPasses(c, sid, run, alpha, beta)
    ensures r.Ok? ==> Multiplicative(r.value.0.pub, 0) && r.value.1 == BadSharers(c.ids, run.resharings, |c.ids|)
    ensures r.Ok? ==> exists alpha, beta ::
      RobustPasses(c, sid, run, alpha, beta) && DistinctMod(c.ids) && |alpha.shares| == |beta.shares| == |c.ids|
      && |run.resharings| == |c.ids|
      && RobustOf(Reduced(c.ids, 0, alpha, beta, Coms(run.resharings)), r.value.1, r.value.0)
    ensures RunBehaved(c, sid, run, bad) ==>
      (r.Abort? ==> r.blamed != [] && Members(r.blamed) <= bad) && (r.Ok? ==> Members(r.value.1) <= bad)
      && (bad == {} ==> r.Ok?)
  {
    hide Multiplicative;
    hide FromCommittee;
    hide Behaved;
    hide HonestResharings;
    hide Continuable;
    hide Reduced;
    hide RobustOf;
    hide BadSharers;
    hide Operands;
    hide ProofSound;
    var dealt := DealOperands(c, sid, run, bad);
    if !dealt.Ok? {
      return if dealt.Abort? then Abort(dealt.blamed) else InvalidParams;
    }
    var alpha, beta := dealt.value.0, dealt.value.1;
    OperandsUnique(c, sid, run, alpha, beta);
    OperandsPlausible(c, sid, run, alpha, beta);
    r := GenerateRobust(c, sid, alpha, beta, run.resharings);
    RobustBlame(c, sid, alpha.com, beta.com, run.resharings, bad, r);
    assert r.Ok? ==> RobustPasses(c, sid, run, alpha, beta);
  }

  /** A robust failure names misbehaving members, and so does robust blame; without any there is
      no failure. */
  lemma RobustBlame(c: Committee, sid: bytes, ca: Poly, cb: Poly, msgs: seq<Resharing>, bad: set<nat>,
                    r: Outcome<(Triple, seq<nat>)>)
    requires c.Valid() && cb != [] && Plausible(c.ids, sid, cb, msgs, c.t)
    requires r.Ok? <==> AllContinuable(sid, c, ca, cb, msgs, |c.ids|)
    requires r.Abort? ==> LostDealer(sid, c, ca, cb, msgs, r.blamed)
    requires r.Ok? ==> r.value.1 == BadSharers(c.ids, msgs, |c.ids|)
    ensures HonestResharings(c.ids, sid, ca, cb, msgs, bad) ==>
      (r.Abort? ==> r.blamed != [] && Members(r.blamed) <= bad) && (r.Ok? ==> Members(r.value.1) <= bad)
      && (bad == {} ==> r.Ok?)
  {
    hide ProofOk;
    hide ProofSound;
    hide SharesOk;
    hide ValidCount;
    hide HonestResharing;
    hide BadSharers;
    if HonestResharings(c.ids, sid, ca, cb, msgs, bad) {
      forall k | 0 <= k < |c.ids| && c.ids[k] !in bad
        ensures Continuable(sid, c, ca, cb, k, msgs[k]) && SharesOk(c.ids, msgs[k])
      {
        HonestResharingOk(c.ids, sid, ca, cb, k, msgs[k]);
        HonestContinuable(sid, c, ca, cb, k, msgs[k]);
      }
      forall j | j in BadSharers(c.ids, msgs, |c.ids|)
        ensures j in bad
      {
        BadSharersExactly(c.ids, msgs, |c.ids|, j);
      }
    }
  }

  lemma HonestContinuable(sid: bytes, c: Committee, ca: Poly, cb: Poly, k: nat, m: Resharing)
    requires c.Valid() && k < |c.ids| == |m.shares| && ProofOk(sid, ca, cb, c.ids[k], m) && SharesOk(c.ids, m)
    ensures Continuable(sid, c, ca, cb, k, m)
  {
    hide ProofOk;
  }

  lemma OperandsPlausible(c: Committee, sid: bytes, run: Run, alpha: Sharing, beta: Sharing)
    requires RunPlausible(c, sid, run) && Operands(c, sid, run, alpha, beta)
    ensures Plausible(c.ids, sid, beta.com, run.resharings, c.t)
  {
    hide Plausible;
    hide Accepted;
    hide FromCommittee;
    hide Established;
  }

  lemma EstablishedShared(ids: seq<nat>, z: Session, d: Dealing, b: nat, s: Sharing)
    requires Established(ids, z, d, b, s)
    ensures Shared(ids, s, z.polyLen)
  {
  }

  lemma OperandsUnique(c: Committee, sid: bytes, run: Run, alpha: Sharing, beta: Sharing)
    requires Operands(c, sid, run, alpha, beta)
    ensures forall a, b :: Operands(c, sid, run, a, b) ==> a.com == alpha.com && b.com == beta.com
  {
    hide Accepted;
    hide FromCommittee;
    hide Shared;
    hide JointCom;
  }

  /** All messages of one packed triple session: one joint dealing of both operands. */
  datatype PackedRun = PackedRun(dealing: Dealing, resharings: seq<Resharing>)

  function PackedSession(sid: bytes, len: nat): Session {
    Session(sid, DKG_PACKED_COMMIT, 2, len)
  }

  ghost predicate PackedRunPlausible(c: Committee, sid: bytes, len: nat, run: PackedRun) {
    && FromCommittee(c.ids, PackedSession(sid, len), run.dealing)
    && forall beta: Sharing :: Established(c.ids, PackedSession(sid, len), run.dealing, 1, beta) ==>
      Plausible(c.ids, sid, beta.com, run.resharings, len)
  }

  ghost predicate PackedOperands(c: Committee, sid: bytes, len: nat, run: PackedRun, alpha: Sharing, beta: Sharing) {
    && FromCommittee(c.ids, PackedSession(sid, len), run.dealing)
    && Accepted(c.ids, PackedSession(sid, len), run.dealing)
    && Established(c.ids, PackedSession(sid, len), run.dealing, 0, alpha)
    && Established(c.ids, PackedSession(sid, len), run.dealing, 1, beta)
  }

  /** The session passes: its operands are established and every re-sharing is accepted. */
  ghost predicate PackedPasses(c: Committee, bPack: nat, sid: bytes, len: nat, run: PackedRun, alpha: Sharing,
                               beta: Sharing) {
    && PackedOperands(c, sid, len, run, alpha, beta)
    && PackedDealersOk(sid, c.ids, bPack, alpha.com, beta.com, run.resharings, |c.ids|)
  }

  /** Everybody outside `bad` follows the packed protocol: its re-sharing is a constant pack. */
  ghost predicate PackedRunBehaved(c: Committee, bPack: nat, sid: bytes, len: nat, run: PackedRun, bad: set<nat>) {
    && Behaved(c.ids, PackedSession(sid, len), run.dealing, bad)
    && forall alpha, beta :: PackedOperands(c, sid, len, run, alpha, beta) ==>
      HonestPackedResharings(c.ids, bPack, sid, alpha.com, beta.com, run.resharings, bad)
  }

  /** The triples of one packed session: one per slot, over the same two operands. */
  ghost predicate TriplePack(ids: seq<nat>, bPack: nat, ts: seq<Triple>, len: nat) {
    && |ts| == bPack
    && forall b :: 0 <= b < bPack ==>
      SlotTriple(ids, bPack, b, ts[b], len) && ts[b].pub.ca == ts[0].pub.ca && ts[b].pub.cb == ts[0].pub.cb
  }

  /** `generate_packed_with_committee` from the first message to the triples. */
  method GeneratePackedRun(c: Committee, bPack: nat, sid: bytes, run: PackedRun,
                           ghost bad: set<nat>) returns (r: Outcome<seq<Triple>>)
    requires c.Valid()
    requires bPack >= 1 ==> PackedRunPlausible(c, sid, PackedLength(c.t, bPack), run)
    ensures r.Ok? || r.Abort? || r.InvalidParams?
    ensures bPack < 1 || |c.ids| < 2 * c.t + 2 * bPack - 3 ==> r.InvalidParams?
    ensures r.Ok? ==> bPack >= 1 && TriplePack(c.ids, bPack, r.value, PackedLength(c.t, bPack))
    ensures bPack >= 1 && |c.ids| >= 2 * c.t + 2 * bPack - 3 ==>
      var len := PackedLength(c.t, bPack);
      (r.Ok? <==> exists alpha, beta :: PackedPasses(c, bPack, sid, len, run, alpha, beta))
    ensures bPack >= 1 && |c.ids| >= 2 * c.t + 2 * bPack - 3 ==>
      PackedRunBehaved(c, bPack, sid, PackedLength(c.t, bPack), run, bad) ==>
      (r.Abort? ==> r.blamed != [] && Members(r.blamed) <= bad) && (bad == {} ==> r.Ok?)
  {
    hide Plausible;
    hide SlotTriple;
    hide Accepted;
    hide FromCommittee;
    hide Behaved;
    hide HonestPackedResharings;
    hide FirstFault;
    hide FaultyPackedDealer;
    hide PackedDealersOk;
    hide Established;
    if bPack < 1 || |c.ids| < 2 * c.t + 2 * bPack - 3 {
      return InvalidParams;
    }
    ghost var len := PackedLength(c.t, bPack);
    var z := PackedSession(sid, PackedLength(c.t, bPack));
    var dealt := JointDeal(c, z, run.dealing);
    DealingBlame(c, z, run.dealing, bad, dealt);
    if !dealt.Ok? {
      return if dealt.Abort? then Abort(dealt.blamed) else InvalidParams;
    }
    var alpha, beta := dealt.value[0], dealt.value[1];
    assert Established(c.ids, z, run.dealing, 0, alpha);
    assert Established(c.ids, z, run.dealing, 1, beta);
    EstablishedShared(c.ids, z, run.dealing, 0, alpha);
    EstablishedShared(c.ids, z, run.dealing, 1, beta);
    assert PackedOperands(c, sid, len, run, alpha, beta);
    PackedOperandsUnique(c, sid, len, run, alpha, beta);
    r := GeneratePacked(c, bPack, sid, alpha, beta, run.resharings);
    PackedResharingBlame(c.ids, bPack, sid, alpha.com, beta.com, run.resharings, len, bad, r);
    assert r.Ok? ==> PackedPasses(c, bPack, sid, len, run, alpha, beta);
  }

  lemma PackedOperandsUnique(c: Committee, sid: bytes, len: nat, run: PackedRun, alpha: Sharing, beta: Sharing)
    requires PackedOperands(c, sid, len, run, alpha, beta)
    ensures forall a, b :: PackedOperands(c, sid, len, run, a, b) ==> a.com == alpha.com && b.com == beta.com
  {
    hide Accepted;
    hide FromCommittee;
    hide Shared;
    hide JointCom;
  }
}
