/** Batched triple generation (src/protocol/triples.rs): many triples in one session, each prover's
    product proofs checked in aggregate first and one by one only when that fails. */
module TriplesBatch {
  import opened Field
  import opened Polynomials
  import opened Lagrange
  import opened Shamir
  import opened Vss
  import opened Outcomes
  import opened Committees
  import opened IdLists
  import opened Bytes
  import opened Dkg
  import opened Triples
  import Dleq

  const DLEQ_BATCH_RHO: bytes := Ascii("OHM-ECDSA/v0.1/dleq-batch-rho")

  /** Dealer k's statements: one per batch index. */
  ghost function Statements(j: nat, cbs: seq<Poly>, row: seq<Resharing>): (r: seq<Dleq.Statement>)
    requires |cbs| == |row|
    ensures |r| == |row| && forall b :: 0 <= b < |r| ==> r[b] == ProductStatement(row[b].x1, At(cbs[b], j), row[b].x2)
  {
    seq(|row|, b requires 0 <= b < |row| => ProductStatement(row[b].x1, At(cbs[b], j), row[b].x2))
  }

  function Proofs(row: seq<Resharing>): (r: seq<Dleq.Proof>)
    ensures |r| == |row| && forall b :: 0 <= b < |r| ==> r[b] == row[b].proof
  {
    seq(|row|, b requires 0 <= b < |row| => row[b].proof)
  }

  /** The aggregate check on dealer j's proofs. */
  ghost predicate Aggregate(sid: bytes, j: nat, cbs: seq<Poly>, row: seq<Resharing>)
    requires |cbs| == |row|
  {
    Dleq.BatchAccepts(sid, TRIPLE_PRODUCT, DLEQ_BATCH_RHO, j, Statements(j, cbs, row), Proofs(row))
  }

  ghost predicate Single(sid: bytes, j: nat, cb: Poly, m: Resharing) {
    Dleq.Verify(sid, TRIPLE_PRODUCT, ProductStatement(m.x1, At(cb, j), m.x2), m.proof)
  }

  /** Everything the loop requires of one batch index. */
  ghost predicate IndexOk(sid: bytes, ids: seq<nat>, j: nat, ca: Poly, cb: Poly, aggregate: bool, m: Resharing)
    requires |m.shares| == |ids|
  {
    m.com != [] && m.x1 == At(ca, j) && m.x2 == m.com[0] && (aggregate || Single(sid, j, cb, m)) && SharesOk(ids, m)
  }

  ghost predicate RowShaped(ids: seq<nat>, row: seq<Resharing>, count: nat, len: nat) {
    |row| == count && forall b :: 0 <= b < count ==> |row[b].com| == len && |row[b].shares| == |ids|
  }

  ghost predicate BatchDealerOk(sid: bytes, ids: seq<nat>, j: nat, cas: seq<Poly>, cbs: seq<Poly>, row: seq<Resharing>)
    requires |cas| == |cbs| == |row| && forall b :: 0 <= b < |row| ==> |row[b].shares| == |ids|
  {
    forall b :: 0 <= b < |row| ==> IndexOk(sid, ids, j, cas[b], cbs[b], Aggregate(sid, j, cbs, row), row[b])
  }

  /** Soundness of both ways of checking. */
  ghost predicate RowSound(sid: bytes, j: nat, cbs: seq<Poly>, row: seq<Resharing>)
    requires |cbs| == |row|
  {
    forall b :: 0 <= b < |row| && (Aggregate(sid, j, cbs, row) || Single(sid, j, cbs[b], row[b])) ==>
      row[b].x2 == Times(row[b].x1, At(cbs[b], j))
  }

  /** The fallback always blames: a dealer whose aggregate check fails does not pass. */
  lemma RejectedAggregateFails(sid: bytes, ids: seq<nat>, j: nat, cas: seq<Poly>, cbs: seq<Poly>, row: seq<Resharing>)
    requires |cas| == |cbs| == |row| && forall b :: 0 <= b < |row| ==> |row[b].shares| == |ids|
    requires !Aggregate(sid, j, cbs, row)
    ensures !BatchDealerOk(sid, ids, j, cas, cbs, row)
  {
    hide Dleq.BatchAccepts;
    hide Dleq.Verify;
    hide SharesOk;
    hide At;
    var st, pf := Statements(j, cbs, row), Proofs(row);
    Dleq.FallbackComplete(sid, TRIPLE_PRODUCT, DLEQ_BATCH_RHO, j, st, pf);
    var b :| 0 <= b < |st| && !Dleq.Verify(sid, TRIPLE_PRODUCT, st[b], pf[b]);
    assert !Single(sid, j, cbs[b], row[b]);
    assert !IndexOk(sid, ids, j, cas[b], cbs[b], Aggregate(sid, j, cbs, row), row[b]);
  }

  /** One dealer: the aggregate check, then the loop over the batch. */
  method CheckBatchDealer(sid: bytes, ids: seq<nat>, j: nat, cas: seq<Poly>, cbs: seq<Poly>, row: seq<Resharing>)
    returns (who: seq<nat>)
    requires |cas| == |cbs| == |row| && forall b :: 0 <= b < |row| ==> row[b].com != [] && |row[b].shares| == |ids|
    ensures who == (if BatchDealerOk(sid, ids, j, cas, cbs, row) then [] else [j])
  {
    hide Dleq.BatchAccepts;
    hide Dleq.Verify;
    hide SharesOk;
    hide At;
    var statements: seq<Dleq.Statement> := [];
    for b := 0 to |row|
      invariant statements == Statements(j, cbs, row)[..b]
    {
      var baseB := EvalAtPoint(cbs[b], j);
      statements := statements + [ProductStatement(row[b].x1, baseB, row[b].x2)];
    }
    assert statements == Statements(j, cbs, row);
    var aggregate := Dleq.VerifyBatch(sid, TRIPLE_PRODUCT, DLEQ_BATCH_RHO, j, statements, Proofs(row));
    for b := 0 to |row|
      invariant forall a :: 0 <= a < b ==> IndexOk(sid, ids, j, cas[a], cbs[a], aggregate, row[a])
    {
      var baseA := EvalAtPoint(cas[b], j);
      var proofOk := aggregate || Dleq.Verify(sid, TRIPLE_PRODUCT, statements[b], row[b].proof);
      if row[b].x1 != baseA || row[b].x2 != row[b].com[0] || !proofOk {
        assert !IndexOk(sid, ids, j, cas[b], cbs[b], aggregate, row[b]);
        return [j];
      }
      var bad := CheckRow(ids, j, row[b]);
      if bad != [] {
        assert !IndexOk(sid, ids, j, cas[b], cbs[b], aggregate, row[b]);
        return [j];
      }
    }
    return [];
  }

  // ---------------------------------------------------------------- the session

  /** All dealers' messages for batch index b. */
  function AtIndex(msgs: seq<seq<Resharing>>, b: nat): (r: seq<Resharing>)
    requires forall k :: 0 <= k < |msgs| ==> b < |msgs[k]|
    ensures |r| == |msgs| && forall k :: 0 <= k < |r| ==> r[k] == msgs[k][b]
  {
    seq(|msgs|, k requires 0 <= k < |msgs| => msgs[k][b])
  }

  function ComsOf(ss: seq<Sharing>): (r: seq<Poly>)
    ensures |r| == |ss| && forall b :: 0 <= b < |r| ==> r[b] == ss[b].com
  {
    seq(|ss|, b requires 0 <= b < |ss| => ss[b].com)
  }

  ghost predicate BatchInputs(c: Committee, sid: bytes, alphas: seq<Sharing>, betas: seq<Sharing>,
                              msgs: seq<seq<Resharing>>) {
    && |alphas| == |betas| && |msgs| == |c.ids|
    && (forall b :: 0 <= b < |alphas| ==> Shared(c.ids, alphas[b], c.t) && Shared(c.ids, betas[b], c.t))
    && forall k :: 0 <= k < |c.ids| ==>
      RowShaped(c.ids, msgs[k], |alphas|, c.t) && RowSound(sid, c.ids[k], ComsOf(betas), msgs[k])
  }

  ghost predicate BatchDealersOk(sid: bytes, ids: seq<nat>, cas: seq<Poly>, cbs: seq<Poly>, msgs: seq<seq<Resharing>>,
                                 n: nat) {
    n <= |ids| && n <= |msgs| && forall k :: 0 <= k < n ==> PassesBatch(sid, ids, cas, cbs, msgs, k)
  }

  ghost predicate PassesBatch(sid: bytes, ids: seq<nat>, cas: seq<Poly>, cbs: seq<Poly>, msgs: seq<seq<Resharing>>,
                              k: nat)
    requires k < |ids| && k < |msgs|
  {
    && |cas| == |cbs| == |msgs[k]| && (forall b :: 0 <= b < |msgs[k]| ==> |msgs[k][b].shares| == |ids|)
    && BatchDealerOk(sid, ids, ids[k], cas, cbs, msgs[k])
  }

  /** The abort names the first dealer that fails. */
  ghost predicate FaultyBatchDealer(sid: bytes, ids: seq<nat>, cas: seq<Poly>, cbs: seq<Poly>,
                                    msgs: seq<seq<Resharing>>, blamed: seq<nat>) {
    exists k :: 0 <= k < |ids| && k < |msgs| && FirstBatchFault(sid, ids, cas, cbs, msgs, k, blamed)
  }

  ghost predicate FirstBatchFault(sid: bytes, ids: seq<nat>, cas: seq<Poly>, cbs: seq<Poly>, msgs: seq<seq<Resharing>>,
                                  k: nat, blamed: seq<nat>)
    requires k < |ids| && k < |msgs|
  {
    blamed == [ids[k]] && BatchDealersOk(sid, ids, cas, cbs, msgs, k) && !PassesBatch(sid, ids, cas, cbs, msgs, k)
  }

  /** Each triple of the batch is the one its own commitments determine, and multiplies. */
  ghost predicate BatchTriple(c: Committee, alpha: Sharing, beta: Sharing, msgs: seq<Resharing>, t: Triple) {
    && DistinctMod(c.ids) && |msgs| == |c.ids| == |alpha.shares| == |beta.shares|
    && t == Reduced(c.ids, 0, alpha, beta, Coms(msgs)) && WellShared(c.ids, t, c.t) && Multiplicative(t.pub, 0)
  }

  /** `generate_batch_with_committee`, after the dealing session. */
  method GenerateBatch(c: Committee, sid: bytes, alphas: seq<Sharing>, betas: seq<Sharing>, msgs: seq<seq<Resharing>>)
    returns (r: Outcome<seq<Triple>>)
    requires c.Valid() && BatchInputs(c, sid, alphas, betas, msgs)
    ensures r.Ok? || r.Abort?
    ensures r.Abort? ==> FaultyBatchDealer(sid, c.ids, ComsOf(alphas), ComsOf(betas), msgs, r.blamed)
    ensures r.Ok? <==> BatchDealersOk(sid, c.ids, ComsOf(alphas), ComsOf(betas), msgs, |c.ids|)
    ensures r.Ok? ==>
      forall k :: 0 <= k < |c.ids| ==> |msgs[k]| == |betas| && Aggregate(sid, c.ids[k], ComsOf(betas), msgs[k])
    ensures r.Ok? ==> |r.value| == |alphas| && forall b :: 0 <= b < |alphas| ==>
      (forall k :: 0 <= k < |msgs| ==> b < |msgs[k]|)
      && BatchTriple(c, alphas[b], betas[b], AtIndex(msgs, b), r.value[b])
  {
    hide BatchDealerOk;
    hide Aggregate;
    hide RowSound;
    hide Shared;
    hide BatchTriple;
    var ids, cas, cbs := c.ids, ComsOf(alphas), ComsOf(betas);
    IdsDistinct(c);
    for k := 0 to |ids|
      invariant BatchDealersOk(sid, ids, cas, cbs, msgs, k)
    {
      assert RowShaped(ids, msgs[k], |alphas|, c.t);
      var who := CheckBatchDealer(sid, ids, ids[k], cas, cbs, msgs[k]);
      if who != [] {
        assert FirstBatchFault(sid, ids, cas, cbs, msgs, k, who);
        return Abort(who);
      }
      assert PassesBatch(sid, ids, cas, cbs, msgs, k);
    }
    forall k | 0 <= k < |ids|
      ensures |msgs[k]| == |betas| && Aggregate(sid, ids[k], cbs, msgs[k])
    {
      assert PassesBatch(sid, ids, cas, cbs, msgs, k);
      if !Aggregate(sid, ids[k], cbs, msgs[k]) {
        RejectedAggregateFails(sid, ids, ids[k], cas, cbs, msgs[k]);
      }
    }
    var out: seq<Triple> := [];
    for b := 0 to |alphas|
      invariant |out| == b && forall a :: 0 <= a < b ==>
        (forall k :: 0 <= k < |msgs| ==> a < |msgs[k]|) && BatchTriple(c, alphas[a], betas[a], AtIndex(msgs, a), out[a])
    {
      forall k | 0 <= k < |msgs| ensures b < |msgs[k]| { assert RowShaped(ids, msgs[k], |alphas|, c.t); }
      forall k | 0 <= k < |ids|
        ensures IndexPassed(sid, ids, alphas[b].com, betas[b].com, k, AtIndex(msgs, b)[k])
      {
        assert PassesBatch(sid, ids, cas, cbs, msgs, k);
        IndexOfBatch(sid, ids, cas, cbs, msgs[k], k, b, c.t);
      }
      var t := OneOfBatch(c, sid, alphas[b], betas[b], AtIndex(msgs, b));
      out := out + [t];
    }
    return Ok(out);
  }

  /** What the checks establish about one dealer at one index. */
  ghost predicate IndexPassed(sid: bytes, ids: seq<nat>, ca: Poly, cb: Poly, k: nat, m: Resharing) {
    && k < |ids| && |m.shares| == |ids| && SharesOk(ids, m)
    && m.com != [] && m.com[0] == Times(At(ca, ids[k]), At(cb, ids[k]))
  }

  lemma IndexOfBatch(sid: bytes, ids: seq<nat>, cas: seq<Poly>, cbs: seq<Poly>, row: seq<Resharing>, k: nat, b: nat,
                     len: nat)
    requires k < |ids| && |cas| == |cbs| == |row| && b < |row| && RowShaped(ids, row, |row|, len) && len > 0
    requires BatchDealerOk(sid, ids, ids[k], cas, cbs, row) && RowSound(sid, ids[k], cbs, row)
    ensures IndexPassed(sid, ids, cas[b], cbs[b], k, row[b])
  {
    hide Aggregate;
    hide Single;
    hide SharesOk;
    hide At;
    assert IndexOk(sid, ids, ids[k], cas[b], cbs[b], Aggregate(sid, ids[k], cbs, row), row[b]);
  }

  /** The combination for one batch index. */
  method OneOfBatch(c: Committee, sid: bytes, alpha: Sharing, beta: Sharing, msgs: seq<Resharing>) returns (t: Triple)
    requires c.Valid() && DistinctMod(c.ids) && |msgs| == |c.ids| && Shared(c.ids, alpha, c.t)
      && Shared(c.ids, beta, c.t)
    requires forall k :: 0 <= k < |c.ids| ==>
      |msgs[k].com| == c.t && IndexPassed(sid, c.ids, alpha.com, beta.com, k, msgs[k])
    ensures BatchTriple(c, alpha, beta, msgs, t)
  {
    hide Weights;
    hide Combine;
    hide At;
    hide VerifyShare;
    hide WellShared;
    hide Multiplicative;
    hide Reduced;
    var ids := c.ids;
    var lambdas := LagrangeCoeffsAt(0, ids);
    var cc: Poly := [];
    CombineNone(lambdas, Coms(msgs));
    for k := 0 to |ids|
      invariant cc == Combine(lambdas, Coms(msgs), k)
    {
      cc := Accumulate(lambdas, Coms(msgs), k, cc, msgs[k].com);
    }
    var rows := seq(|ids|, k requires 0 <= k < |ids| => msgs[k].shares);
    forall d | 0 <= d < |ids|
      ensures RowValid(ids, msgs[d].com, msgs[d].shares)
    {
      assert IndexPassed(sid, ids, alpha.com, beta.com, d, msgs[d]);
    }
    var records := Records(ids, 0, lambdas, alpha, beta, rows, Coms(msgs));
    TripleParts(ids, 0, alpha, beta, Coms(msgs));
    BatchTripleGood(c, sid, alpha, beta, msgs);
    t := Triple(TriplePublic(alpha.com, beta.com, cc), records);
  }

  lemma BatchTripleGood(c: Committee, sid: bytes, alpha: Sharing, beta: Sharing, msgs: seq<Resharing>)
    requires c.Valid() && DistinctMod(c.ids) && |msgs| == |c.ids| && Shared(c.ids, alpha, c.t)
      && Shared(c.ids, beta, c.t)
    requires forall k :: 0 <= k < |c.ids| ==>
      |msgs[k].com| == c.t && IndexPassed(sid, c.ids, alpha.com, beta.com, k, msgs[k])
    ensures WellShared(c.ids, Reduced(c.ids, 0, alpha, beta, Coms(msgs)), c.t)
    ensures Multiplicative(Reduced(c.ids, 0, alpha, beta, Coms(msgs)).pub, 0)
  {
    hide Convolve;
    hide Combine;
    hide Weights;
    hide Eval;
    hide SharesOk;
    var ids, coms := c.ids, Coms(msgs);
    ReducedWellShared(ids, 0, alpha, beta, coms, c.t);
    forall k | 0 <= k < |ids|
      ensures At(coms[k], 0) == At(Convolve(alpha.com, beta.com), ids[k])
    {
      assert IndexPassed(sid, ids, alpha.com, beta.com, k, msgs[k]);
      ProductAtParty(alpha.com, beta.com, ids[k]);
      AtZeroIs(coms[k]);
    }
    ReducedMultiplies(ids, 0, 0, alpha, beta, coms);
  }

  lemma ProductAtParty(p: Poly, q: Poly, j: int)
    requires q != []
    ensures At(Convolve(p, q), j) == Times(At(p, j), At(q, j))
  {
    hide Convolve;
    EvalConvolve(p, q, j);
    CongMul(At(p, j), Eval(p, j), At(q, j), Eval(q, j));
  }

  // ---------------------------------------------------------------- from the first message

  const DKG_BATCH_COMMIT: bytes := Ascii("OHM-ECDSA/v0.1/dkg-batch-commit")

  /** All messages of one batch session: one joint dealing of all operands. */
  datatype BatchRun = BatchRun(dealing: Dealing, resharings: seq<seq<Resharing>>)

  function BatchSession(sid: bytes, count: nat, t: nat): Session {
    Session(sid, DKG_BATCH_COMMIT, 2 * count, t)
  }

  /** The operands that the dealing establishes: first all alphas, then all betas. */
  ghost predicate BatchOperands(c: Committee, sid: bytes, count: nat, run: BatchRun, alphas: seq<Sharing>,
                                betas: seq<Sharing>) {
    && FromCommittee(c.ids, BatchSession(sid, count, c.t), run.dealing)
    && Accepted(c.ids, BatchSession(sid, count, c.t), run.dealing)
    && |alphas| == |betas| == count
    && (forall b :: 0 <= b < count ==> Established(c.ids, BatchSession(sid, count, c.t), run.dealing, b, alphas[b]))
    && forall b :: 0 <= b < count ==>
      Established(c.ids, BatchSession(sid, count, c.t), run.dealing, count + b, betas[b])
  }

  ghost predicate BatchPlausible(c: Committee, sid: bytes, count: nat, run: BatchRun) {
    && FromCommittee(c.ids, BatchSession(sid, count, c.t), run.dealing)
    && |run.resharings| == |c.ids|
    && forall alphas, betas :: BatchOperands(c, sid, count, run, alphas, betas) ==>
      forall k :: 0 <= k < |c.ids| ==>
        RowShaped(c.ids, run.resharings[k], count, c.t) && RowSound(sid, c.ids[k], ComsOf(betas), run.resharings[k])
  }

  /** An honest dealer's row: every index re-shares the product of its two shares. */
  ghost predicate HonestRow(sid: bytes, ids: seq<nat>, j: nat, cas: seq<Poly>, cbs: seq<Poly>, row: seq<Resharing>) {
    && |cas| == |cbs| == |row|
    && forall b :: 0 <= b < |row| ==> HonestResharing(ids, sid, cas[b], cbs[b], j, row[b])
  }

  ghost predicate HonestRows(sid: bytes, ids: seq<nat>, cas: seq<Poly>, cbs: seq<Poly>, msgs: seq<seq<Resharing>>,
                             bad: set<nat>) {
    |msgs| == |ids| && forall k :: 0 <= k < |ids| && ids[k] !in bad ==> HonestRow(sid, ids, ids[k], cas, cbs, msgs[k])
  }

  /** Everybody outside `bad` follows the protocol of the session. */
  ghost predicate BatchBehaved(c: Committee, sid: bytes, count: nat, run: BatchRun, bad: set<nat>) {
    && Behaved(c.ids, BatchSession(sid, count, c.t), run.dealing, bad)
    && forall alphas, betas :: BatchOperands(c, sid, count, run, alphas, betas) ==>
      HonestRows(sid, c.ids, ComsOf(alphas), ComsOf(betas), run.resharings, bad)
  }

  ghost predicate BatchPasses(c: Committee, sid: bytes, count: nat, run: BatchRun, alphas: seq<Sharing>,
                              betas: seq<Sharing>) {
    && BatchOperands(c, sid, count, run, alphas, betas)
    && BatchDealersOk(sid, c.ids, ComsOf(alphas), ComsOf(betas), run.resharings, |c.ids|)
  }

  ghost predicate GoodTriple(c: Committee, t: Triple) {
    WellShared(c.ids, t, c.t) && Multiplicative(t.pub, 0)
  }

  /** `generate_batch_with_committee` from the first message to the triples, with the same
      accountability as the other triple sessions. */
  method GenerateBatchRun(c: Committee, sid: bytes, count: nat, run: BatchRun, ghost bad: set<nat>)
    returns (r: Outcome<seq<Triple>>)
    requires c.Valid() && BatchPlausible(c, sid, count, run)
    ensures r.Ok? || r.Abort? || r.InvalidParams?
    ensures r.Ok? <==> exists alphas, betas :: BatchPasses(c, sid, count, run, alphas, betas)
    ensures r.Ok? ==> |r.value| == count && forall b :: 0 <= b < count ==> GoodTriple(c, r.value[b])
    ensures BatchBehaved(c, sid, count, run, bad) ==>
      (r.Abort? ==> r.blamed != [] && Members(r.blamed) <= bad) && (bad == {} ==> r.Ok?)
  {
    hide FromCommittee;
    hide Accepted;
    hide Behaved;
    hide FirstFault;
    hide Established;
    hide RowShaped;
    hide RowSound;
    hide HonestRows;
    hide BatchDealersOk;
    hide FaultyBatchDealer;
    hide BatchTriple;
    hide GoodTriple;
    var z := BatchSession(sid, count, c.t);
    var dealt := JointDeal(c, z, run.dealing);
    DealingBlame(c, z, run.dealing, bad, dealt);
    if !dealt.Ok? {
      return if dealt.Abort? then Abort(dealt.blamed) else InvalidParams;
    }
    var alphas, betas := dealt.value[..count], dealt.value[count..];
    forall b | 0 <= b < count
      ensures Established(c.ids, z, run.dealing, b, alphas[b]) && Shared(c.ids, alphas[b], c.t)
      ensures Established(c.ids, z, run.dealing, count + b, betas[b]) && Shared(c.ids, betas[b], c.t)
    {
      EstablishedShared(c.ids, z, run.dealing, b, alphas[b]);
      EstablishedShared(c.ids, z, run.dealing, count + b, betas[b]);
    }
    assert BatchOperands(c, sid, count, run, alphas, betas);
    BatchOperandsUnique(c, sid, count, run, alphas, betas);
    r := GenerateBatch(c, sid, alphas, betas, run.resharings);
    BatchBlame(sid, c.ids, ComsOf(alphas), ComsOf(betas), run.resharings, bad, r);
    if r.Ok? {
      assert BatchPasses(c, sid, count, run, alphas, betas);
      forall b | 0 <= b < count
        ensures GoodTriple(c, r.value[b])
      {
        BatchTripleIsGood(c, alphas[b], betas[b], AtIndex(run.resharings, b), r.value[b]);
      }
    }
  }

  lemma BatchTripleIsGood(c: Committee, alpha: Sharing, beta: Sharing, msgs: seq<Resharing>, t: Triple)
    requires BatchTriple(c, alpha, beta, msgs, t)
    ensures GoodTriple(c, t)
  {
    hide WellShared;
    hide Multiplicative;
    hide Reduced;
  }

  lemma BatchOperandsUnique(c: Committee, sid: bytes, count: nat, run: BatchRun, alphas: seq<Sharing>,
                            betas: seq<Sharing>)
    requires BatchOperands(c, sid, count, run, alphas, betas)
    ensures forall a, b :: BatchOperands(c, sid, count, run, a, b) ==>
      ComsOf(a) == ComsOf(alphas) && ComsOf(b) == ComsOf(betas)
  {
    hide Accepted;
    hide FromCommittee;
    hide Shared;
    hide JointCom;
    forall a: seq<Sharing>, b: seq<Sharing> | BatchOperands(c, sid, count, run, a, b)
      ensures ComsOf(a) == ComsOf(alphas) && ComsOf(b) == ComsOf(betas)
    {
      forall i | 0 <= i < count
        ensures a[i].com == alphas[i].com && b[i].com == betas[i].com
      {
        var z := BatchSession(sid, count, c.t);
        assert Established(c.ids, z, run.dealing, i, a[i]) && Established(c.ids, z, run.dealing, i, alphas[i]);
        assert Established(c.ids, z, run.dealing, count + i, b[i])
            && Established(c.ids, z, run.dealing, count + i, betas[i]);
      }
    }
  }

  /** A failed batch names a misbehaving dealer; without any it does not fail. */
  lemma BatchBlame<T>(sid: bytes, ids: seq<nat>, cas: seq<Poly>, cbs: seq<Poly>, msgs: seq<seq<Resharing>>,
                      bad: set<nat>,
                      r: Outcome<T>)
    requires forall b :: 0 <= b < |cbs| ==> cbs[b] != []
    requires r.Ok? <==> BatchDealersOk(sid, ids, cas, cbs, msgs, |ids|)
    requires r.Abort? ==> FaultyBatchDealer(sid, ids, cas, cbs, msgs, r.blamed)
    ensures HonestRows(sid, ids, cas, cbs, msgs, bad) ==>
      (r.Abort? ==> r.blamed != [] && Members(r.blamed) <= bad) && (bad == {} ==> r.Ok?)
  {
    hide HonestRow;
    hide PassesBatch;
    if HonestRows(sid, ids, cas, cbs, msgs, bad) {
      forall k | 0 <= k < |ids| && ids[k] !in bad
        ensures PassesBatch(sid, ids, cas, cbs, msgs, k)
      {
        HonestRowPasses(sid, ids, cas, cbs, msgs, k);
      }
    }
  }

  lemma HonestRowPasses(sid: bytes, ids: seq<nat>, cas: seq<Poly>, cbs: seq<Poly>, msgs: seq<seq<Resharing>>, k: nat)
    requires k < |ids| && k < |msgs| && HonestRow(sid, ids, ids[k], cas, cbs, msgs[k])
    requires forall b :: 0 <= b < |cbs| ==> cbs[b] != []
    ensures PassesBatch(sid, ids, cas, cbs, msgs, k)
  {
    hide Aggregate;
    hide SharesOk;
    hide Dleq.Verify;
    hide HonestResharing;
    hide At;
    forall b | 0 <= b < |msgs[k]|
      ensures |msgs[k][b].shares| == |ids|
      ensures ProofOk(sid, cas[b], cbs[b], ids[k], msgs[k][b]) && SharesOk(ids, msgs[k][b])
    {
      HonestRowIndex(sid, ids, ids[k], cas, cbs, msgs[k], b);
      HonestResharingOk(ids, sid, cas[b], cbs[b], k, msgs[k][b]);
    }
  }

  lemma HonestRowIndex(sid: bytes, ids: seq<nat>, j: nat, cas: seq<Poly>, cbs: seq<Poly>, row: seq<Resharing>, b: nat)
    requires HonestRow(sid, ids, j, cas, cbs, row) && b < |row|
    ensures HonestResharing(ids, sid, cas[b], cbs[b], j, row[b]) && |row[b].shares| == |ids|
  {
  }
}
