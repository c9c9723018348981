/** Chaum-Pedersen proofs that log_g1(x1) == log_g2(x2) (src/primitives/dleq.rs), and their
    aggregate verification.  Points, the two bases included, are discrete logarithms. */
module Dleq {
  import opened Field
  import opened Bytes

  datatype Statement = Statement(g1: Scalar, x1: Scalar, g2: Scalar, x2: Scalar)

  datatype Proof = Proof(t1: Scalar, t2: Scalar, z: Scalar)

  /** `scalar_from_digest`: a big-endian digest, reduced. */
  function FromDigest(d: bytes): Scalar {
    Red(FromBigEndian(d))
  }

  /** What the challenge is a hash of. */
  function Transcript(sid: bytes, tag: bytes, s: Statement, t1: Scalar, t2: Scalar): bytes {
    tag + sid + Points([s.g1, s.x1, s.g2, s.x2, t1, t2])
  }

  function Challenge(sid: bytes, tag: bytes, s: Statement, t1: Scalar, t2: Scalar): Scalar
  {
    FromDigest(HASH(Transcript(sid, tag, s, t1, t2)))
  }

  /** The challenge is the digest modulo q, and the hashed text determines the session, the
      statement and the commitment: the challenge binds them all. */
  lemma TranscriptBinds(sid: bytes, tag: bytes, s: Statement, t1: Scalar, t2: Scalar,
                        sid': bytes, tag': bytes, s': Statement, t1': Scalar, t2': Scalar)
    requires |sid| == |sid'| && |tag| == |tag'|
    requires HASH(Transcript(sid, tag, s, t1, t2)) == HASH(Transcript(sid', tag', s', t1', t2'))
    ensures sid == sid' && tag == tag' && s == s' && t1 == t1' && t2 == t2'
    ensures Cong(Challenge(sid, tag, s, t1, t2), FromBigEndian(HASH(Transcript(sid, tag, s, t1, t2))))
  {
    hide Points;
    var ps, qs := [s.g1, s.x1, s.g2, s.x2, t1, t2], [s'.g1, s'.x1, s'.g2, s'.x2, t1', t2'];
    SameParts(tag, sid, Points(ps), tag', sid', Points(qs));
    assert Points(ps) + [] == Points(qs) + [];
    PointsInjective(ps, qs, [], []);
    assert ps[0] == qs[0] && ps[1] == qs[1] && ps[2] == qs[2] && ps[3] == qs[3] && ps[4] == qs[4] && ps[5] == qs[5];
  }

  lemma SameParts(a: bytes, b: bytes, c: bytes, a': bytes, b': bytes, c': bytes)
    requires |a| == |a'| && |b| == |b'| && a + b + c == a' + b' + c'
    ensures a == a' && b == b' && c == c'
  {
    var s, s', n := a + b + c, a' + b' + c', |a| + |b|;
    assert a == s[..|a|] == s'[..|a|] == a';
    assert b == s[|a|..n] == s'[|a|..n] == b';
    assert c == s[n..] == s'[n..] == c';
  }

  /** One verification equation: z * g == t + c * x. */
  predicate Holds(g: Scalar, x: Scalar, t: Scalar, c: Scalar, z: Scalar) {
    Times(g, z) == Plus(t, Times(x, c))
  }

  /** The proof is accepted under challenge c. */
  predicate Accepts(s: Statement, p: Proof, c: Scalar) {
    Holds(s.g1, s.x1, p.t1, c, p.z) && Holds(s.g2, s.x2, p.t2, c, p.z)
  }

  predicate Verify(sid: bytes, tag: bytes, s: Statement, p: Proof) {
    Accepts(s, p, Challenge(sid, tag, s, p.t1, p.t2))
  }

  /** The sampled commitment exponent is the parameter w. */
  function Prove(sid: bytes, tag: bytes, x: Scalar, g1: Scalar, g2: Scalar, w: Scalar): (Statement, Proof) {
    var s := Statement(g1, Times(g1, x), g2, Times(g2, x));
    var t1, t2 := Times(g1, w), Times(g2, w);
    (s, Proof(t1, t2, Plus(w, Times(Challenge(sid, tag, s, t1, t2), x))))
  }

  /** Honest proofs verify. */
  lemma Completeness(sid: bytes, tag: bytes, x: Scalar, g1: Scalar, g2: Scalar, w: Scalar)
    ensures var (s, p) := Prove(sid, tag, x, g1, g2, w); Verify(sid, tag, s, p)
  {
    hide Challenge;
    var (s, p) := Prove(sid, tag, x, g1, g2, w);
    var c := Challenge(sid, tag, s, p.t1, p.t2);
    HonestEquation(g1, x, w, c);
    HonestEquation(g2, x, w, c);
  }

  lemma HonestEquation(g: Scalar, x: Scalar, w: Scalar, c: Scalar)
    ensures Holds(g, Times(g, x), Times(g, w), c, Plus(w, Times(c, x)))
  {
    var z, cx := Plus(w, Times(c, x)), Mul(c, x);
    // g * z == g * (w + c * x) == g * w + (g * x) * c
    CongAdd(w, w, Times(c, x), cx);
    CongScale(g, z, w + cx);
    Distribute(g, w, cx);
    Regroup(g, x, c);
    CongScale(c, Times(g, x), Mul(g, x));
    CongAdd(Times(g, w), Mul(g, w), Times(Times(g, x), c), Mul(c, Mul(g, x)));
  }

  // ---------------------------------------------------------------- soundness

  /** The proved relation: one exponent takes both bases to both points. */
  ghost predicate SameLog(s: Statement, x: Scalar) {
    s.x1 == Times(s.g1, x) && s.x2 == Times(s.g2, x)
  }

  /** The exponent that two answers to different challenges reveal. */
  function Extract(c: Scalar, z: Scalar, d: Scalar, y: Scalar): Scalar
    requires c != d
  {
    DifferenceNonzero(c, d);
    Times(Minus(z, y), Inv(Minus(c, d)))
  }

  lemma DifferenceNonzero(c: Scalar, d: Scalar)
    requires c != d
    ensures Minus(c, d) != 0
  {
    if Minus(c, d) == 0 {
      CongFromDifference(c, d);
    }
  }

  lemma ExtractedEquation(g: Scalar, x: Scalar, t: Scalar, c: Scalar, z: Scalar, d: Scalar, y: Scalar)
    requires c != d && Holds(g, x, t, c, z) && Holds(g, x, t, d, y)
    ensures x == Times(g, Extract(c, z, d, y))
  {
    hide Red;
    hide Inv;
    DifferenceNonzero(c, d);
    var i := Inv(Minus(c, d));
    RedScalar(x);
    Differences(g, x, t, c, z, d, y);
    // g * ((z - y) * i) == (x * (c - d)) * i == x * ((c - d) * i) == x
    TimesCong(Minus(z, y), i);
    CongScale(g, Times(Minus(z, y), i), Mul(Minus(z, y), i));
    Regroup(g, Minus(z, y), i);
    CongScale(i, Mul(g, Minus(z, y)), Mul(x, Minus(c, d)));
    Regroup(x, Minus(c, d), i);
    InvIs(Minus(c, d));
    CongScale(x, Mul(Minus(c, d), i), 1);
  }

  /** g * (z - y) == x * (c - d). */
  lemma Differences(g: Scalar, x: Scalar, t: Scalar, c: Scalar, z: Scalar, d: Scalar, y: Scalar)
    requires Holds(g, x, t, c, z) && Holds(g, x, t, d, y)
    ensures Cong(Mul(g, Minus(z, y)), Mul(x, Minus(c, d)))
  {
    EquationSum(g, x, t, c, z);
    EquationSum(g, x, t, d, y);
    CongSub(Mul(g, z), t + Mul(x, c), Mul(g, y), t + Mul(x, d));
    DistributeMinus(g, z, y);
    DistributeMinus(x, c, d);
    CongScale(g, Minus(z, y), z - y);
    CongScale(x, Minus(c, d), c - d);
  }

  lemma EquationSum(g: Scalar, x: Scalar, t: Scalar, c: Scalar, z: Scalar)
    ensures Holds(g, x, t, c, z) <==> Cong(Mul(g, z), t + Mul(x, c))
  {
    TimesCong(x, c);
    CongAdd(t, t, Times(x, c), Mul(x, c));
  }

  /** Special soundness: two accepted answers to different challenges for one commitment prove
      the relation, with the witness in hand. */
  lemma SpecialSoundness(s: Statement, t1: Scalar, t2: Scalar, c: Scalar, z: Scalar, d: Scalar, y: Scalar)
    requires c != d && Accepts(s, Proof(t1, t2, z), c) && Accepts(s, Proof(t1, t2, y), d)
    ensures SameLog(s, Extract(c, z, d, y))
  {
    hide Holds;
    ExtractedEquation(s.g1, s.x1, t1, c, z, d, y);
    ExtractedEquation(s.g2, s.x2, t2, c, z, d, y);
  }

  /** A false statement can be answered for at most one challenge per commitment. */
  lemma FalseStatement(s: Statement, t1: Scalar, t2: Scalar, c: Scalar, z: Scalar, d: Scalar, y: Scalar)
    requires forall x: Scalar :: !SameLog(s, x)
    requires Accepts(s, Proof(t1, t2, z), c) && Accepts(s, Proof(t1, t2, y), d)
    ensures c == d
  {
    hide Holds;
    if c != d {
      SpecialSoundness(s, t1, t2, c, z, d, y);
    }
  }

  /** For the triple product proof (g1 the generator): the relation is x2 == x1 * g2. */
  lemma ProductRelation(s: Statement, x: Scalar)
    requires s.g1 == 1 && SameLog(s, x)
    ensures s.x2 == Times(s.x1, s.g2)
  {
    RedScalar(x);
  }

  // ---------------------------------------------------------------- aggregate verification

  /** Field elements of the batch transcript. */
  function BatchTranscript(st: seq<Statement>, pf: seq<Proof>): bytes
    requires |st| == |pf|
  {
    if st == [] then []
    else
      Points([st[0].g1, st[0].x1, st[0].g2, st[0].x2, pf[0].t1, pf[0].t2]) + BigEndian(pf[0].z, 32)
      + BatchTranscript(st[1..], pf[1..])
  }

  /** What the combination weight of proof b is a hash of. */
  function RhoTranscript(sid: bytes, rhoTag: bytes, prover: nat, st: seq<Statement>, pf: seq<Proof>, b: nat): bytes
    requires |st| == |pf|
  {
    rhoTag + sid + (BigEndian(prover, 8) + (BatchTranscript(st, pf) + BigEndian(b, 8)))
  }

  /** The combination weight of proof b. */
  function Rho(sid: bytes, rhoTag: bytes, prover: nat, st: seq<Statement>, pf: seq<Proof>, b: nat): Scalar
    requires |st| == |pf|
  {
    FromDigest(HASH(RhoTranscript(sid, rhoTag, prover, st, pf, b)))
  }

  /** Equally many statements and proofs with the same bytes are the same. */
  lemma {:induction false} BatchBinds(st: seq<Statement>, pf: seq<Proof>, st': seq<Statement>, pf': seq<Proof>,
                                      a: bytes, a': bytes)
    requires |st| == |pf| == |st'| == |pf'| && BatchTranscript(st, pf) + a == BatchTranscript(st', pf') + a'
    ensures st == st' && pf == pf' && a == a'
    decreases |st|
  {
    hide Points;
    if st == [] {
      assert BatchTranscript(st, pf) + a == a && BatchTranscript(st', pf') + a' == a';
    } else {
      var s, p, s', p' := st[0], pf[0], st'[0], pf'[0];
      var ps, qs := [s.g1, s.x1, s.g2, s.x2, p.t1, p.t2], [s'.g1, s'.x1, s'.g2, s'.x2, p'.t1, p'.t2];
      var more, more' := BatchTranscript(st[1..], pf[1..]) + a, BatchTranscript(st'[1..], pf'[1..]) + a';
      var z, z' := BigEndian(p.z, 32), BigEndian(p'.z, 32);
      assert BatchTranscript(st, pf) + a == Points(ps) + (z + more);
      assert BatchTranscript(st', pf') + a' == Points(qs) + (z' + more');
      PointsInjective(ps, qs, z + more, z' + more');
      SameParts([], z, more, [], z', more') by { assert [] + z + more == z + more && [] + z' + more' == z' + more'; }
      SameAnswer(p.z, p'.z);
      BatchBinds(st[1..], pf[1..], st'[1..], pf'[1..], a, a');
      assert ps[0] == qs[0] && ps[1] == qs[1] && ps[2] == qs[2] && ps[3] == qs[3] && ps[4] == qs[4] && ps[5] == qs[5];
      assert st == [s] + st[1..] && st' == [s'] + st'[1..] && pf == [p] + pf[1..] && pf' == [p'] + pf'[1..];
    }
  }

  lemma SameAnswer(z: Scalar, z': Scalar)
    requires BigEndian(z, 32) == BigEndian(z', 32)
    ensures z == z'
  {
    ScalarFits(z);
    ScalarFits(z');
    BigEndianInjective(z, z', 32);
  }

  /** A weight is the digest modulo q of a text that determines the session, the prover, the whole
      batch and the index. */
  lemma RhoBinds(sid: bytes, tag: bytes, i: nat, st: seq<Statement>, pf: seq<Proof>, b: nat,
                 sid': bytes, tag': bytes, j: nat, st': seq<Statement>, pf': seq<Proof>, d: nat)
    requires |st| == |pf| == |st'| == |pf'| && |sid| == |sid'| && |tag| == |tag'|
    requires i < Pow256(8) && j < Pow256(8) && b < Pow256(8) && d < Pow256(8)
    requires HASH(RhoTranscript(sid, tag, i, st, pf, b)) == HASH(RhoTranscript(sid', tag', j, st', pf', d))
    ensures sid == sid' && tag == tag' && i == j && st == st' && pf == pf' && b == d
    ensures Cong(Rho(sid, tag, i, st, pf, b), FromBigEndian(HASH(RhoTranscript(sid, tag, i, st, pf, b))))
  {
    hide BatchTranscript;
    hide BigEndian;
    var x, x' := BatchTranscript(st, pf) + BigEndian(b, 8), BatchTranscript(st', pf') + BigEndian(d, 8);
    SameParts(tag, sid, BigEndian(i, 8) + x, tag', sid', BigEndian(j, 8) + x');
    var y, y' := BigEndian(i, 8), BigEndian(j, 8);
    assert y == (y + x)[..8] == (y' + x')[..8] == y';
    assert x == (y + x)[8..] == (y' + x')[8..] == x';
    BigEndianInjective(i, j, 8);
    BatchBinds(st, pf, st', pf', BigEndian(b, 8), BigEndian(d, 8));
    BigEndianInjective(b, d, 8);
  }

  /** A multi-scalar multiplication. */
  ghost function LinComb(terms: seq<(Scalar, Scalar)>): int {
    if terms == [] then 0
    else LinComb(terms[..|terms| - 1]) + Mul(terms[|terms| - 1].0, terms[|terms| - 1].1)
  }

  /** `lincomb_ext`. */
  method Msm(terms: seq<(Scalar, Scalar)>) returns (r: Scalar)
    ensures r == Red(LinComb(terms))
  {
    r := 0;
    for i := 0 to |terms|
      invariant r == Red(LinComb(terms[..i]))
    {
      assert terms[..i + 1][..i] == terms[..i];
      var a, b := terms[i].0, terms[i].1;
      TimesCong(a, b);
      CongAdd(r, LinComb(terms[..i]), Times(a, b), Mul(a, b));
      r := Plus(r, Times(a, b));
    }
    assert terms[..|terms|] == terms;
  }

  /** How far a verification equation is from holding. */
  function Miss(g: Scalar, x: Scalar, t: Scalar, c: Scalar, z: Scalar): Scalar {
    Red(Mul(g, z) - t - Mul(x, c))
  }

  lemma MissZero(g: Scalar, x: Scalar, t: Scalar, c: Scalar, z: Scalar)
    ensures Holds(g, x, t, c, z) <==> Miss(g, x, t, c, z) == 0
  {
    EquationSum(g, x, t, c, z);
    if Cong(Mul(g, z), t + Mul(x, c)) {
      CongSub(Mul(g, z), t + Mul(x, c), t + Mul(x, c), t + Mul(x, c));
    }
    if Miss(g, x, t, c, z) == 0 {
      CongFromDifference(Mul(g, z), t + Mul(x, c));
    }
  }

  /** sum over the first n proofs of rho_b * miss_b. */
  ghost function Weighted(rhos: seq<Scalar>, misses: seq<Scalar>, n: nat): int
    requires n <= |rhos| && n <= |misses|
  {
    if n == 0 then 0 else Weighted(rhos, misses, n - 1) + Mul(rhos[n - 1], misses[n - 1])
  }

  ghost function Rhos(sid: bytes, rhoTag: bytes, prover: nat, st: seq<Statement>, pf: seq<Proof>): (r: seq<Scalar>)
    requires |st| == |pf|
    ensures |r| == |st|
  {
    seq(|st|, b requires 0 <= b < |st| => Rho(sid, rhoTag, prover, st, pf, b))
  }

  ghost function Misses1(sid: bytes, tag: bytes, st: seq<Statement>, pf: seq<Proof>): (r: seq<Scalar>)
    requires |st| == |pf|
    ensures |r| == |st|
  {
    seq(|st|, b requires 0 <= b < |st| =>
      Miss(st[b].g1, st[b].x1, pf[b].t1, Challenge(sid, tag, st[b], pf[b].t1, pf[b].t2), pf[b].z))
  }

  ghost function Misses2(sid: bytes, tag: bytes, st: seq<Statement>, pf: seq<Proof>): (r: seq<Scalar>)
    requires |st| == |pf|
    ensures |r| == |st|
  {
    seq(|st|, b requires 0 <= b < |st| =>
      Miss(st[b].g2, st[b].x2, pf[b].t2, Challenge(sid, tag, st[b], pf[b].t1, pf[b].t2), pf[b].z))
  }

  /** What aggregate verification decides: both weighted sums of misses vanish. */
  ghost predicate BatchAccepts(sid: bytes, tag: bytes, rhoTag: bytes, prover: nat, st: seq<Statement>, pf: seq<Proof>) {
    && |st| == |pf|
    && Cong(Weighted(Rhos(sid, rhoTag, prover, st, pf), Misses1(sid, tag, st, pf), |st|), 0)
    && Cong(Weighted(Rhos(sid, rhoTag, prover, st, pf), Misses2(sid, tag, st, pf), |st|), 0)
  }

  /** The three terms one proof contributes to one equation: rho * (z * g - t - c * x). */
  function ThreeOf(g: Scalar, x: Scalar, t: Scalar, c: Scalar, z: Scalar, rho: Scalar): seq<(Scalar, Scalar)> {
    [(g, Times(rho, z)), (t, Minus(0, rho)), (x, Times(Minus(0, rho), c))]
  }

  lemma ThreeTerms(before: seq<(Scalar, Scalar)>, sum: int, g: Scalar, x: Scalar, t: Scalar, c: Scalar, z: Scalar,
                   rho: Scalar)
    requires Cong(LinComb(before), sum)
    ensures Cong(LinComb(before + ThreeOf(g, x, t, c, z, rho)), sum + Mul(rho, Miss(g, x, t, c, z)))
  {
    hide Red;
    var a, b, d := Times(rho, z), Minus(0, rho), Times(Minus(0, rho), c);
    LinCombThree(before, (g, a), (t, b), (x, d));
    MissedTerms(LinComb(before), sum, g, x, t, c, z, rho);
  }

  lemma LinCombThree(before: seq<(Scalar, Scalar)>, p: (Scalar, Scalar), q: (Scalar, Scalar), r: (Scalar, Scalar))
    ensures LinComb(before + [p, q, r]) == LinComb(before) + Mul(p.0, p.1) + Mul(q.0, q.1) + Mul(r.0, r.1)
  {
    LinCombOne(before, p);
    LinCombOne(before + [p], q);
    LinCombOne(before + [p] + [q], r);
    assert before + [p, q, r] == before + [p] + [q] + [r];
  }

  lemma LinCombEmpty()
    ensures LinComb([]) == 0
  {
  }

  lemma LinCombOne(before: seq<(Scalar, Scalar)>, p: (Scalar, Scalar))
    ensures LinComb(before + [p]) == LinComb(before) + Mul(p.0, p.1)
  {
    assert (before + [p])[..|before|] == before;
  }

  lemma MissedTerms(l: int, sum: int, g: Scalar, x: Scalar, t: Scalar, c: Scalar, z: Scalar, rho: Scalar)
    requires Cong(l, sum)
    ensures Cong(l + Mul(g, Times(rho, z)) + Mul(t, Minus(0, rho)) + Mul(x, Times(Minus(0, rho), c)),
                 sum + Mul(rho, Miss(g, x, t, c, z)))
  {
    hide Red;
    TimesCong(rho, z);
    CongScale(g, Times(rho, z), Mul(rho, z));
    Regroup(g, rho, z);
    NegatedTerm(t, rho);
    NegatedProduct(x, rho, c);
    CongAdd(l, sum, Mul(g, Times(rho, z)), Mul(rho, Mul(g, z)));
    CongAdd(l + Mul(g, Times(rho, z)), sum + Mul(rho, Mul(g, z)), Mul(t, Minus(0, rho)), 0 - Mul(rho, t));
    CongAdd(l + Mul(g, Times(rho, z)) + Mul(t, Minus(0, rho)), sum + Mul(rho, Mul(g, z)) - Mul(rho, t),
            Mul(x, Times(Minus(0, rho), c)), 0 - Mul(rho, Mul(x, c)));
    MissIs(g, x, t, c, z);
    CongScale(rho, Miss(g, x, t, c, z), Mul(g, z) - t - Mul(x, c));
    DistributeMinus(rho, Mul(g, z) - t, Mul(x, c));
    DistributeMinus(rho, Mul(g, z), t);
    CongAdd(sum, sum, Mul(rho, Miss(g, x, t, c, z)), Mul(rho, Mul(g, z) - t - Mul(x, c)));
  }

  lemma MissIs(g: Scalar, x: Scalar, t: Scalar, c: Scalar, z: Scalar)
    ensures Cong(Miss(g, x, t, c, z), Mul(g, z) - t - Mul(x, c))
  {
  }

  lemma NegatedTerm(t: int, rho: int)
    ensures Cong(Mul(t, Minus(0, rho)), 0 - Mul(rho, t))
  {
    CongScale(t, Minus(0, rho), 0 - rho);
    DistributeMinus(t, 0, rho);
  }

  lemma NegatedProduct(x: int, rho: int, c: int)
    ensures Cong(Mul(x, Times(Minus(0, rho), c)), 0 - Mul(rho, Mul(x, c)))
  {
    CongScale(x, Times(Minus(0, rho), c), Mul(Minus(0, rho), c));
    Regroup(x, Minus(0, rho), c);
    Regroup(Minus(0, rho), x, c);
    NegatedTerm(Mul(x, c), rho);
  }

  /** `verify_batch`: two multi-scalar multiplications. */
  method VerifyBatch(sid: bytes, tag: bytes, rhoTag: bytes, prover: nat, st: seq<Statement>,
                     pf: seq<Proof>) returns (ok: bool)
    ensures ok == BatchAccepts(sid, tag, rhoTag, prover, st, pf)
  {
    hide Red;
    hide Miss;
    hide Challenge;
    hide Rho;
    hide LinComb;
    hide ThreeOf;
    if |st| != |pf| {
      return false;
    }
    var eq1: seq<(Scalar, Scalar)>, eq2: seq<(Scalar, Scalar)> := [], [];
    ghost var rhos, m1, m2 := Rhos(sid, rhoTag, prover, st, pf), Misses1(sid, tag, st, pf), Misses2(sid, tag, st, pf);
    LinCombEmpty();
    for b := 0 to |st|
      invariant Cong(LinComb(eq1), Weighted(rhos, m1, b)) && Cong(LinComb(eq2), Weighted(rhos, m2, b))
    {
      var s, p := st[b], pf[b];
      var c, rho := Challenge(sid, tag, s, p.t1, p.t2), Rho(sid, rhoTag, prover, st, pf, b);
      ThreeTerms(eq1, Weighted(rhos, m1, b), s.g1, s.x1, p.t1, c, p.z, rho);
      ThreeTerms(eq2, Weighted(rhos, m2, b), s.g2, s.x2, p.t2, c, p.z, rho);
      eq1 := eq1 + ThreeOf(s.g1, s.x1, p.t1, c, p.z, rho);
      eq2 := eq2 + ThreeOf(s.g2, s.x2, p.t2, c, p.z, rho);
    }
    var l1 := Msm(eq1);
    var l2 := Msm(eq2);
    RedScalar(0);
    ok := l1 == 0 && l2 == 0;
  }

  /** Every proof verifies by itself. */
  ghost predicate AllVerify(sid: bytes, tag: bytes, st: seq<Statement>, pf: seq<Proof>)
    requires |st| == |pf|
  {
    forall b :: 0 <= b < |st| ==> Verify(sid, tag, st[b], pf[b])
  }

  lemma {:induction false} WeightedZero(rhos: seq<Scalar>, misses: seq<Scalar>, n: nat)
    requires n <= |rhos| && n <= |misses| && forall b :: 0 <= b < n ==> misses[b] == 0
    ensures Weighted(rhos, misses, n) == 0
  {
    if n > 0 {
      WeightedZero(rhos, misses, n - 1);
    }
  }

  lemma VerifyMeansNoMiss(sid: bytes, tag: bytes, st: seq<Statement>, pf: seq<Proof>, b: nat)
    requires |st| == |pf| && b < |st|
    ensures Verify(sid, tag, st[b], pf[b]) <==> Misses1(sid, tag, st, pf)[b] == 0 && Misses2(sid, tag, st, pf)[b] == 0
  {
    hide Challenge;
    var c := Challenge(sid, tag, st[b], pf[b].t1, pf[b].t2);
    MissZero(st[b].g1, st[b].x1, pf[b].t1, c, pf[b].z);
    MissZero(st[b].g2, st[b].x2, pf[b].t2, c, pf[b].z);
  }

  /** The fallback is complete: when the aggregate rejects a batch of equal lengths, some proof
      fails by itself, so re-checking one by one always finds someone to blame. */
  lemma FallbackComplete(sid: bytes, tag: bytes, rhoTag: bytes, prover: nat, st: seq<Statement>, pf: seq<Proof>)
    requires |st| == |pf| && !BatchAccepts(sid, tag, rhoTag, prover, st, pf)
    ensures exists b :: 0 <= b < |st| && !Verify(sid, tag, st[b], pf[b])
  {
    hide Verify;
    hide Misses1;
    hide Misses2;
    hide Rhos;
    if AllVerify(sid, tag, st, pf) {
      forall b | 0 <= b < |st|
        ensures Misses1(sid, tag, st, pf)[b] == 0 && Misses2(sid, tag, st, pf)[b] == 0
      {
        VerifyMeansNoMiss(sid, tag, st, pf, b);
      }
      WeightedZero(Rhos(sid, rhoTag, prover, st, pf), Misses1(sid, tag, st, pf), |st|);
      WeightedZero(Rhos(sid, rhoTag, prover, st, pf), Misses2(sid, tag, st, pf), |st|);
    }
  }

  lemma {:induction false} WeightedOne(rhos: seq<Scalar>, misses: seq<Scalar>, n: nat, k: nat)
    requires n <= |rhos| && n <= |misses| && k < |misses| && k < |rhos|
    requires forall b :: 0 <= b < n && b != k ==> misses[b] == 0
    ensures Weighted(rhos, misses, n) == if k < n then Mul(rhos[k], misses[k]) else 0
  {
    if n > 0 {
      WeightedOne(rhos, misses, n - 1, k);
    }
  }

  /** A single bad proof is always caught, unless its weight is zero. */
  lemma SingleBadProofCaught(sid: bytes, tag: bytes, rhoTag: bytes, prover: nat, st: seq<Statement>, pf: seq<Proof>,
                             k: nat)
    requires |st| == |pf| && k < |st| && !Verify(sid, tag, st[k], pf[k])
    requires forall b :: 0 <= b < |st| && b != k ==> Verify(sid, tag, st[b], pf[b])
    requires Rho(sid, rhoTag, prover, st, pf, k) != 0
    ensures !BatchAccepts(sid, tag, rhoTag, prover, st, pf)
  {
    hide Verify;
    hide Misses1;
    hide Misses2;
    var rhos, m1, m2 := Rhos(sid, rhoTag, prover, st, pf), Misses1(sid, tag, st, pf), Misses2(sid, tag, st, pf);
    forall b | 0 <= b < |st| && b != k ensures m1[b] == 0 && m2[b] == 0 { VerifyMeansNoMiss(sid, tag, st, pf, b); }
    VerifyMeansNoMiss(sid, tag, st, pf, k);
    WeightedOne(rhos, m1, |st|, k);
    WeightedOne(rhos, m2, |st|, k);
    NonzeroProduct(rhos[k], if m1[k] != 0 then m1[k] else m2[k]);
  }

  lemma NonzeroProduct(a: Scalar, b: Scalar)
    requires a != 0 && b != 0
    ensures !Cong(Mul(a, b), 0)
  {
    if Cong(Mul(a, b), 0) {
      CongCancel(a, b);
    }
  }
}
