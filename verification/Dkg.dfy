/** The commit-then-reveal dealing session (src/protocol/dkg.rs).  A session deals `count`
    polynomials of `polyLen` coefficients per party; the single-secret DKG is count = 1 and
    polyLen = t.  Messages are whatever the senders chose to send. */
module Dkg {
  import opened Field
  import opened Polynomials
  import opened Lagrange
  import opened Vss
  import opened Outcomes
  import opened Committees
  import opened IdLists
  import opened Bytes

  /** One party's result for one dealt index. */
  datatype Output = Output(com: Poly, share: Scalar)

  /** A committed sharing held by a committee: one commitment, one share per position. */
  datatype Sharing = Sharing(com: Poly, shares: seq<Scalar>)

  /** Every member's share lies on the committed polynomial of the given length. */
  ghost predicate Shared(ids: seq<nat>, s: Sharing, len: nat) {
    |s.com| == len && |s.shares| == |ids| && forall k :: 0 <= k < |ids| ==> VerifyShare(s.com, ids[k], s.shares[k])
  }

  // ---------------------------------------------------------------- transcript hash

  function Flatten(coms: seq<Poly>): Poly {
    if coms == [] then [] else coms[0] + Flatten(coms[1..])
  }

  /** `hash_commitments`: tag, session, party and every point. */
  function HashCommitments(sid: bytes, tag: bytes, party: nat, coms: seq<Poly>): bytes {
    HASH(tag + sid + BigEndian(party, 8) + Points(Flatten(coms)))
  }

  ghost predicate Shape(coms: seq<Poly>, count: nat, polyLen: nat) {
    |coms| == count && forall b :: 0 <= b < count ==> |coms[b]| == polyLen
  }

  lemma {:induction false} FlattenInjective(p: seq<Poly>, q: seq<Poly>, count: nat, len: nat)
    requires Shape(p, count, len) && Shape(q, count, len)
    ensures |Flatten(p)| == |Flatten(q)|
    ensures Flatten(p) == Flatten(q) ==> p == q
    decreases count
  {
    if count > 0 {
      FlattenInjective(p[1..], q[1..], count - 1, len);
      if Flatten(p) == Flatten(q) {
        assert Flatten(p)[..len] == p[0] && Flatten(q)[..len] == q[0];
        assert Flatten(p)[len..] == Flatten(p[1..]) && Flatten(q)[len..] == Flatten(q[1..]);
        assert p == [p[0]] + p[1..] && q == [q[0]] + q[1..];
      }
    }
  }

  /** Index by index, and within an index coefficient by coefficient. */
  lemma {:induction false} FlattenAt(p: seq<Poly>, count: nat, len: nat, b: nat, k: nat)
    requires Shape(p, count, len) && b < count && k < len
    ensures b * len + k < |Flatten(p)| && Flatten(p)[b * len + k] == p[b][k]
    decreases count
  {
    if b > 0 {
      FlattenAt(p[1..], count - 1, len, b - 1, k);
      assert b * len + k == len + ((b - 1) * len + k);
    }
  }

  /** Binding: a round-1 hash can be opened by at most one well-shaped reveal. */
  lemma RevealUnique(sid: bytes, tag: bytes, i: nat, p: seq<Poly>, q: seq<Poly>, count: nat, len: nat)
    requires Shape(p, count, len) && Shape(q, count, len)
    requires HashCommitments(sid, tag, i, p) == HashCommitments(sid, tag, i, q)
    ensures p == q
  {
    var head := tag + sid + BigEndian(i, 8);
    assert head + Points(Flatten(p)) == head + Points(Flatten(q));
    assert (head + Points(Flatten(p)))[|head|..] == Points(Flatten(p));
    assert (head + Points(Flatten(q)))[|head|..] == Points(Flatten(q));
    assert Points(Flatten(p)) + [] == Points(Flatten(q)) + [];
    FlattenInjective(p, q, count, len);
    PointsInjective(Flatten(p), Flatten(q), [], []);
  }

  /** A hash belongs to one session, one tag, one party and one well-shaped reveal. */
  lemma HashBinds(sid: bytes, tag: bytes, i: nat, p: seq<Poly>, sid': bytes, tag': bytes, j: nat, q: seq<Poly>,
                  count: nat, len: nat)
    requires Shape(p, count, len) && Shape(q, count, len)
    requires |sid| == |sid'| && |tag| == |tag'| && i < U64 && j < U64
    requires HashCommitments(sid, tag, i, p) == HashCommitments(sid', tag', j, q)
    ensures sid == sid' && tag == tag' && i == j && p == q
  {
    hide Points;
    hide Flatten;
    var x, y := Points(Flatten(p)), Points(Flatten(q));
    assert tag + sid + BigEndian(i, 8) + x == tag' + sid' + BigEndian(j, 8) + y;
    FourParts(tag, sid, BigEndian(i, 8), x, tag', sid', BigEndian(j, 8), y);
    assert Pow256(8) == U64;
    BigEndianInjective(i, j, 8);
    RevealUnique(sid, tag, i, p, q, count, len);
  }

  lemma FourParts(a: bytes, b: bytes, c: bytes, d: bytes, a': bytes, b': bytes, c': bytes, d': bytes)
    requires |a| == |a'| && |b| == |b'| && |c| == |c'| && a + b + c + d == a' + b' + c' + d'
    ensures a == a' && b == b' && c == c' && d == d'
  {
    var s, s' := a + b + c + d, a' + b' + c' + d';
    var m, n := |a| + |b|, |a| + |b| + |c|;
    assert a == s[..|a|] == s'[..|a|] == a';
    assert b == s[|a|..m] == s'[|a|..m] == b';
    assert c == s[m..n] == s'[m..n] == c';
    assert d == s[n..] == s'[n..] == d';
  }

  // ---------------------------------------------------------------- finalize

  /** Everything one member has received when it finalizes. */
  datatype Inbox = Inbox(
    r1: map<nat, bytes>,
    r2: map<nat, seq<Poly>>,
    shares: map<nat, seq<Scalar>>,
    defenses: map<nat, seq<Scalar>>)

  /** A session: its transcript context and its dimensions. */
  datatype Session = Session(sid: bytes, tag: bytes, count: nat, polyLen: nat)

  /** Messages come from committee members, and a defence answers every index. */
  ghost predicate FromMembers(ids: seq<nat>, z: Session, m: Inbox) {
    && m.r1.Keys <= Members(ids) && m.r2.Keys <= Members(ids)
    && m.shares.Keys <= Members(ids) && m.defenses.Keys <= Members(ids)
    && forall i :: i in m.defenses ==> |m.defenses[i]| == z.count
  }

  predicate Complete(ids: seq<nat>, m: Inbox) {
    |m.r1| == |m.r2| == |m.shares| == |m.defenses| == |ids|
  }

  ghost predicate Answered(m: Inbox, i: nat) {
    i in m.r1 && i in m.r2 && i in m.shares && i in m.defenses
  }

  ghost predicate AnsweredFully(z: Session, m: Inbox, i: nat) {
    Answered(m, i) && |m.defenses[i]| == z.count
  }

  lemma EveryoneSent(ids: seq<nat>, z: Session, m: Inbox)
    requires StrictlyIncreasing(ids) && FromMembers(ids, z, m) && Complete(ids, m)
    ensures forall k :: 0 <= k < |ids| ==> AnsweredFully(z, m, ids[k])
  {
    DistinctCount(ids);
    SubsetOfSameSize(m.r1.Keys, Members(ids));
    SubsetOfSameSize(m.r2.Keys, Members(ids));
    SubsetOfSameSize(m.shares.Keys, Members(ids));
    SubsetOfSameSize(m.defenses.Keys, Members(ids));
    forall k | 0 <= k < |ids| ensures AnsweredFully(z, m, ids[k]) { assert ids[k] in Members(ids); }
  }

  /** Dealer i's reveal has the agreed shape and opens its round-1 hash. */
  ghost predicate Revealed(z: Session, m: Inbox, i: nat)
    requires Answered(m, i)
  {
    && Shape(m.r2[i], z.count, z.polyLen)
    && |m.shares[i]| == z.count
    && HashCommitments(z.sid, z.tag, i, m.r2[i]) == m.r1[i]
  }

  /** The hash is what party j of session sid' publishes for some well-shaped dealing. */
  ghost predicate HashOf(z: Session, h: bytes, sid: bytes, j: nat) {
    exists q :: Shape(q, z.count, z.polyLen) && h == HashCommitments(sid, z.tag, j, q)
  }

  /** Dealer i published the hash of another party, or of another session. */
  ghost predicate Copied(z: Session, m: Inbox, i: nat)
    requires i in m.r1
  {
    exists sid: bytes, j: nat ::
      HashOf(z, m.r1[i], sid, j) && |sid| == |z.sid| && j < U64 && (sid != z.sid || j != i)
  }

  /** A copied hash cannot be opened, whatever is revealed; the dealer itself is then to blame. */
  lemma CopiedRefused(z: Session, m: Inbox, me: nat, i: nat)
    requires Answered(m, i) && i < U64 && Copied(z, m, i)
    ensures !Revealed(z, m, i) && forall who :: Culprit(z, m, me, i, who) <==> who == i
  {
    hide HashCommitments;
    var sid: bytes, j: nat :|
      HashOf(z, m.r1[i], sid, j) && |sid| == |z.sid| && j < U64 && (sid != z.sid || j != i);
    var q :| Shape(q, z.count, z.polyLen) && m.r1[i] == HashCommitments(sid, z.tag, j, q);
    if Revealed(z, m, i) {
      HashBinds(z.sid, z.tag, i, m.r2[i], sid, z.tag, j, q, z.count, z.polyLen);
    }
  }

  ghost predicate GoodShare(m: Inbox, me: nat, i: nat, b: nat)
    requires i in m.r2 && i in m.shares && b < |m.r2[i]| && b < |m.shares[i]|
  {
    VerifyShare(m.r2[i][b], me, m.shares[i][b])
  }

  ghost predicate GoodDealer(z: Session, m: Inbox, me: nat, i: nat)
    requires Answered(m, i)
  {
    Revealed(z, m, i) && forall b :: 0 <= b < z.count ==> GoodShare(m, me, i, b)
  }

  /** Who an abort over dealer i must name: the dealer, unless its defence for the first index
      with a bad share verifies. */
  ghost predicate Culprit(z: Session, m: Inbox, me: nat, i: nat, who: nat)
    requires Answered(m, i)
  {
    if !Revealed(z, m, i) then who == i
    else exists b :: 0 <= b < z.count && CulpritAt(z, m, me, i, who, b)
  }

  ghost predicate CulpritAt(z: Session, m: Inbox, me: nat, i: nat, who: nat, b: nat)
    requires Answered(m, i) && Revealed(z, m, i) && b < z.count
  {
    && b < |m.defenses[i]| && !GoodShare(m, me, i, b)
    && (forall a :: 0 <= a < b ==> GoodShare(m, me, i, a))
    && who == if VerifyShare(m.r2[i][b], me, m.defenses[i][b]) then me else i
  }

  /** `resolve_complaint`. */
  method ResolveComplaint(com: Poly, dealer: nat, accuser: nat, defense: Scalar) returns (who: nat)
    ensures who == if VerifyShare(com, accuser, defense) then accuser else dealer
  {
    var e := EvalAtPoint(com, accuser);
    who := if defense == e then accuser else dealer;
  }

  /** The dealt commitments for index b, in committee order. */
  ghost function Dealt(ids: seq<nat>, r2: map<nat, seq<Poly>>, b: nat): (r: seq<Poly>)
    requires forall k :: 0 <= k < |ids| ==> ids[k] in r2 && b < |r2[ids[k]]|
    ensures |r| == |ids|
  {
    seq(|ids|, k requires 0 <= k < |ids| => r2[ids[k]][b])
  }

  /** The joint commitment for index b: a function of the reveals alone. */
  ghost function JointCom(ids: seq<nat>, r2: map<nat, seq<Poly>>, b: nat): Poly
    requires forall k :: 0 <= k < |ids| ==> ids[k] in r2 && b < |r2[ids[k]]|
  {
    Combine(Ones(|ids|), Dealt(ids, r2, b), |ids|)
  }

  ghost predicate AllGood(ids: seq<nat>, z: Session, m: Inbox, me: nat) {
    forall k :: 0 <= k < |ids| ==> Answered(m, ids[k]) && GoodDealer(z, m, me, ids[k])
  }

  /** The abort names the culprit of the first dealer that failed. */
  ghost predicate FirstFault(ids: seq<nat>, z: Session, m: Inbox, me: nat, blamed: seq<nat>) {
    exists p :: 0 <= p < |ids| && FaultAt(ids, z, m, me, p, blamed)
  }

  ghost predicate FaultAt(ids: seq<nat>, z: Session, m: Inbox, me: nat, p: nat, blamed: seq<nat>)
    requires p < |ids|
  {
    && |blamed| == 1 && Answered(m, ids[p]) && !GoodDealer(z, m, me, ids[p])
    && Culprit(z, m, me, ids[p], blamed[0])
    && AllGood(ids[..p], z, m, me)
  }

  /** `finalize`: round 3 of one member. */
  method Finalize(c: Committee, z: Session, me: nat, m: Inbox) returns (r: Outcome<seq<Output>>)
    requires c.Valid() && FromMembers(c.ids, z, m)
    ensures r.Ok? || r.Abort? || r.InvalidParams?
    ensures r.InvalidParams? <==> !Complete(c.ids, m)
    ensures r.Ok? ==> AllGood(c.ids, z, m, me) && |r.value| == z.count
    ensures r.Ok? ==> forall b :: 0 <= b < z.count ==> OutputIs(c.ids, z, m.r2, me, b, r.value[b])
    ensures r.Abort? ==> FirstFault(c.ids, z, m, me, r.blamed)
    ensures r.Ok? ==> forall i :: i in c.ids && i < U64 ==> !Copied(z, m, i)
  {
    hide FirstFault;
    hide AllGood;
    hide OutputIs;
    hide Copied;
    if !Complete(c.ids, m) {
      return InvalidParams;
    }
    EveryoneSent(c.ids, z, m);
    var who, sums, coms := CheckAll(c.ids, z, me, m);
    if who != [] {
      return Abort(who);
    }
    NobodyCopied(c.ids, z, m, me);
    var outs := Outputs(c.ids, z, me, m, sums, coms);
    return Ok(outs);
  }

  /** The loop over dealers, in committee order. */
  method CheckAll(ids: seq<nat>, z: Session, me: nat, m: Inbox)
    returns (who: seq<nat>, sums: seq<Scalar>, coms: seq<seq<Poly>>)
    requires forall k :: 0 <= k < |ids| ==> AnsweredFully(z, m, ids[k])
    ensures who != [] ==> FirstFault(ids, z, m, me, who)
    ensures who == [] ==> AllGood(ids, z, m, me) && |sums| == |coms| == z.count
    ensures who == [] ==> forall b :: 0 <= b < z.count ==> Accumulated(ids, m.r2, me, b, sums[b], coms[b])
  {
    hide GoodDealer;
    hide Culprit;
    hide Accumulated;
    hide AllGood;
    who, sums, coms := [], seq(z.count, _ => 0), seq(z.count, _ => []);
    forall b | 0 <= b < z.count ensures Accumulated(ids[..0], m.r2, me, b, sums[b], coms[b]) {
      NothingAccumulated(ids[..0], m.r2, me, b);
    }
    NobodyYet(z, m, me);
    for p := 0 to |ids|
      invariant who == []
      invariant AllGood(ids[..p], z, m, me)
      invariant |sums| == |coms| == z.count
      invariant forall b :: 0 <= b < z.count ==> Accumulated(ids[..p], m.r2, me, b, sums[b], coms[b])
    {
      var next;
      who, next := CheckDealer(z, m, me, ids[p], sums);
      if who != [] {
        assert FaultAt(ids, z, m, me, p, who);
        return;
      }
      OneMoreGood(ids, z, m, me, p);
      coms := AccumulateDealer(ids, z, m, me, p, sums, next, coms);
      sums := next;
    }
    assert ids[..|ids|] == ids;
  }

  lemma NobodyCopied(ids: seq<nat>, z: Session, m: Inbox, me: nat)
    requires AllGood(ids, z, m, me)
    ensures forall i :: i in ids ==> i in m.r1 && (i < U64 ==> !Copied(z, m, i))
  {
    hide Copied;
    hide Revealed;
    forall i | i in ids
      ensures i in m.r1 && (i < U64 ==> !Copied(z, m, i))
    {
      var k :| 0 <= k < |ids| && ids[k] == i;
      assert Answered(m, ids[k]) && GoodDealer(z, m, me, ids[k]);
      if i < U64 && Copied(z, m, i) {
        CopiedRefused(z, m, me, i);
      }
    }
  }

  lemma NobodyYet(z: Session, m: Inbox, me: nat)
    ensures AllGood([], z, m, me)
  {
  }

  /** The joint commitments, one per index. */
  method Outputs(ids: seq<nat>, z: Session, me: nat, m: Inbox, sums: seq<Scalar>, coms: seq<seq<Poly>>)
    returns (outs: seq<Output>)
    requires ids != [] && AllGood(ids, z, m, me) && |sums| == |coms| == z.count
    requires forall b :: 0 <= b < z.count ==> Accumulated(ids, m.r2, me, b, sums[b], coms[b])
    ensures |outs| == z.count && forall b :: 0 <= b < z.count ==> OutputIs(ids, z, m.r2, me, b, outs[b])
  {
    hide AllGood;
    hide Accumulated;
    hide OutputIs;
    hide Combine;
    outs := [];
    for b := 0 to z.count
      invariant |outs| == b
      invariant forall a :: 0 <= a < b ==> OutputIs(ids, z, m.r2, me, a, outs[a])
    {
      AccumulatedIs(ids, z, m, me, b, sums[b], coms[b]);
      var com := Sum(coms[b]);
      outs := outs + [Output(com, sums[b])];
    }
  }

  /** The result for index b is the joint commitment and its value at this member. */
  ghost predicate OutputIs(ids: seq<nat>, z: Session, r2: map<nat, seq<Poly>>, me: nat, b: nat, o: Output) {
    && (forall k :: 0 <= k < |ids| ==> ids[k] in r2 && b < |r2[ids[k]]|)
    && o.com == JointCom(ids, r2, b) && |o.com| == z.polyLen && VerifyShare(o.com, me, o.share)
  }

  method HasShape(coms: seq<Poly>, count: nat, polyLen: nat) returns (ok: bool)
    ensures ok == Shape(coms, count, polyLen)
  {
    if |coms| != count {
      return false;
    }
    for b := 0 to count
      invariant forall a :: 0 <= a < b ==> |coms[a]| == polyLen
    {
      if |coms[b]| != polyLen {
        return false;
      }
    }
    return true;
  }

  /** All checks on one dealer: who is to blame, or nobody and the updated sums. */
  method CheckDealer(z: Session, m: Inbox, me: nat, i: nat, sums: seq<Scalar>)
    returns (who: seq<nat>, next: seq<Scalar>)
    requires AnsweredFully(z, m, i) && |sums| == z.count
    ensures who == [] ==> GoodDealer(z, m, me, i)
    ensures who == [] ==> |next| == z.count && forall b :: 0 <= b < z.count ==> next[b] == Plus(sums[b], m.shares[i][b])
    ensures who != [] ==> |who| == 1 && !GoodDealer(z, m, me, i) && Culprit(z, m, me, i, who[0])
  {
    var shaped := HasShape(m.r2[i], z.count, z.polyLen);
    if !shaped || |m.shares[i]| != z.count || HashCommitments(z.sid, z.tag, i, m.r2[i]) != m.r1[i] {
      return [i], sums;
    }
    who, next := CheckShares(z, m, me, i, sums);
  }

  /** The inner loop over indices: who is to blame, or nobody and the updated sums. */
  method CheckShares(z: Session, m: Inbox, me: nat, i: nat, sums: seq<Scalar>)
    returns (who: seq<nat>, next: seq<Scalar>)
    requires Answered(m, i) && Revealed(z, m, i) && |m.defenses[i]| == z.count == |sums|
    ensures who == [] ==> GoodDealer(z, m, me, i)
    ensures who == [] ==> |next| == z.count && forall b :: 0 <= b < z.count ==> next[b] == Plus(sums[b], m.shares[i][b])
    ensures who != [] ==> |who| == 1 && !GoodDealer(z, m, me, i) && Culprit(z, m, me, i, who[0])
  {
    next := sums;
    for b := 0 to z.count
      invariant |next| == z.count
      invariant forall a :: 0 <= a < b ==> GoodShare(m, me, i, a)
      invariant forall a :: 0 <= a < z.count ==> next[a] == if a < b then Plus(sums[a], m.shares[i][a]) else sums[a]
    {
      var e := EvalAtPoint(m.r2[i][b], me);
      if m.shares[i][b] != e {
        var w := ResolveComplaint(m.r2[i][b], i, me, m.defenses[i][b]);
        assert CulpritAt(z, m, me, i, w, b);
        return [w], next;
      }
      next := next[b := Plus(next[b], m.shares[i][b])];
    }
    return [], next;
  }

  /** The sum so far is the value at `me` of the sum of the commitments so far. */
  ghost predicate Accumulated(ids: seq<nat>, r2: map<nat, seq<Poly>>, me: nat, b: nat, sum: Scalar, coms: seq<Poly>) {
    && (forall k :: 0 <= k < |ids| ==> ids[k] in r2 && b < |r2[ids[k]]|)
    && coms == Dealt(ids, r2, b)
    && sum == At(Combine(Ones(|ids|), coms, |ids|), me)
  }

  lemma NothingAccumulated(ids: seq<nat>, r2: map<nat, seq<Poly>>, me: nat, b: nat)
    requires ids == []
    ensures Accumulated(ids, r2, me, b, 0, [])
  {
  }

  lemma OneMoreGood(ids: seq<nat>, z: Session, m: Inbox, me: nat, p: nat)
    requires p < |ids| && AllGood(ids[..p], z, m, me) && Answered(m, ids[p]) && GoodDealer(z, m, me, ids[p])
    ensures AllGood(ids[..p + 1], z, m, me)
  {
    hide GoodDealer;
    assert ids[..p + 1] == ids[..p] + [ids[p]];
  }

  /** The commitments of one more accepted dealer join the per-index lists. */
  method AccumulateDealer(ids: seq<nat>, z: Session, m: Inbox, me: nat, p: nat, sums: seq<Scalar>, next: seq<Scalar>,
                          coms: seq<seq<Poly>>)
    returns (out: seq<seq<Poly>>)
    requires p < |ids| && |sums| == |next| == |coms| == z.count
    requires Answered(m, ids[p]) && GoodDealer(z, m, me, ids[p])
    requires forall b :: 0 <= b < z.count ==> Accumulated(ids[..p], m.r2, me, b, sums[b], coms[b])
    requires forall b :: 0 <= b < z.count ==> next[b] == Plus(sums[b], m.shares[ids[p]][b])
    ensures |out| == z.count
    ensures forall b :: 0 <= b < z.count ==> Accumulated(ids[..p + 1], m.r2, me, b, next[b], out[b])
  {
    hide Accumulated;
    hide At;
    hide Plus;
    var i := ids[p];
    out := coms;
    for b := 0 to z.count
      invariant |out| == z.count
      invariant forall a :: 0 <= a < z.count ==> out[a] == if a < b then coms[a] + [m.r2[i][a]] else coms[a]
    {
      out := out[b := out[b] + [m.r2[i][b]]];
    }
    assert ids[..p + 1] == ids[..p] + [i];
    forall b | 0 <= b < z.count
      ensures Accumulated(ids[..p + 1], m.r2, me, b, next[b], out[b])
    {
      assert GoodShare(m, me, i, b);
      AccumulateStep(ids[..p], i, m.r2, me, b, sums[b], coms[b]);
    }
  }

  lemma AccumulateStep(ids: seq<nat>, i: nat, r2: map<nat, seq<Poly>>, me: nat, b: nat, sum: Scalar, coms: seq<Poly>)
    requires Accumulated(ids, r2, me, b, sum, coms) && i in r2 && b < |r2[i]|
    ensures Accumulated(ids + [i], r2, me, b, Plus(sum, At(r2[i][b], me)), coms + [r2[i][b]])
  {
    hide Add;
    hide Eval;
    hide Red;
    var n, com := |ids|, r2[i][b];
    assert coms + [com] == Dealt(ids + [i], r2, b);
    CombinePrefix(n, n + 1, coms, coms + [com]);
    ScaleByOne(com);
    assert Combine(Ones(n + 1), coms + [com], n + 1) == Add(Combine(Ones(n), coms, n), com);
    HomomorphicShares(Combine(Ones(n), coms, n), com, 1, me);
  }

  /** A prefix of the sum does not see later summands. */
  lemma {:induction false} CombinePrefix(n: nat, k: nat, ps: seq<Poly>, qs: seq<Poly>)
    requires n <= |ps| && n <= k && n <= |qs| && ps[..n] == qs[..n]
    ensures Combine(Ones(n), ps, n) == Combine(Ones(k), qs, n)
    decreases n
  {
    CombineSame(Ones(n), Ones(k), ps, qs, n);
  }

  lemma {:induction false} CombineSame(vs: seq<Scalar>, ws: seq<Scalar>, ps: seq<Poly>, qs: seq<Poly>, n: nat)
    requires n <= |vs| && n <= |ws| && n <= |ps| && n <= |qs|
    requires forall k :: 0 <= k < n ==> vs[k] == ws[k] && ps[k] == qs[k]
    ensures Combine(vs, ps, n) == Combine(ws, qs, n)
    decreases n
  {
    if n > 0 {
      CombineSame(vs, ws, ps, qs, n - 1);
    }
  }

  lemma AccumulatedIs(ids: seq<nat>, z: Session, m: Inbox, me: nat, b: nat, sum: Scalar, coms: seq<Poly>)
    requires ids != [] && b < z.count && AllGood(ids, z, m, me) && Accumulated(ids, m.r2, me, b, sum, coms)
    ensures |coms| == |ids| && OutputIs(ids, z, m.r2, me, b, Output(Combine(Ones(|coms|), coms, |coms|), sum))
  {
    hide Combine;
    forall k | 0 <= k < |ids| ensures |coms[k]| == z.polyLen {
      assert GoodDealer(z, m, me, ids[k]);
    }
    CombineLength(Ones(|ids|), coms, |ids|, z.polyLen);
  }

  // ---------------------------------------------------------------- blame

  /** An honest dealer: it commits to, reveals and deals one vector of polynomials, and its
      defence is the share it computed. */
  ghost predicate HonestDealer(z: Session, m: Inbox, me: nat, i: nat, polys: seq<Poly>) {
    && Answered(m, i) && Shape(polys, z.count, z.polyLen)
    && m.r2[i] == polys && m.r1[i] == HashCommitments(z.sid, z.tag, i, polys)
    && |m.defenses[i]| == z.count && (forall b :: 0 <= b < z.count ==> m.defenses[i][b] == At(polys[b], me))
    && |m.shares[i]| == z.count
  }

  /** An honest dealer is never the culprit, whatever happened to its shares in transit: the
      accuser is. */
  lemma HonestDealerNotBlamed(z: Session, m: Inbox, me: nat, i: nat, polys: seq<Poly>, who: nat)
    requires HonestDealer(z, m, me, i, polys) && Culprit(z, m, me, i, who)
    ensures who == me
  {
  }

  /** An honest accuser (one that reports what it received, when the channel is the dealer's
      word) is blamed only if the dealer's defence really verifies; in particular a dealer that
      defends with the bad share it sent is itself blamed. */
  lemma HonestAccuserNotBlamed(z: Session, m: Inbox, me: nat, i: nat, who: nat)
    requires Answered(m, i) && i != me && Culprit(z, m, me, i, who) && m.defenses[i] == m.shares[i]
    ensures who == i
  {
  }

  // ---------------------------------------------------------------- the whole session

  /** The messages of one session; private messages and defences are indexed by receiver. */
  datatype Dealing = Dealing(
    r1: map<nat, bytes>,
    r2: map<nat, seq<Poly>>,
    shares: map<nat, map<nat, seq<Scalar>>>,
    defenses: map<nat, map<nat, seq<Scalar>>>)

  function InboxOf(d: Dealing, me: nat): Inbox
    requires me in d.shares && me in d.defenses
  {
    Inbox(d.r1, d.r2, d.shares[me], d.defenses[me])
  }

  ghost predicate FromCommittee(ids: seq<nat>, z: Session, d: Dealing) {
    forall me :: me in ids ==> me in d.shares && me in d.defenses && FromMembers(ids, z, InboxOf(d, me))
  }

  /** Every member's finalize succeeds. */
  ghost predicate Accepted(ids: seq<nat>, z: Session, d: Dealing)
    requires FromCommittee(ids, z, d)
  {
    forall k :: 0 <= k < |ids| ==> Complete(ids, InboxOf(d, ids[k])) && AllGood(ids, z, InboxOf(d, ids[k]), ids[k])
  }

  /** The sharing that the session establishes for index b. */
  ghost predicate Established(ids: seq<nat>, z: Session, d: Dealing, b: nat, s: Sharing) {
    && Shared(ids, s, z.polyLen)
    && (forall k :: 0 <= k < |ids| ==> ids[k] in d.r2 && b < |d.r2[ids[k]]|)
    && s.com == JointCom(ids, d.r2, b)
  }

  /** A member has not received everything. */
  ghost predicate Missing(ids: seq<nat>, d: Dealing, me: nat) {
    me in ids && me in d.shares && me in d.defenses && !Complete(ids, InboxOf(d, me))
  }

  ghost predicate SomethingMissing(ids: seq<nat>, d: Dealing) {
    exists me :: Missing(ids, d, me)
  }

  /** `joint_random`, `joint_random_batch`, `joint_random_packed`, `joint_deal`: every member
      finalizes over the same broadcasts; the first failure stops the session. */
  method JointDeal(c: Committee, z: Session, d: Dealing) returns (r: Outcome<seq<Sharing>>)
    requires c.Valid() && FromCommittee(c.ids, z, d)
    ensures r.Ok? || r.Abort? || r.InvalidParams?
    ensures r.Ok? <==> Accepted(c.ids, z, d)
    ensures r.InvalidParams? ==> SomethingMissing(c.ids, d)
    ensures r.Ok? ==> |r.value| == z.count && forall b :: 0 <= b < z.count ==> Established(c.ids, z, d, b, r.value[b])
    ensures r.Abort? ==>
      exists me ::
        me in c.ids && me in d.shares && me in d.defenses && FirstFault(c.ids, z, InboxOf(d, me), me, r.blamed)
  {
    hide OutputIs;
    hide FirstFault;
    hide FromMembers;
    hide AllGood;
    hide Established;
    hide Complete;
    var outs: seq<seq<Output>> := [];
    for k := 0 to |c.ids|
      invariant |outs| == k
      invariant forall j :: 0 <= j < k ==> MemberDone(c.ids, z, d, j, outs[j])
    {
      var me := c.ids[k];
      assert me in c.ids;
      var o := Finalize(c, z, me, InboxOf(d, me));
      match o {
        case Ok(v) => outs := outs + [v];
        case Abort(blamed) =>
          NotAllGood(c.ids, z, InboxOf(d, me), me, blamed);
          return Abort(blamed);
        case InvalidParams =>
          assert Missing(c.ids, d, me);
          return InvalidParams;
      }
    }
    forall k | 0 <= k < |c.ids|
      ensures Complete(c.ids, InboxOf(d, c.ids[k])) && AllGood(c.ids, z, InboxOf(d, c.ids[k]), c.ids[k])
    {
      assert MemberDone(c.ids, z, d, k, outs[k]);
    }
    var res := Transpose(c.ids, z, d, outs);
    return Ok(res);
  }

  /** Per-member outputs, regrouped per index. */
  method Transpose(ids: seq<nat>, z: Session, d: Dealing, outs: seq<seq<Output>>) returns (res: seq<Sharing>)
    requires ids != [] && |outs| == |ids| && forall k :: 0 <= k < |ids| ==> MemberDone(ids, z, d, k, outs[k])
    ensures |res| == z.count && forall b :: 0 <= b < z.count ==> Established(ids, z, d, b, res[b])
  {
    hide OutputIs;
    hide AllGood;
    hide Established;
    hide Complete;
    res := [];
    for b := 0 to z.count
      invariant |res| == b
      invariant forall a :: 0 <= a < b ==> Established(ids, z, d, a, res[a])
    {
      assert forall k :: 0 <= k < |ids| ==> MemberDone(ids, z, d, k, outs[k]);
      var s := Sharing(outs[0][b].com, seq(|ids|, k requires 0 <= k < |ids| => outs[k][b].share));
      SessionOutput(ids, z, d, b, s, outs);
      res := res + [s];
    }
  }

  ghost predicate MemberDone(ids: seq<nat>, z: Session, d: Dealing, k: nat, o: seq<Output>) {
    && k < |ids| && |o| == z.count && ids[k] in d.shares && ids[k] in d.defenses
    && Complete(ids, InboxOf(d, ids[k])) && AllGood(ids, z, InboxOf(d, ids[k]), ids[k])
    && forall b :: 0 <= b < z.count ==> OutputIs(ids, z, d.r2, ids[k], b, o[b])
  }

  lemma NotAllGood(ids: seq<nat>, z: Session, m: Inbox, me: nat, blamed: seq<nat>)
    requires FirstFault(ids, z, m, me, blamed)
    ensures !AllGood(ids, z, m, me)
  {
  }

  lemma SessionOutput(ids: seq<nat>, z: Session, d: Dealing, b: nat, s: Sharing, outs: seq<seq<Output>>)
    requires ids != [] && |outs| == |ids| && b < z.count && forall k :: 0 <= k < |ids| ==> |outs[k]| == z.count
    requires forall k :: 0 <= k < |ids| ==> OutputIs(ids, z, d.r2, ids[k], b, outs[k][b])
    requires s.com == outs[0][b].com && |s.shares| == |ids|
    requires forall k :: 0 <= k < |ids| ==> s.shares[k] == outs[k][b].share
    ensures Established(ids, z, d, b, s)
  {
    forall k | 0 <= k < |ids|
      ensures VerifyShare(s.com, ids[k], s.shares[k])
    {
      assert OutputIs(ids, z, d.r2, ids[k], b, outs[k][b]);
      assert OutputIs(ids, z, d.r2, ids[0], b, outs[0][b]);
    }
  }

  // ---------------------------------------------------------------- accountability

  /** Everybody outside `bad` deals honestly to everybody, and the shares it holds are the ones
      their dealers defend (a private message is its sender's word). */
  ghost predicate Behaved(ids: seq<nat>, z: Session, d: Dealing, bad: set<nat>) {
    && FromCommittee(ids, z, d)
    && (forall i, me :: i in ids && i !in bad && me in ids ==>
         i in d.r2 && HonestDealer(z, InboxOf(d, me), me, i, d.r2[i]))
    && forall me, i :: me in ids && me !in bad && i in ids && Answered(InboxOf(d, me), i) ==>
      d.shares[me][i] == d.defenses[me][i]
  }

  /** An abort of the session names one party, and it misbehaved. */
  lemma BlameIsEarned(ids: seq<nat>, z: Session, d: Dealing, bad: set<nat>, me: nat, blamed: seq<nat>)
    requires Behaved(ids, z, d, bad) && me in ids && FirstFault(ids, z, InboxOf(d, me), me, blamed)
    ensures |blamed| == 1 && Members(blamed) <= bad
  {
    hide HashCommitments;
    hide VerifyShare;
    hide FromMembers;
    hide AllGood;
    hide GoodDealer;
    hide Revealed;
    var m := InboxOf(d, me);
    var p :| 0 <= p < |ids| && FaultAt(ids, z, m, me, p, blamed);
    var i, who := ids[p], blamed[0];
    assert i in ids;
    if i !in bad {
      HonestDealerNotBlamed(z, m, me, i, d.r2[i], who);
      if me !in bad {
        OwnWord(z, m, me, i, d.r2[i]);
      }
    } else if me !in bad {
      HonestAccuserNotBlamed(z, m, me, i, who);
    }
  }

  /** An honest dealer's share, received as dealt, is accepted. */
  lemma OwnWord(z: Session, m: Inbox, me: nat, i: nat, polys: seq<Poly>)
    requires HonestDealer(z, m, me, i, polys) && m.shares[i] == m.defenses[i]
    ensures GoodDealer(z, m, me, i)
  {
    forall b | 0 <= b < z.count
      ensures GoodShare(m, me, i, b)
    {
      RedScalar(m.shares[i][b]);
    }
  }

  /** With nobody misbehaving the session is accepted. */
  lemma HonestAccepted(ids: seq<nat>, z: Session, d: Dealing)
    requires StrictlyIncreasing(ids) && Behaved(ids, z, d, {})
    ensures Accepted(ids, z, d)
  {
    hide HonestDealer;
    hide FromMembers;
    hide AllGood;
    hide Complete;
    forall k | 0 <= k < |ids|
      ensures Complete(ids, InboxOf(d, ids[k])) && AllGood(ids, z, InboxOf(d, ids[k]), ids[k])
    {
      assert ids[k] in ids;
      HonestMember(ids, z, d, ids[k]);
    }
  }

  lemma HonestMember(ids: seq<nat>, z: Session, d: Dealing, me: nat)
    requires StrictlyIncreasing(ids) && Behaved(ids, z, d, {}) && me in ids
    ensures me in d.shares && me in d.defenses
    ensures Complete(ids, InboxOf(d, me)) && AllGood(ids, z, InboxOf(d, me), me)
  {
    hide HonestDealer;
    hide GoodDealer;
    hide FromMembers;
    hide Complete;
    var m := InboxOf(d, me);
    forall j | 0 <= j < |ids|
      ensures Answered(m, ids[j]) && GoodDealer(z, m, me, ids[j])
    {
      var i := ids[j];
      assert i in ids;
      HonestAnswered(z, m, me, i, d.r2[i]);
      OwnWord(z, m, me, i, d.r2[i]);
    }
    EveryoneAnswered(ids, z, m);
  }

  lemma HonestAnswered(z: Session, m: Inbox, me: nat, i: nat, polys: seq<Poly>)
    requires HonestDealer(z, m, me, i, polys)
    ensures Answered(m, i)
  {
  }

  lemma EveryoneAnswered(ids: seq<nat>, z: Session, m: Inbox)
    requires StrictlyIncreasing(ids) && FromMembers(ids, z, m) && forall k :: 0 <= k < |ids| ==> Answered(m, ids[k])
    ensures Complete(ids, m)
  {
    DistinctCount(ids);
    forall i | i in Members(ids)
      ensures Answered(m, i)
    {
      var k :| 0 <= k < |ids| && ids[k] == i;
    }
    assert m.r1.Keys == Members(ids);
    assert m.r2.Keys == Members(ids);
    assert m.shares.Keys == Members(ids);
    assert m.defenses.Keys == Members(ids);
  }

  /** A failed dealing names misbehaving members; without any it does not fail. */
  lemma DealingBlame(c: Committee, z: Session, d: Dealing, bad: set<nat>, r: Outcome<seq<Sharing>>)
    requires c.Valid() && FromCommittee(c.ids, z, d) && (r.Ok? <==> Accepted(c.ids, z, d))
    requires r.Abort? ==>
      exists me ::
        me in c.ids && me in d.shares && me in d.defenses && FirstFault(c.ids, z, InboxOf(d, me), me, r.blamed)
    ensures Behaved(c.ids, z, d, bad) ==>
      (r.Abort? ==> r.blamed != [] && Members(r.blamed) <= bad) && (bad == {} ==> r.Ok?)
  {
    hide FirstFault;
    hide Accepted;
    hide FromCommittee;
    hide Behaved;
    if Behaved(c.ids, z, d, bad) {
      if r.Abort? {
        var me :|
          me in c.ids && me in d.shares && me in d.defenses && FirstFault(c.ids, z, InboxOf(d, me), me, r.blamed);
        BlameIsEarned(c.ids, z, d, bad, me, r.blamed);
      }
      if bad == {} {
        HonestAccepted(c.ids, z, d);
      }
    }
  }
}
