/** Broadcast rounds with an adversary: some senders replace their share by a value of their
    choice.  Opening such a round depends only on the commitment and on who cheated. */
module Broadcasts {
  import opened Field
  import opened Polynomials
  import opened Vss
  import opened Outcomes
  import opened Opening

  /** Replaced values, by sender. */
  type Faults = map<nat, Scalar>

  /** The round: for each sender its own share, unless replaced. */
  function Sent(ids: seq<nat>, honest: seq<Scalar>, fake: Faults): (r: seq<Share>)
    requires |honest| == |ids|
    ensures |r| == |ids|
    ensures forall k :: 0 <= k < |r| ==> r[k] == Share(ids[k], if ids[k] in fake then fake[ids[k]] else honest[k])
  {
    seq(|ids|, k requires 0 <= k < |ids| => Share(ids[k], if ids[k] in fake then fake[ids[k]] else honest[k]))
  }

  /** The sender's replaced value is off the committed polynomial. */
  ghost predicate Cheats(com: Poly, fake: Faults, j: nat) {
    j in fake && !VerifyShare(com, j, fake[j])
  }

  ghost function Cheaters(com: Poly, fake: Faults, ids: seq<nat>): (r: seq<nat>)
    ensures |r| <= |ids|
  {
    if ids == [] then []
    else
      var n := |ids| - 1;
      Cheaters(com, fake, ids[..n]) + (if Cheats(com, fake, ids[n]) then [ids[n]] else [])
  }

  lemma {:induction false} CheatersExactly(com: Poly, fake: Faults, ids: seq<nat>, j: nat)
    ensures j in Cheaters(com, fake, ids) <==> j in ids && Cheats(com, fake, j)
    decreases |ids|
  {
    hide Cheats;
    if ids != [] {
      var n := |ids| - 1;
      CheatersExactly(com, fake, ids[..n], j);
      assert ids == ids[..n] + [ids[n]];
    }
  }

  /** Every own share is on the committed polynomial. */
  ghost predicate HonestShares(com: Poly, ids: seq<nat>, honest: seq<Scalar>) {
    |honest| == |ids| && forall k :: 0 <= k < |ids| ==> VerifyShare(com, ids[k], honest[k])
  }

  /** An opening blames exactly the cheaters. */
  lemma {:induction false} BlamedAreCheaters(com: Poly, ids: seq<nat>, honest: seq<Scalar>, fake: Faults)
    requires HonestShares(com, ids, honest)
    ensures Blamed(com, Sent(ids, honest, fake)) == Cheaters(com, fake, ids)
    decreases |ids|
  {
    hide VerifyShare;
    if ids != [] {
      var n, sent := |ids| - 1, Sent(ids, honest, fake);
      BlamedAreCheaters(com, ids[..n], honest[..n], fake);
      assert sent[..n] == Sent(ids[..n], honest[..n], fake);
      assert Valid(com, sent[n]) <==> !Cheats(com, fake, ids[n]);
    }
  }

  lemma SentDistinct(ids: seq<nat>, honest: seq<Scalar>, fake: Faults)
    requires DistinctMod(ids) && |honest| == |ids|
    ensures DistinctSenders(Sent(ids, honest, fake))
  {
    hide Red;
    var sent := Sent(ids, honest, fake);
    forall i, j | 0 <= i < j < |sent|
      ensures !Cong(sent[i].from, sent[j].from)
    {
      assert sent[i].from == ids[i] && sent[j].from == ids[j];
    }
  }

  /** What a fail-fast opening of the round returns, from the commitment and the cheaters alone. */
  ghost function RoundResult(point: int, t: nat, com: Poly, fake: Faults, ids: seq<nat>): Outcome<Scalar> {
    if Cheaters(com, fake, ids) != [] then Abort(Cheaters(com, fake, ids))
    else if |ids| < t then NotEnoughShares(|ids|, t)
    else Ok(At(com, point))
  }

  /** `open_at` on such a round. */
  method OpenRound(point: int, t: nat, com: Poly, ids: seq<nat>, honest: seq<Scalar>,
                   fake: Faults) returns (r: Outcome<Scalar>)
    requires |com| <= t && DistinctMod(ids) && HonestShares(com, ids, honest)
    ensures r == RoundResult(point, t, com, fake, ids)
  {
    hide Red;
    hide Eval;
    hide VerifyShare;
    SentDistinct(ids, honest, fake);
    BlamedAreCheaters(com, ids, honest, fake);
    r := OpenAt(point, t, com, Sent(ids, honest, fake));
  }

  /** `open_robust` on such a round: the committed value and the cheaters, as long as t senders
      did not cheat. */
  method OpenRoundRobust(t: nat, com: Poly, ids: seq<nat>, honest: seq<Scalar>, fake: Faults)
    returns (r: Outcome<(Scalar, seq<nat>)>)
    requires |com| <= t && DistinctMod(ids) && HonestShares(com, ids, honest)
    ensures var good := |ids| - |Cheaters(com, fake, ids)|;
      r == if good < t then NotEnoughShares(good, t) else Ok((At(com, 0), Cheaters(com, fake, ids)))
  {
    hide Red;
    hide Eval;
    hide VerifyShare;
    SentDistinct(ids, honest, fake);
    BlamedAreCheaters(com, ids, honest, fake);
    r := OpenRobust(t, com, Sent(ids, honest, fake));
  }
}
