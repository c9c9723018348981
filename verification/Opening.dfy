/** The verified opening (src/primitives/open.rs): every broadcast share is checked against the
    public commitment before it may enter the interpolation. */
module Opening {
  import opened Field
  import opened Polynomials
  import opened Shamir
  import opened Vss
  import opened Outcomes

  /** A broadcast share and its sender. */
  datatype Share = Share(from: nat, s: Scalar)

  ghost function Senders(shares: seq<Share>): (r: seq<int>)
    ensures |r| == |shares| && forall i :: 0 <= i < |r| ==> r[i] == shares[i].from
  {
    seq(|shares|, i requires 0 <= i < |shares| => shares[i].from)
  }

  ghost predicate Valid(com: Poly, sh: Share) {
    VerifyShare(com, sh.from, sh.s)
  }

  /** The shares that verify, in order of arrival. */
  ghost function ValidShares(com: Poly, shares: seq<Share>): (r: seq<Share>)
    ensures |r| <= |shares|
  {
    if shares == [] then []
    else
      var rest, last := shares[..|shares| - 1], shares[|shares| - 1];
      ValidShares(com, rest) + (if Valid(com, last) then [last] else [])
  }

  /** The senders of the shares that do not, in order of arrival. */
  ghost function Blamed(com: Poly, shares: seq<Share>): (r: seq<nat>)
    ensures |r| == |shares| - |ValidShares(com, shares)|
  {
    if shares == [] then []
    else
      var rest, last := shares[..|shares| - 1], shares[|shares| - 1];
      Blamed(com, rest) + (if Valid(com, last) then [] else [last.from])
  }

  /** Blame is exact: the senders of invalid shares, all of them and nobody else. */
  lemma {:induction false} BlamedExactly(com: Poly, shares: seq<Share>, j: nat)
    ensures j in Blamed(com, shares) <==> exists i :: 0 <= i < |shares| && shares[i].from == j && !Valid(com, shares[i])
    decreases |shares|
  {
    if shares != [] {
      var n := |shares| - 1;
      BlamedExactly(com, shares[..n], j);
      assert forall i :: 0 <= i < n ==> shares[..n][i] == shares[i];
    }
  }

  ghost function Values(shares: seq<Share>): (r: seq<Scalar>)
    ensures |r| == |shares| && forall i :: 0 <= i < |r| ==> r[i] == shares[i].s
  {
    seq(|shares|, i requires 0 <= i < |shares| => shares[i].s)
  }

  ghost predicate DistinctSenders(shares: seq<Share>) {
    forall i, j :: 0 <= i < j < |shares| ==> !Cong(shares[i].from, shares[j].from)
  }

  /** The valid shares are among the shares, keep distinct senders distinct, and do verify. */
  lemma {:induction false} ValidSharesAre(com: Poly, shares: seq<Share>)
    ensures forall sh :: sh in ValidShares(com, shares) ==> sh in shares && Valid(com, sh)
    ensures DistinctSenders(shares) ==> DistinctSenders(ValidShares(com, shares))
    decreases |shares|
  {
    if shares != [] {
      hide Valid;
      hide Red;
      var n := |shares| - 1;
      ValidSharesAre(com, shares[..n]);
      var before, now := ValidShares(com, shares[..n]), ValidShares(com, shares);
      if DistinctSenders(shares) {
        forall i | 0 <= i < |before|
          ensures !Cong(before[i].from, shares[n].from)
        {
          assert before[i] in shares[..n];
        }
      }
    }
  }

  /** The shares that an interpolation uses, the first t valid ones, have distinct senders. */
  ghost predicate FirstDistinct(t: nat, com: Poly, shares: seq<Share>) {
    |ValidShares(com, shares)| >= t ==> DistinctSenders(ValidShares(com, shares)[..t])
  }

  lemma DistinctFirst(t: nat, com: Poly, shares: seq<Share>)
    requires DistinctSenders(shares)
    ensures FirstDistinct(t, com, shares)
  {
    ValidSharesAre(com, shares);
  }

  lemma ValidShareValue(com: Poly, sh: Share)
    requires Valid(com, sh)
    ensures Cong(sh.s, Eval(com, sh.from))
  {
  }

  /** Any t of the valid shares open to the committed value, whichever they are. */
  lemma OpensToCommitted(com: Poly, shares: seq<Share>, t: nat, x: int)
    requires |com| <= t <= |ValidShares(com, shares)| && FirstDistinct(t, com, shares)
    ensures var vs := ValidShares(com, shares)[..t];
            DistinctMod(Senders(vs)) && Interpolated(x, Senders(vs), Values(vs)) == At(com, x)
  {
    hide Eval;
    hide Valid;
    hide Red;
    ValidSharesAre(com, shares);
    var vs := ValidShares(com, shares)[..t];
    forall i | 0 <= i < t
      ensures Cong(Values(vs)[i], Eval(com, Senders(vs)[i]))
    {
      assert vs[i] == ValidShares(com, shares)[i];
      ValidShareValue(com, vs[i]);
    }
    InterpolatedIs(com, x, Senders(vs), Values(vs));
  }

  /** The filtering loop shared by every opening and combine. */
  method Filter(com: Poly, shares: seq<Share>) returns (parties: seq<nat>, values: seq<Scalar>, blamed: seq<nat>)
    ensures parties == Senders(ValidShares(com, shares)) && values == Values(ValidShares(com, shares))
    ensures blamed == Blamed(com, shares)
  {
    hide Eval;
    hide Red;
    parties, values, blamed := [], [], [];
    assert shares[..0] == [];
    for i := 0 to |shares|
      invariant parties == Senders(ValidShares(com, shares[..i])) && values == Values(ValidShares(com, shares[..i]))
      invariant blamed == Blamed(com, shares[..i])
    {
      assert shares[..i + 1][..i] == shares[..i];
      var e := EvalAtPoint(com, shares[i].from);
      if shares[i].s == e {
        parties, values := parties + [shares[i].from], values + [shares[i].s];
      } else {
        blamed := blamed + [shares[i].from];
      }
    }
    assert shares[..|shares|] == shares;
  }

  /** `open_at`: fail-fast opening at a point from the first t shares. */
  method OpenAt(point: int, t: nat, com: Poly, shares: seq<Share>) returns (r: Outcome<Scalar>)
    requires |com| <= t && DistinctSenders(shares)
    ensures r == OpenedAt(point, t, com, shares)
  {
    var parties, values, blamed := Filter(com, shares);
    if blamed != [] {
      return Abort(blamed);
    }
    if |parties| < t {
      return NotEnoughShares(|parties|, t);
    }
    DistinctFirst(t, com, shares);
    var v := InterpolateFirst(point, t, com, shares, parties, values);
    return Ok(v);
  }

  method InterpolateFirst(point: int, t: nat, com: Poly, shares: seq<Share>, parties: seq<nat>, values: seq<Scalar>)
    returns (v: Scalar)
    requires |com| <= t <= |parties| == |values| && FirstDistinct(t, com, shares)
    requires parties == Senders(ValidShares(com, shares)) && values == Values(ValidShares(com, shares))
    ensures v == At(com, point)
  {
    OpensToCommitted(com, shares, t, point);
    ghost var vs := ValidShares(com, shares)[..t];
    assert parties[..t] == Senders(vs) && values[..t] == Values(vs);
    v := InterpolateAt(point, parties[..t], values[..t]);
  }

  /** What a fail-fast opening returns, in terms of the committed polynomial alone. */
  ghost function OpenedAt(point: int, t: nat, com: Poly, shares: seq<Share>): Outcome<Scalar> {
    if Blamed(com, shares) != [] then Abort(Blamed(com, shares))
    else if |shares| < t then NotEnoughShares(|shares|, t)
    else Ok(At(com, point))
  }

  /** `open_robust`: bad shares are filtered, their senders returned, the value still opened. */
  method OpenRobust(t: nat, com: Poly, shares: seq<Share>) returns (r: Outcome<(Scalar, seq<nat>)>)
    requires |com| <= t && DistinctSenders(shares)
    ensures r == OpenedRobust(t, com, shares)
  {
    var parties, values, blamed := Filter(com, shares);
    if |parties| < t {
      return NotEnoughShares(|parties|, t);
    }
    DistinctFirst(t, com, shares);
    var v := InterpolateFirst(0, t, com, shares, parties, values);
    return Ok((v, blamed));
  }

  ghost function OpenedRobust(t: nat, com: Poly, shares: seq<Share>): Outcome<(Scalar, seq<nat>)> {
    var good := |ValidShares(com, shares)|;
    if good < t then NotEnoughShares(good, t) else Ok((At(com, 0), Blamed(com, shares)))
  }
}
