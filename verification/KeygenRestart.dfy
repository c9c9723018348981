/** Key generation with expulsion and restart (src/runtime/sim.rs): the loop of Restart over the
    protocol of EndToEnd.KeyGen, with nothing assumed about blame. */
module KeygenRestart {
  import opened Field
  import opened Bytes
  import opened Outcomes
  import opened Committees
  import opened IdLists
  import opened Dkg
  import opened Keys
  import opened Restart
  import EndToEnd

  /** An attempt's result: key shares, and nobody blamed along the way. */
  type Attempted = Outcome<(seq<KeyShare>, seq<nat>)>

  function KeySession(sid: bytes, t: nat): Session {
    EndToEnd.KeySession(sid, t)
  }

  /** What key generation promises about its result on the given messages. */
  ghost predicate IsKeyGen(ids: seq<nat>, t: nat, sid: bytes, d: Dealing, o: Attempted) {
    && FromCommittee(ids, KeySession(sid, t), d)
    && (o.Ok? || o.Abort? || o.InvalidParams?)
    && (o.Ok? ==> KeySet(o.value.0, t) && Matches(ids, o.value.0) && o.value.1 == [])
    && (o.InvalidParams? ==> SomethingMissing(ids, d))
    && (o.Abort? ==> Faulted(ids, KeySession(sid, t), d, o.blamed))
  }

  ghost predicate Faulted(ids: seq<nat>, z: Session, d: Dealing, blamed: seq<nat>) {
    exists me :: me in ids && me in d.shares && me in d.defenses && FirstFault(ids, z, InboxOf(d, me), me, blamed)
  }

  /** One attempt, by the protocol. */
  method KeyGenAttempt(c: Committee, sid: bytes, d: Dealing) returns (o: Attempted)
    requires c.Valid() && FromCommittee(c.ids, KeySession(sid, c.t), d)
    ensures IsKeyGen(c.ids, c.t, sid, d, o)
  {
    hide FromCommittee;
    hide Accepted;
    hide FirstFault;
    hide KeySet;
    hide SomethingMissing;
    var r := EndToEnd.KeyGen(c, sid, d);
    match r {
      case Ok(keys) => return Ok((keys, []));
      case Abort(blamed) => return Abort(blamed);
      case _ => return InvalidParams;
    }
  }

  /** `run` is key generation over 1..n' on the messages `deal` gives for the attempt; parameters
      below the honest-majority bound are refused. */
  ghost predicate RunsKeyGen<R(!new)>(n: nat, t: nat, deal: (nat, nat, bytes, seq<R>) -> Dealing,
                                      run: (nat, nat, bytes, seq<R>) -> Attempted) {
    forall k, n', s, rs :: AttemptIs(n, t, deal(k, n', s, rs), run(k, n', s, rs), n', s)
  }

  ghost predicate AttemptIs(n: nat, t: nat, d: Dealing, o: Attempted, n': nat, sid: bytes) {
    if 2 * t - 1 <= n' <= n then IsKeyGen(OneTo(n'), t, sid, d, o) else o == InvalidParams
  }

  /** The positions of the members of `bad` in an attempt. */
  ghost function Local(ids: seq<nat>, bad: set<nat>): set<nat> {
    set k | 0 <= k < |ids| && ids[k] in bad :: k + 1
  }

  /** In every attempt over survivors, everybody outside `bad` follows the protocol, and everybody
      sends its messages. */
  ghost predicate Orderly<R>(t: nat, sid: bytes, rngs: seq<R>, deal: (nat, nat, bytes, seq<R>) -> Dealing,
                             bad: set<nat>) {
    forall k, ids :: Within(ids, |rngs|) && StrictlyIncreasing(ids) ==> OrderlyAttempt(t, sid, rngs, deal, bad, k, ids)
  }

  ghost predicate OrderlyAttempt<R>(t: nat, sid: bytes, rngs: seq<R>, deal: (nat, nat, bytes, seq<R>) -> Dealing,
                                    bad: set<nat>,
                                    k: nat, ids: seq<nat>)
    requires Within(ids, |rngs|)
  {
    var d := deal(k, |ids|, PoisonSid(sid, k), Own(rngs, ids));
    Behaved(OneTo(|ids|), KeySession(PoisonSid(sid, k), t), d, Local(ids, bad)) && !SomethingMissing(OneTo(|ids|), d)
  }

  /** `run_keygen_with_restart` over real key generation.  With n >= 3t - 2 and at most t - 1
      misbehaving parties, none of them silent, it ends with keys; whoever was blamed misbehaved. */
  method KeygenWithRestart<R(!new)>(n: nat, t: nat, sid: bytes, rngs: seq<R>,
                             run: (nat, nat, bytes, seq<R>) -> Attempted,
                                    ghost deal: (nat, nat, bytes, seq<R>) -> Dealing, ghost bad: set<nat>)
    returns (r: Attempted)
    requires t >= 1 && 2 * t - 1 <= n < Q && |rngs| == n && RunsKeyGen(n, t, deal, run)
    ensures r.Ok? ==> KeySet(r.value.0, t) && |r.value.0| >= 2 * t - 1
    ensures Orderly(t, sid, rngs, deal, bad) ==>
      (r.Ok? ==> Members(r.value.1) <= bad) && (n >= 3 * t - 2 && |bad| <= t - 1 ==> r.Ok?)
  {
    ghost var rounds, current, late;
    forall k, n', s, rs
      ensures NamesLocals(run(k, n', s, rs), n')
    {
      assert AttemptIs(n, t, deal(k, n', s, rs), run(k, n', s, rs), n', s);
      AttemptNames(n, t, deal(k, n', s, rs), run(k, n', s, rs), n', s);
    }
    r, rounds, current, late := RunRenumbered(n, t, sid, rngs, run);
    LastAttemptIs(n, t, sid, rngs, run, deal, r, rounds, current, late);
    if Orderly(t, sid, rngs, deal, bad) {
      OrderlyBlame(n, t, sid, rngs, run, deal, bad);
      NeverAborts(n, t, sid, rngs, run, r, rounds, current, late, bad);
      LastAttemptComplete(n, t, sid, rngs, run, deal, bad, r, rounds, current, late);
    }
  }

  // ---------------------------------------------------------------- blame of one attempt

  lemma FaultNames(ids: seq<nat>, z: Session, m: Inbox, me: nat, blamed: seq<nat>)
    requires FirstFault(ids, z, m, me, blamed) && me in ids
    ensures |blamed| == 1 && blamed[0] in ids
  {
    hide GoodDealer;
    hide GoodShare;
    hide Revealed;
    hide AllGood;
  }

  lemma OneToHas(n: nat, j: nat)
    ensures j in OneTo(n) <==> 1 <= j <= n
  {
    if 1 <= j <= n {
      assert OneTo(n)[j - 1] == j;
    }
  }

  lemma AttemptNames(n: nat, t: nat, d: Dealing, o: Attempted, n': nat, sid: bytes)
    requires AttemptIs(n, t, d, o, n', sid)
    ensures NamesLocals(o, n')
  {
    hide FirstFault;
    hide FromCommittee;
    hide KeySet;
    hide SomethingMissing;
    hide OneTo;
    if o.Abort? {
      var ids, z := OneTo(n'), KeySession(sid, t);
      var me :| me in ids && me in d.shares && me in d.defenses && FirstFault(ids, z, InboxOf(d, me), me, o.blamed);
      FaultNames(ids, z, InboxOf(d, me), me, o.blamed);
      OneToHas(n', o.blamed[0]);
    }
  }

  /** An abort of an orderly attempt blames a member of `bad`, once mapped back. */
  lemma AttemptBlame(ids: seq<nat>, t: nat, sid: bytes, d: Dealing, blamed: seq<nat>, bad: set<nat>)
    requires Behaved(OneTo(|ids|), KeySession(sid, t), d, Local(ids, bad))
    requires Faulted(OneTo(|ids|), KeySession(sid, t), d, blamed)
    requires forall b :: b in blamed ==> 1 <= b <= |ids|
    ensures Members(Originals(ids, blamed)) <= bad
  {
    hide FirstFault;
    hide Behaved;
    hide OneTo;
    var all, z := OneTo(|ids|), KeySession(sid, t);
    var me :| me in all && me in d.shares && me in d.defenses && FirstFault(all, z, InboxOf(d, me), me, blamed);
    BlameIsEarned(all, z, d, Local(ids, bad), me, blamed);
    assert blamed[0] in Members(blamed);
  }

  // ---------------------------------------------------------------- the loop

  lemma OrderlyBlame<R(!new)>(n: nat, t: nat, sid: bytes, rngs: seq<R>,
                                 run: (nat, nat, bytes, seq<R>) -> Attempted,
                                 deal: (nat, nat, bytes, seq<R>) -> Dealing, bad: set<nat>)
    requires RunsKeyGen(n, t, deal, run) && Orderly(t, sid, rngs, deal, bad)
    ensures OnlyNames(sid, rngs, run, bad)
  {
    hide RunsKeyGen;
    hide Orderly;
    hide Blames;
    forall k, ids, blamed | StrictlyIncreasing(ids) && Blames(sid, rngs, run, k, ids, blamed)
      ensures Members(blamed) <= bad
    {
      OneBlame(n, t, sid, rngs, run, deal, bad, k, ids, blamed);
    }
  }

  lemma OneBlame<R(!new)>(n: nat, t: nat, sid: bytes, rngs: seq<R>,
                                 run: (nat, nat, bytes, seq<R>) -> Attempted,
                                 deal: (nat, nat, bytes, seq<R>) -> Dealing, bad: set<nat>,
                          k: nat, ids: seq<nat>, blamed: seq<nat>)
    requires RunsKeyGen(n, t, deal, run) && Orderly(t, sid, rngs, deal, bad)
    requires StrictlyIncreasing(ids) && Blames(sid, rngs, run, k, ids, blamed)
    ensures Members(blamed) <= bad
  {
    hide Behaved;
    hide KeySet;
    hide FromCommittee;
    hide Faulted;
    hide SomethingMissing;
    hide Local;
    hide PoisonSid;
    var s, rs := PoisonSid(sid, k), Own(rngs, ids);
    var d, o := deal(k, |ids|, s, rs), run(k, |ids|, s, rs);
    assert AttemptIs(n, t, d, o, |ids|, s);
    assert OrderlyAttempt(t, sid, rngs, deal, bad, k, ids);
    if o.Abort? {
      AttemptBlame(ids, t, s, d, o.blamed, bad);
    }
  }

  lemma LastAttemptIs<R(!new)>(n: nat, t: nat, sid: bytes, rngs: seq<R>,
                                 run: (nat, nat, bytes, seq<R>) -> Attempted,
                                 deal: (nat, nat, bytes, seq<R>) -> Dealing,
                               r: Attempted, rounds: seq<Round>, current: seq<nat>, late: seq<nat>)
    requires t >= 1 && RunsKeyGen(n, t, deal, run) && RenumberedRun(n, t, sid, rngs, run, r, rounds, current, late)
    ensures r.Ok? ==> KeySet(r.value.0, t) && |r.value.0| >= 2 * t - 1
    ensures r.Ok? || r.Abort? || r.InvalidParams?
    ensures r.InvalidParams? ==>
      Within(current, |rngs|)
      && SomethingMissing(OneTo(|current|), deal(|rounds|, |current|, PoisonSid(sid, |rounds|), Own(rngs, current)))
  {
    hide History;
    hide KeySet;
    hide FromCommittee;
    hide Faulted;
    hide SomethingMissing;
    hide PoisonSid;
    hide Originals;
    CommitteesShrink(n, t, rounds, current);
    var s, rs := PoisonSid(sid, |rounds|), Own(rngs, current);
    assert AttemptIs(n, t, deal(|rounds|, |current|, s, rs), run(|rounds|, |current|, s, rs), |current|, s);
  }

  /** With nobody silent the last attempt either ends with keys or aborts. */
  lemma LastAttemptComplete<R(!new)>(n: nat, t: nat, sid: bytes, rngs: seq<R>,
                                 run: (nat, nat, bytes, seq<R>) -> Attempted,
                                 deal: (nat, nat, bytes, seq<R>) -> Dealing, bad: set<nat>,
                                     r: Attempted, rounds: seq<Round>, current: seq<nat>, late: seq<nat>)
    requires t >= 1 && RunsKeyGen(n, t, deal, run) && RenumberedRun(n, t, sid, rngs, run, r, rounds, current, late)
    requires Orderly(t, sid, rngs, deal, bad)
    ensures r.Ok? || r.Abort?
  {
    hide History;
    hide KeySet;
    hide RunsKeyGen;
    hide Behaved;
    hide SomethingMissing;
    hide PoisonSid;
    hide Originals;
    LastAttemptIs(n, t, sid, rngs, run, deal, r, rounds, current, late);
    HistoryOrdered(n, t, rounds, current);
    assert OrderlyAttempt(t, sid, rngs, deal, bad, |rounds|, current);
  }
}
