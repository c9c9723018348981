/** Expel and restart (src/runtime/policy.rs, src/runtime/sim.rs): an aborted attempt is repeated
    without the blamed parties while enough remain.  What an attempt returns is arbitrary, except
    that an abort names at least one member of the attempt's committee. */
module Restart {
  import opened Bytes
  import opened Outcomes
  import opened Committees
  import opened IdLists

  // ---------------------------------------------------------------- policy

  /** `restart_committee`: the survivors, or a refusal below 2t - 1. */
  method RestartCommittee(current: seq<nat>, blamed: seq<nat>, t: nat) returns (r: Outcome<seq<nat>>)
    ensures r.Ok? || r.InvalidParams?
    ensures r.Ok? <==> t >= 1 && |Remaining(current, Members(blamed))| >= 2 * t - 1
    ensures r.Ok? ==> Ordered(r.value) && multiset(r.value) == multiset(Remaining(current, Members(blamed)))
    ensures r.Ok? && StrictlyIncreasing(current) ==> r.value == Remaining(current, Members(blamed))
  {
    if t < 1 {
      return InvalidParams;
    }
    var kept := Survivors(current, blamed);
    var survivors := Sort(kept);
    SortOrdered(kept);
    SameSize(survivors, kept);
    if |survivors| < 2 * t - 1 {
      return InvalidParams;
    }
    if StrictlyIncreasing(current) {
      RemainingMembers(current, Members(blamed));
      SortedAlready(kept);
    }
    return Ok(survivors);
  }

  method Survivors(current: seq<nat>, blamed: seq<nat>) returns (r: seq<nat>)
    ensures r == Remaining(current, Members(blamed))
  {
    r := [];
    assert current[..0] == [];
    for i := 0 to |current|
      invariant r == Remaining(current[..i], Members(blamed))
    {
      assert current[..i + 1][..i] == current[..i];
      if current[i] !in blamed {
        r := r + [current[i]];
      }
    }
    assert current[..|current|] == current;
  }

  lemma SameSize(r: seq<nat>, s: seq<nat>)
    requires multiset(r) == multiset(s)
    ensures |r| == |s|
  {
    assert |multiset(r)| == |r| && |multiset(s)| == |s|;
  }

  /** Sorting a sorted list changes nothing. */
  lemma {:induction false} SortedAlready(s: seq<nat>)
    requires StrictlyIncreasing(s)
    ensures Sort(s) == s
    decreases |s|
  {
    if s != [] {
      SortedAlready(s[1..]);
      assert s == [s[0]] + s[1..];
    }
  }

  // ---------------------------------------------------------------- poisoned session ids

  /** `poison_sid`: every attempt has its own session id. */
  function PoisonSid(sid: bytes, attempt: nat): bytes {
    if attempt == 0 then sid else sid + Ascii("/retry-") + BigEndian(attempt, 8)
  }

  /** The first attempt runs under the caller's session id, every attempt under an extension of it,
      and no two under the same. */
  lemma PoisonedSidsDiffer(sid: bytes, i: nat, j: nat)
    requires i < j < Pow256(8)
    ensures PoisonSid(sid, i) != PoisonSid(sid, j)
    ensures PoisonSid(sid, 0) == sid && sid <= PoisonSid(sid, i) && sid <= PoisonSid(sid, j)
  {
    var head := sid + Ascii("/retry-");
    if i == 0 {
      assert |PoisonSid(sid, j)| > |sid|;
    } else if PoisonSid(sid, i) == PoisonSid(sid, j) {
      assert (head + BigEndian(i, 8))[|head|..] == BigEndian(i, 8);
      assert (head + BigEndian(j, 8))[|head|..] == BigEndian(j, 8);
      BigEndianInjective(i, j, 8);
    }
  }

  // ---------------------------------------------------------------- histories

  /** One aborted attempt: its committee and the members it blamed, in original ids. */
  datatype Round = Round(ids: seq<nat>, blamed: seq<nat>)

  /** Everyone blamed in the first k rounds. */
  ghost function EverBlamed(rounds: seq<Round>, k: nat): set<nat>
    requires k <= |rounds|
  {
    if k == 0 then {} else EverBlamed(rounds, k - 1) + Members(rounds[k - 1].blamed)
  }

  ghost predicate ProperRound(r: Round, t: nat) {
    StrictlyIncreasing(r.ids) && |r.ids| >= 2 * t - 1 && r.blamed != [] && Members(r.blamed) <= Members(r.ids)
  }

  /** A history of expulsions from the full committee down to `current`. */
  ghost predicate History(n: nat, t: nat, rounds: seq<Round>, current: seq<nat>) {
    && (forall k :: 0 <= k < |rounds| ==> ProperRound(rounds[k], t))
    && (forall k :: 0 <= k < |rounds| - 1 ==> rounds[k + 1].ids == Remaining(rounds[k].ids, Members(rounds[k].blamed)))
    && (if rounds == [] then current == OneTo(n)
        else
          var last := rounds[|rounds| - 1];
          rounds[0].ids == OneTo(n) && current == Remaining(last.ids, Members(last.blamed)))
    && StrictlyIncreasing(current) && |current| >= 2 * t - 1
  }

  /** At every point of a history the survivors and the blamed so far partition the original
      committee. */
  lemma {:induction false} HistoryPartitions(n: nat, t: nat, rounds: seq<Round>, current: seq<nat>)
    requires History(n, t, rounds, current)
    ensures Members(current) == Members(OneTo(n)) - EverBlamed(rounds, |rounds|)
    ensures EverBlamed(rounds, |rounds|) <= Members(OneTo(n))
    ensures |current| == n - |EverBlamed(rounds, |rounds|)|
    decreases |rounds|
  {
    hide Remaining;
    if rounds == [] {
      assert Members(current) == Members(OneTo(n)) - {};
    } else {
      var k := |rounds| - 1;
      var last := rounds[k];
      HistoryBefore(n, t, rounds, current);
      HistoryPartitions(n, t, rounds[..k], last.ids);
      EverBlamedPrefix(rounds, k);
      OneExpulsion(Members(OneTo(n)), EverBlamed(rounds, k), last, current);
      assert ProperRound(last, t);
    }
    hide History;
    CountSurvivors(n, current, EverBlamed(rounds, |rounds|));
  }

  lemma OneExpulsion(all: set<nat>, gone: set<nat>, last: Round, current: seq<nat>)
    requires Members(last.ids) == all - gone && current == Remaining(last.ids, Members(last.blamed))
    ensures Members(current) == all - (gone + Members(last.blamed))
  {
    hide Remaining;
    RemainingMembers(last.ids, Members(last.blamed));
    forall j
      ensures j in Members(current) <==> j in all - (gone + Members(last.blamed))
    {
      assert j in Members(last.ids) <==> j in last.ids;
      assert j in Members(current) <==> j in current;
    }
  }

  lemma CountSurvivors(n: nat, current: seq<nat>, gone: set<nat>)
    requires StrictlyIncreasing(current) && gone <= Members(OneTo(n)) && Members(current) == Members(OneTo(n)) - gone
    ensures |current| == n - |gone|
  {
    DistinctCount(current);
    DistinctCount(OneTo(n));
    hide Members;
    var all := Members(OneTo(n));
    assert all == (all - gone) + gone;
  }

  lemma HistoryBefore(n: nat, t: nat, rounds: seq<Round>, current: seq<nat>)
    requires rounds != [] && History(n, t, rounds, current)
    ensures History(n, t, rounds[..|rounds| - 1], rounds[|rounds| - 1].ids)
  {
    hide Remaining;
    var k := |rounds| - 1;
    assert ProperRound(rounds[k], t);
    if k > 0 {
      assert rounds[k - 1 + 1].ids == Remaining(rounds[k - 1].ids, Members(rounds[k - 1].blamed));
    }
  }

  lemma {:induction false} EverBlamedPrefix(rounds: seq<Round>, k: nat)
    requires k <= |rounds|
    ensures EverBlamed(rounds[..k], k) == EverBlamed(rounds, k)
    decreases k
  {
    PrefixBlamed(rounds, rounds[..k], k);
  }

  lemma {:induction false} PrefixBlamed(rounds: seq<Round>, part: seq<Round>, k: nat)
    requires k <= |rounds| && k <= |part| && forall i :: 0 <= i < k ==> part[i] == rounds[i]
    ensures EverBlamed(part, k) == EverBlamed(rounds, k)
    decreases k
  {
    if k > 0 {
      PrefixBlamed(rounds, part, k - 1);
    }
  }

  /** Every round expels somebody: committees strictly shrink, so there are at most n attempts. */
  lemma RoundShrinks(r: Round, t: nat)
    requires ProperRound(r, t)
    ensures |Remaining(r.ids, Members(r.blamed))| < |r.ids|
  {
    var kept := Remaining(r.ids, Members(r.blamed));
    RemainingMembers(r.ids, Members(r.blamed));
    DistinctCount(kept);
    DistinctCount(r.ids);
    assert r.blamed[0] in Members(r.blamed);
    assert Members(kept) <= Members(r.ids) - {r.blamed[0]};
    SubsetSize(Members(kept), Members(r.ids) - {r.blamed[0]});
  }

  lemma HistoryGrows(n: nat, t: nat, rounds: seq<Round>, current: seq<nat>, blamed: seq<nat>)
    requires History(n, t, rounds, current) && blamed != [] && Members(blamed) <= Members(current)
    requires |Remaining(current, Members(blamed))| >= 2 * t - 1
    ensures History(n, t, rounds + [Round(current, blamed)], Remaining(current, Members(blamed)))
    ensures EverBlamed(rounds + [Round(current, blamed)], |rounds| + 1) ==
      EverBlamed(rounds, |rounds|) + Members(blamed)
    ensures |Remaining(current, Members(blamed))| < |current|
    ensures forall s :: s in Remaining(current, Members(blamed)) ==> s in current
  {
    hide Remaining;
    hide Members;
    hide EverBlamed;
    RoundShrinks(Round(current, blamed), t);
    var more := rounds + [Round(current, blamed)];
    RemainingMembers(current, Members(blamed));
    PrefixBlamed(rounds, more, |rounds|);
    assert more[|rounds|] == Round(current, blamed);
    LastBlamed(more, |rounds|);
  }

  lemma LastBlamed(rounds: seq<Round>, k: nat)
    requires k < |rounds|
    ensures EverBlamed(rounds, k + 1) == EverBlamed(rounds, k) + Members(rounds[k].blamed)
  {
  }

  /** The next round could not be played: too many have been blamed altogether. */
  lemma RefusalMeansMany(n: nat, t: nat, rounds: seq<Round>, current: seq<nat>, blamed: seq<nat>)
    requires History(n, t, rounds, current) && Members(blamed) <= Members(current) && t >= 1
    requires |Remaining(current, Members(blamed))| < 2 * t - 1
    ensures n - |EverBlamed(rounds, |rounds|) + Members(blamed)| < 2 * t - 1
  {
    hide Remaining;
    HistoryPartitions(n, t, rounds, current);
    var kept, gone := Remaining(current, Members(blamed)), EverBlamed(rounds, |rounds|);
    OneExpulsion(Members(OneTo(n)), gone, Round(current, blamed), kept);
    RemainingMembers(current, Members(blamed));
    hide History;
    hide EverBlamed;
    CountSurvivors(n, kept, gone + Members(blamed));
  }

  lemma HistoryStarts<R>(n: nat, t: nat, original: seq<R>)
    requires t >= 1 && n >= 2 * t - 1 && |original| == n
    ensures History(n, t, [], OneTo(n)) && EverBlamed([], 0) == Members([]) && Within(OneTo(n), n)
      && original == Own(original, OneTo(n))
  {
  }

  lemma NobodyBlamed()
    ensures Members([]) == {} && StrictlyIncreasing([])
  {
  }

  lemma HistoryOrdered(n: nat, t: nat, rounds: seq<Round>, current: seq<nat>)
    requires History(n, t, rounds, current)
    ensures StrictlyIncreasing(current)
  {
  }

  lemma RoundOrdered(n: nat, t: nat, rounds: seq<Round>, current: seq<nat>, k: nat)
    requires History(n, t, rounds, current) && k < |rounds|
    ensures StrictlyIncreasing(rounds[k].ids)
  {
    assert ProperRound(rounds[k], t);
  }

  // ---------------------------------------------------------------- the loops

  /** Cumulative blame: no duplicates, sorted. */
  method AddBlame(blamedAll: seq<nat>, more: seq<nat>) returns (r: seq<nat>)
    requires StrictlyIncreasing(blamedAll)
    ensures StrictlyIncreasing(r) && Members(r) == Members(blamedAll) + Members(more)
  {
    var list := blamedAll;
    assert Members(more[..0]) == {};
    for i := 0 to |more|
      invariant NoRepeats(list) && Members(list) == Members(blamedAll) + Members(more[..i])
    {
      assert more[..i + 1] == more[..i] + [more[i]];
      MembersSnoc(more[..i], more[i]);
      MembersSnoc(list, more[i]);
      if more[i] !in list {
        list := list + [more[i]];
      } else {
        assert more[i] in Members(list);
      }
    }
    assert more[..|more|] == more;
    r := Sort(list);
    SortOrdered(list);
    SameMembers(r, list);
    NoRepeatsSurvive(list, r);
  }

  /** `survivor_positions`. */
  method SurvivorPositions(current: seq<nat>, survivors: seq<nat>) returns (r: seq<nat>)
    requires forall s :: s in survivors ==> s in current
    ensures |r| == |survivors| && forall k :: 0 <= k < |r| ==> r[k] < |current| && current[r[k]] == survivors[k]
  {
    r := [];
    for k := 0 to |survivors|
      invariant |r| == k && forall i :: 0 <= i < k ==> r[i] < |current| && current[r[i]] == survivors[i]
    {
      assert survivors[k] in survivors;
      var p := Position(current, survivors[k]);
      r := r + [p];
    }
  }

  predicate Within(ids: seq<nat>, n: nat) {
    forall k :: 0 <= k < |ids| ==> 1 <= ids[k] <= n
  }

  /** The entries of a per-party array that belong to the listed parties. */
  ghost function Own<R>(original: seq<R>, ids: seq<nat>): (r: seq<R>)
    requires Within(ids, |original|)
    ensures |r| == |ids| && forall k :: 0 <= k < |ids| ==> r[k] == original[ids[k] - 1]
  {
    seq(|ids|, k requires 0 <= k < |ids| => original[ids[k] - 1])
  }

  method Realign<R>(ghost original: seq<R>, current: seq<nat>, cur: seq<R>, survivors: seq<nat>) returns (r: seq<R>)
    requires Within(current, |original|) && cur == Own(original, current) && forall s :: s in survivors ==> s in current
    ensures Within(survivors, |original|) && r == Own(original, survivors)
  {
    var positions := SurvivorPositions(current, survivors);
    forall k | 0 <= k < |survivors|
      ensures 1 <= survivors[k] <= |original|
    {
      assert survivors[k] == current[positions[k]];
    }
    r := seq(|positions|, k requires 0 <= k < |positions| => cur[positions[k]]);
  }

  /** Local ids 1..n' of an attempt, back to original ids. */
  function Originals(current: seq<nat>, local: seq<nat>): (r: seq<nat>)
    requires forall b :: b in local ==> 1 <= b <= |current|
    ensures |r| == |local| && forall k :: 0 <= k < |r| ==> local[k] in local && r[k] == current[local[k] - 1]
  {
    seq(|local|, k requires 0 <= k < |local| => assert local[k] in local; current[local[k] - 1])
  }

  lemma OriginalsAreMembers(current: seq<nat>, local: seq<nat>)
    requires forall b :: b in local ==> 1 <= b <= |current|
    ensures Members(Originals(current, local)) <= Members(current)
  {
    forall j | j in Members(Originals(current, local))
      ensures j in Members(current)
    {
      var k :| 0 <= k < |local| && Originals(current, local)[k] == j;
      assert local[k] in local;
    }
  }

  /** An attempt over 1..n': aborts and in-attempt blame name its members. */
  ghost predicate NamesLocals<T>(o: Outcome<(T, seq<nat>)>, n: nat) {
    && (o.Abort? ==> o.blamed != [] && forall b :: b in o.blamed ==> 1 <= b <= n)
    && (o.Ok? ==> forall b :: b in o.value.1 ==> 1 <= b <= n)
  }

  /** The parties an attempt names, in its own numbering. */
  function Named<T>(o: Outcome<(T, seq<nat>)>): seq<nat> {
    match o
    case Ok(v) => v.1
    case Abort(blamed) => blamed
    case _ => []
  }

  /** How a run with restarts ended: its history, the last committee, and everyone blamed. */
  ghost predicate Ended<T>(n: nat, t: nat, rounds: seq<Round>, current: seq<nat>, r: Outcome<(T, seq<nat>)>,
                           late: seq<nat>) {
    && History(n, t, rounds, current) && Members(late) <= Members(current)
    && (r.Ok? ==> StrictlyIncreasing(r.value.1) && Members(r.value.1) == EverBlamed(rounds, |rounds|) + Members(late))
    && (r.Abort? ==> late != [] && n - |EverBlamed(rounds, |rounds|) + Members(late)| < 2 * t - 1)
  }

  /** The run returns what its last attempt returned, blame list aside. */
  ghost predicate Returns<T>(r: Outcome<(T, seq<nat>)>, o: Outcome<(T, seq<nat>)>) {
    if o.Ok? then r.Ok? && r.value.0 == o.value.0 else r == o
  }

  /** Attempt k over the given survivors: its own session id, and each survivor's own generator. */
  ghost function Attempt<T, R>(sid: bytes, rngs: seq<R>, run: (nat, nat, bytes, seq<R>) -> Outcome<(T, seq<nat>)>,
                               k: nat, ids: seq<nat>):
      Outcome<(T, seq<nat>)>
    requires Within(ids, |rngs|)
  {
    run(k, |ids|, PoisonSid(sid, k), Own(rngs, ids))
  }

  /** Attempt k over `ids` blames exactly the parties of `blamed`, whatever numbers it uses. */
  ghost predicate Blames<T, R>(sid: bytes, rngs: seq<R>, run: (nat, nat, bytes, seq<R>) -> Outcome<(T, seq<nat>)>,
                               k: nat,
                               ids: seq<nat>, blamed: seq<nat>) {
    && Within(ids, |rngs|)
    && var o := Attempt(sid, rngs, run, k, ids);
       (forall b :: b in Named(o) ==> 1 <= b <= |ids|) && blamed == Originals(ids, Named(o))
  }

  ghost predicate Expelled<T, R>(sid: bytes, rngs: seq<R>, run: (nat, nat, bytes, seq<R>) -> Outcome<(T, seq<nat>)>,
                                 k: nat, g: Round) {
    Blames(sid, rngs, run, k, g.ids, g.blamed) && Attempt(sid, rngs, run, k, g.ids).Abort?
  }

  /** A whole run with renumbering: every round of the history is an aborted attempt and expels
      exactly whom that attempt blamed, and the last attempt gives the result. */
  ghost predicate RenumberedRun<T, R>(n: nat, t: nat, sid: bytes, rngs: seq<R>,
                                      run: (nat, nat, bytes, seq<R>) -> Outcome<(T, seq<nat>)>,
                                      r: Outcome<(T, seq<nat>)>, rounds: seq<Round>, current: seq<nat>,
                                      late: seq<nat>) {
    && Ended(n, t, rounds, current, r, late)
    && (forall k :: 0 <= k < |rounds| ==> Expelled(sid, rngs, run, k, rounds[k]))
    && Blames(sid, rngs, run, |rounds|, current, late)
    && Returns(r, Attempt(sid, rngs, run, |rounds|, current))
  }

  lemma AttemptBlames<T, R>(sid: bytes, rngs: seq<R>, run: (nat, nat, bytes, seq<R>) -> Outcome<(T, seq<nat>)>, k: nat,
                            ids: seq<nat>,
                            o: Outcome<(T, seq<nat>)>)
    requires Within(ids, |rngs|) && o == run(k, |ids|, PoisonSid(sid, k), Own(rngs, ids)) && NamesLocals(o, |ids|)
    ensures o == Attempt(sid, rngs, run, k, ids)
    ensures forall b :: b in Named(o) ==> 1 <= b <= |ids|
    ensures Blames(sid, rngs, run, k, ids, Originals(ids, Named(o)))
      && Members(Originals(ids, Named(o))) <= Members(ids)
    ensures o.Abort? ==>
      Expelled(sid, rngs, run, k, Round(ids, Originals(ids, Named(o)))) && Originals(ids, Named(o)) != []
  {
    OriginalsAreMembers(ids, Named(o));
  }

  /** `run_keygen_with_restart` and `run_triples_with_restart`: attempts renumber, blame is mapped
      back.  `late` is the blame of the final attempt, in original ids; a refused abort is
      propagated as the attempt raised it, in the attempt's own numbering. */
  method RunRenumbered<T, R>(n: nat, t: nat, sid: bytes, rngs: seq<R>,
                             run: (nat, nat, bytes, seq<R>) -> Outcome<(T, seq<nat>)>)
    returns (r: Outcome<(T, seq<nat>)>, ghost rounds: seq<Round>, ghost current: seq<nat>, ghost late: seq<nat>)
    requires t >= 1 && n >= 2 * t - 1 && |rngs| == n
    requires forall k, n', s, rs :: NamesLocals(run(k, n', s, rs), n')
    ensures RenumberedRun(n, t, sid, rngs, run, r, rounds, current, late)
  {
    hide Remaining;
    hide Blames;
    hide Expelled;
    hide Attempt;
    hide PoisonSid;
    hide Originals;
    hide StrictlyIncreasing;
    hide Members;
    hide EverBlamed;
    hide History;
    hide OneTo;
    HistoryStarts(n, t, rngs);
    NobodyBlamed();
    var cur: seq<nat>, curRngs: seq<R>, blamedAll: seq<nat>, attempt: nat := OneTo(n), rngs, [], 0;
    rounds := [];
    while true
      invariant History(n, t, rounds, cur) && attempt == |rounds|
      invariant Within(cur, n) && curRngs == Own(rngs, cur)
      invariant forall k :: 0 <= k < |rounds| ==> Expelled(sid, rngs, run, k, rounds[k])
      invariant StrictlyIncreasing(blamedAll) && Members(blamedAll) == EverBlamed(rounds, |rounds|)
      decreases |cur|
    {
      current := cur;
      HistoryOrdered(n, t, rounds, cur);
      NobodyBlamed();
      var o := run(attempt, |cur|, PoisonSid(sid, attempt), curRngs);
      assert NamesLocals(o, |cur|);
      AttemptBlames(sid, rngs, run, attempt, cur, o);
      var blamed := Originals(cur, Named(o));
      late := blamed;
      if o.Ok? {
        var all := AddBlame(blamedAll, blamed);
        r := Ok((o.value.0, all));
        return;
      } else if !o.Abort? {
        r := o;
        return;
      }
      blamedAll := AddBlame(blamedAll, blamed);
      var survivors := RestartCommittee(cur, blamed, t);
      if !survivors.Ok? {
        RefusalMeansMany(n, t, rounds, cur, blamed);
        r := o;
        return;
      }
      HistoryGrows(n, t, rounds, cur, blamed);
      curRngs := Realign(rngs, cur, curRngs, survivors.value);
      rounds := rounds + [Round(cur, blamed)];
      cur := survivors.value;
      attempt := attempt + 1;
    }
  }

  ghost function OwnAttempt<T, K>(firstId: nat, keys: seq<K>, run: (nat, seq<nat>, seq<K>) -> Outcome<(T, seq<nat>)>,
                                  k: nat, ids: seq<nat>):
      Outcome<(T, seq<nat>)>
    requires Within(ids, |keys|)
  {
    run(firstId + k, ids, Own(keys, ids))
  }

  ghost predicate OwnBlames<T, K>(firstId: nat, keys: seq<K>, run: (nat, seq<nat>, seq<K>) -> Outcome<(T, seq<nat>)>,
                                  k: nat,
                                  ids: seq<nat>, blamed: seq<nat>) {
    Within(ids, |keys|) && blamed == Named(OwnAttempt(firstId, keys, run, k, ids))
  }

  ghost predicate OwnExpelled<T, K>(firstId: nat, keys: seq<K>, run: (nat, seq<nat>, seq<K>) -> Outcome<(T, seq<nat>)>,
                                    k: nat, g: Round) {
    OwnBlames(firstId, keys, run, k, g.ids, g.blamed) && OwnAttempt(firstId, keys, run, k, g.ids).Abort?
  }

  /** A whole run with original ids: attempt k has presignature id firstId + k. */
  ghost predicate KeepingRun<T, K>(n: nat, t: nat, firstId: nat, keys: seq<K>,
                                   run: (nat, seq<nat>, seq<K>) -> Outcome<(T, seq<nat>)>,
                                   r: Outcome<(T, seq<nat>)>, id: nat, rounds: seq<Round>, current: seq<nat>,
                                   late: seq<nat>) {
    && Ended(n, t, rounds, current, r, late) && id == firstId + |rounds|
    && (forall k :: 0 <= k < |rounds| ==> OwnExpelled(firstId, keys, run, k, rounds[k]))
    && OwnBlames(firstId, keys, run, |rounds|, current, late)
    && Returns(r, OwnAttempt(firstId, keys, run, |rounds|, current))
  }

  /** `run_presign_with_restart`: survivors keep their ids, and every attempt has its own
      presignature id. */
  method RunKeepingIds<T, K>(n: nat, t: nat, firstId: nat, keys: seq<K>,
                             run: (nat, seq<nat>, seq<K>) -> Outcome<(T, seq<nat>)>)
    returns (r: Outcome<(T, seq<nat>)>, id: nat,
             ghost rounds: seq<Round>, ghost current: seq<nat>, ghost late: seq<nat>)
    requires t >= 1 && n >= 2 * t - 1 && |keys| == n
    requires forall k, ids, ks :: NamesMembers(run(k, ids, ks), ids)
    ensures KeepingRun(n, t, firstId, keys, run, r, id, rounds, current, late)
  {
    hide Remaining;
    hide Members;
    hide EverBlamed;
    hide History;
    hide OneTo;
    HistoryStarts(n, t, keys);
    var cur: seq<nat>, curKeys: seq<K>, blamedAll: seq<nat>, attempt: nat := OneTo(n), keys, [], 0;
    rounds := [];
    while true
      invariant History(n, t, rounds, cur) && attempt == |rounds|
      invariant Within(cur, n) && curKeys == Own(keys, cur)
      invariant forall k :: 0 <= k < |rounds| ==> OwnExpelled(firstId, keys, run, k, rounds[k])
      invariant StrictlyIncreasing(blamedAll) && Members(blamedAll) == EverBlamed(rounds, |rounds|)
      decreases |cur|
    {
      current := cur;
      HistoryOrdered(n, t, rounds, cur);
      NobodyBlamed();
      id := firstId + attempt;
      var o := run(id, cur, curKeys);
      assert o == OwnAttempt(firstId, keys, run, attempt, cur);
      assert NamesMembers(o, cur);
      var blamed := Named(o);
      late := blamed;
      NobodyBlamed();
      if o.Ok? {
        var all := AddBlame(blamedAll, blamed);
        r := Ok((o.value.0, all));
        return;
      } else if !o.Abort? {
        r := o;
        return;
      }
      blamedAll := AddBlame(blamedAll, blamed);
      var survivors := RestartCommittee(cur, blamed, t);
      if !survivors.Ok? {
        RefusalMeansMany(n, t, rounds, cur, blamed);
        r := o;
        return;
      }
      HistoryGrows(n, t, rounds, cur, blamed);
      curKeys := Realign(keys, cur, curKeys, survivors.value);
      rounds := rounds + [Round(cur, blamed)];
      cur := survivors.value;
      attempt := attempt + 1;
    }
  }

  ghost predicate NamesMembers<T>(o: Outcome<(T, seq<nat>)>, ids: seq<nat>) {
    && (o.Abort? ==> o.blamed != [])
    && Members(Named(o)) <= Members(ids)
  }

  // ---------------------------------------------------------------- what the histories promise

  /** The committees of a history strictly shrink and never drop below 2t - 1, so there is at most
      one restart per unit of slack. */
  lemma {:induction false} CommitteesShrink(n: nat, t: nat, rounds: seq<Round>, current: seq<nat>)
    requires t >= 1 && History(n, t, rounds, current)
    ensures 2 * t - 1 <= |current| <= n - |rounds|
    decreases |rounds|
  {
    if rounds != [] {
      var k := |rounds| - 1;
      HistoryBefore(n, t, rounds, current);
      CommitteesShrink(n, t, rounds[..k], rounds[k].ids);
      RoundShrinks(rounds[k], t);
    }
  }

  /** Every attempt of a renumbered run, over any survivors, names only members of `bad`. */
  ghost predicate OnlyNames<T, R>(sid: bytes, rngs: seq<R>, run: (nat, nat, bytes, seq<R>) -> Outcome<(T, seq<nat>)>,
                                  bad: set<nat>) {
    forall k, ids, blamed ::
      StrictlyIncreasing(ids) && Blames(sid, rngs, run, k, ids, blamed) ==> Members(blamed) <= bad
  }

  ghost predicate OwnOnlyNames<T, K>(firstId: nat, keys: seq<K>,
                                     run: (nat, seq<nat>, seq<K>) -> Outcome<(T, seq<nat>)>, bad: set<nat>) {
    forall k, ids, blamed ::
      StrictlyIncreasing(ids) && OwnBlames(firstId, keys, run, k, ids, blamed) ==> Members(blamed) <= bad
  }

  /** With n >= 3t - 2 and at most t - 1 parties that attempts ever blame, the policy never
      refuses, so no abort reaches the caller; and only those parties are in the blame list. */
  lemma NeverAborts<T, R>(n: nat, t: nat, sid: bytes, rngs: seq<R>,
                          run: (nat, nat, bytes, seq<R>) -> Outcome<(T, seq<nat>)>,
                          r: Outcome<(T, seq<nat>)>, rounds: seq<Round>, current: seq<nat>, late: seq<nat>,
                          bad: set<nat>)
    requires t >= 1 && RenumberedRun(n, t, sid, rngs, run, r, rounds, current, late) && OnlyNames(sid, rngs, run, bad)
    ensures n >= 3 * t - 2 && |bad| <= t - 1 ==> !r.Abort?
    ensures r.Ok? ==> Members(r.value.1) <= bad
    ensures Members(OneTo(n)) - bad <= Members(current)
  {
    hide Attempt;
    hide History;
    hide StrictlyIncreasing;
    hide Members;
    hide EverBlamed;
    hide OneTo;
    forall k | 0 <= k < |rounds|
      ensures Members(rounds[k].blamed) <= bad
    {
      RoundOrdered(n, t, rounds, current, k);
      assert Expelled(sid, rngs, run, k, rounds[k]);
    }
    HistoryOrdered(n, t, rounds, current);
    FewBlamed(n, t, rounds, current, r, late, bad);
  }

  lemma OwnNeverAborts<T, K>(n: nat, t: nat, firstId: nat, keys: seq<K>,
                             run: (nat, seq<nat>, seq<K>) -> Outcome<(T, seq<nat>)>,
                             r: Outcome<(T, seq<nat>)>, id: nat, rounds: seq<Round>, current: seq<nat>, late: seq<nat>,
                             bad: set<nat>)
    requires t >= 1 && KeepingRun(n, t, firstId, keys, run, r, id, rounds, current, late)
      && OwnOnlyNames(firstId, keys, run, bad)
    ensures n >= 3 * t - 2 && |bad| <= t - 1 ==> !r.Abort?
    ensures r.Ok? ==> Members(r.value.1) <= bad
    ensures Members(OneTo(n)) - bad <= Members(current)
  {
    hide OwnAttempt;
    hide History;
    hide StrictlyIncreasing;
    hide Members;
    hide EverBlamed;
    hide OneTo;
    forall k | 0 <= k < |rounds|
      ensures Members(rounds[k].blamed) <= bad
    {
      RoundOrdered(n, t, rounds, current, k);
      assert OwnExpelled(firstId, keys, run, k, rounds[k]);
    }
    HistoryOrdered(n, t, rounds, current);
    FewBlamed(n, t, rounds, current, r, late, bad);
  }

  lemma FewBlamed<T>(n: nat, t: nat, rounds: seq<Round>, current: seq<nat>, r: Outcome<(T, seq<nat>)>, late: seq<nat>,
                     bad: set<nat>)
    requires t >= 1 && Ended(n, t, rounds, current, r, late) && Members(late) <= bad
    requires forall k :: 0 <= k < |rounds| ==> Members(rounds[k].blamed) <= bad
    ensures n >= 3 * t - 2 && |bad| <= t - 1 ==> !r.Abort?
    ensures r.Ok? ==> Members(r.value.1) <= bad
    ensures Members(OneTo(n)) - bad <= Members(current)
  {
    EverBlamedWithin(rounds, |rounds|, bad);
    HistoryPartitions(n, t, rounds, current);
    hide History;
    hide EverBlamed;
    hide Members;
    hide OneTo;
    SubsetSize(EverBlamed(rounds, |rounds|) + Members(late), bad);
  }

  lemma {:induction false} EverBlamedWithin(rounds: seq<Round>, k: nat, bad: set<nat>)
    requires k <= |rounds| && forall i :: 0 <= i < |rounds| ==> Members(rounds[i].blamed) <= bad
    ensures EverBlamed(rounds, k) <= bad
    decreases k
  {
    hide Members;
    if k > 0 {
      EverBlamedWithin(rounds, k - 1, bad);
    }
  }

  /** Everybody in the final blame list was expelled or blamed in the last attempt; the others are
      exactly the last committee's unblamed members. */
  lemma FinalPartition<T>(n: nat, t: nat, rounds: seq<Round>, current: seq<nat>, r: Outcome<(T, seq<nat>)>,
                          late: seq<nat>)
    requires Ended(n, t, rounds, current, r, late) && r.Ok?
    ensures Members(r.value.1) <= Members(OneTo(n))
    ensures Members(OneTo(n)) - Members(r.value.1) == Members(current) - Members(late)
  {
    hide EverBlamed;
    HistoryPartitions(n, t, rounds, current);
  }

  // ---------------------------------------------------------------- propagated aborts

  /** In an increasing list of positive ids, entry i is at least i + 1 ... */
  lemma {:induction false} AtLeast(ids: seq<nat>, i: nat)
    requires StrictlyIncreasing(ids) && i < |ids| && ids[0] >= 1
    ensures ids[i] >= i + 1
    decreases i
  {
    if i > 0 {
      AtLeast(ids, i - 1);
      assert ids[i - 1] < ids[i];
    }
  }

  /** ... and equal to it exactly while no id is missing. */
  lemma {:induction false} NoGapBefore(ids: seq<nat>, i: nat)
    requires StrictlyIncreasing(ids) && i < |ids| && ids[0] >= 1
    ensures ids[i] == i + 1 <==> forall b :: 1 <= b <= i + 1 ==> b in ids
    decreases i
  {
    AtLeast(ids, i);
    if i > 0 {
      NoGapBefore(ids, i - 1);
      AtLeast(ids, i - 1);
      assert ids[i - 1] < ids[i];
    }
    assert ids[i] in ids;
    if ids[i] > i + 1 && i + 1 in ids {
      var p :| 0 <= p < |ids| && ids[p] == i + 1;
      assert p < i;
      assert ids[p] <= ids[i - 1];
      assert ids[i - 1] != i;
    }
  }

  /** A local number is the party's own number exactly when nobody gone comes at or before it. */
  lemma NumberKept(n: nat, gone: set<nat>, current: seq<nat>, b: nat)
    requires StrictlyIncreasing(current) && gone <= Members(OneTo(n)) && Members(current) == Members(OneTo(n)) - gone
    requires 1 <= b <= |current|
    ensures current[b - 1] == b <==> forall g :: g in gone ==> b < g
  {
    assert forall j :: j in Members(OneTo(n)) <==> 1 <= j <= n by { OneToMembers(n); }
    assert forall j :: j in current <==> j in Members(current);
    assert current[0] in current && current[b - 1] in current;
    NoGapBefore(current, b - 1);
    AtLeast(current, b - 1);
    if current[b - 1] == b {
      assert forall g :: g in gone && g <= b ==> g in current;
    }
  }

  lemma OneToMembers(n: nat)
    ensures forall j :: j in Members(OneTo(n)) <==> 1 <= j <= n
  {
    forall j | 1 <= j <= n
      ensures j in OneTo(n)
    {
      assert OneTo(n)[j - 1] == j;
    }
  }

  /** Blame in an attempt's own numbering is right exactly when everybody blamed in earlier
      attempts comes after it. */
  lemma LocalBlameIsRight(n: nat, t: nat, rounds: seq<Round>, current: seq<nat>, local: seq<nat>)
    requires History(n, t, rounds, current) && forall b :: b in local ==> 1 <= b <= |current|
    ensures Originals(current, local) == local <==>
      forall b, g :: b in local && g in EverBlamed(rounds, |rounds|) ==> b < g
  {
    hide Originals;
    HistoryPartitions(n, t, rounds, current);
    HistoryOrdered(n, t, rounds, current);
    hide *;
    LocalNumbers(n, EverBlamed(rounds, |rounds|), current, local);
  }

  lemma LocalNumbers(n: nat, gone: set<nat>, current: seq<nat>, local: seq<nat>)
    requires StrictlyIncreasing(current) && gone <= Members(OneTo(n)) && Members(current) == Members(OneTo(n)) - gone
    requires forall b :: b in local ==> 1 <= b <= |current|
    ensures Originals(current, local) == local <==> forall b, g :: b in local && g in gone ==> b < g
  {
    hide *;
    forall b | b in local
      ensures current[b - 1] == b <==> forall g :: g in gone ==> b < g
    {
      NumberKept(n, gone, current, b);
    }
    SameNumbers(current, local);
  }

  lemma SameNumbers(current: seq<nat>, local: seq<nat>)
    requires forall b :: b in local ==> 1 <= b <= |current|
    ensures Originals(current, local) == local <==> forall b :: b in local ==> current[b - 1] == b
  {
    if Originals(current, local) == local {
      forall b | b in local
        ensures current[b - 1] == b
      {
        var k :| 0 <= k < |local| && local[k] == b;
        assert Originals(current, local)[k] == local[k];
      }
    }
  }

  /** What a caller is told by a propagated abort of a renumbered run: the parties it names are
      the ones the last attempt blamed exactly when every expelled party comes after them. */
  lemma PropagatedAbort<T, R>(n: nat, t: nat, sid: bytes, rngs: seq<R>,
                              run: (nat, nat, bytes, seq<R>) -> Outcome<(T, seq<nat>)>,
                              r: Outcome<(T, seq<nat>)>, rounds: seq<Round>, current: seq<nat>, late: seq<nat>)
    requires RenumberedRun(n, t, sid, rngs, run, r, rounds, current, late) && r.Abort?
    ensures r.blamed == late <==> forall b, g :: b in r.blamed && g in EverBlamed(rounds, |rounds|) ==> b < g
  {
    hide History;
    hide EverBlamed;
    var o := Attempt(sid, rngs, run, |rounds|, current);
    assert Returns(r, o) && o == r && Named(o) == r.blamed;
    LocalBlameIsRight(n, t, rounds, current, r.blamed);
  }

  /** In particular when only the first attempt can abort, as when every later attempt is honest:
      its numbering is the original one. */
  lemma FirstAbortIsRight<T, R>(n: nat, t: nat, sid: bytes, rngs: seq<R>,
                                run: (nat, nat, bytes, seq<R>) -> Outcome<(T, seq<nat>)>,
                                r: Outcome<(T, seq<nat>)>, rounds: seq<Round>, current: seq<nat>, late: seq<nat>)
    requires RenumberedRun(n, t, sid, rngs, run, r, rounds, current, late) && r.Abort?
    requires forall k, ids :: k > 0 && Within(ids, |rngs|) ==> !Attempt(sid, rngs, run, k, ids).Abort?
    ensures rounds == [] && r.blamed == late
  {
    hide History;
    hide Attempt;
    assert Returns(r, Attempt(sid, rngs, run, |rounds|, current));
    PropagatedAbort(n, t, sid, rngs, run, r, rounds, current, late);
  }

  /** With original ids nothing can go wrong: a propagated abort names whom the attempt blamed. */
  lemma OwnPropagatedAbort<T, K>(n: nat, t: nat, firstId: nat, keys: seq<K>,
                                 run: (nat, seq<nat>, seq<K>) -> Outcome<(T, seq<nat>)>,
                                 r: Outcome<(T, seq<nat>)>, id: nat, rounds: seq<Round>, current: seq<nat>,
                                 late: seq<nat>)
    requires KeepingRun(n, t, firstId, keys, run, r, id, rounds, current, late) && r.Abort?
    ensures r.blamed == late
  {
    hide History;
  }

  // ---- an input for which the propagated abort is wrong

  /** Two parties and t = 1.  Every attempt blames its own member 1: the adversary acts in the retry
      too, which the fault-injection hooks of the program do not (they reach the first attempt
      only, and then `FirstAbortIsRight` applies). */
  function AlwaysBlamesFirst(k: nat, n: nat, sid: bytes, rngs: seq<nat>): Outcome<((), seq<nat>)> {
    if n == 0 then InvalidParams else Abort([1])
  }

  /** Party 1 is expelled first; the second attempt's member 1 is party 2; the caller is told 1. */
  lemma WrongPartyNamed(sid: bytes, r: Outcome<((), seq<nat>)>, rounds: seq<Round>, current: seq<nat>, late: seq<nat>)
    requires RenumberedRun(2, 1, sid, [0, 0], AlwaysBlamesFirst, r, rounds, current, late)
    ensures r == Abort([1]) && late == [2] && EverBlamed(rounds, |rounds|) == {1}
  {
    hide *;
    LastRound(sid, r, rounds, current, late);
    CommitteesShrink(2, 1, rounds, current);
    OneExpelled(sid, r, rounds, current, late);
    assert [2][0] == 2;
  }

  lemma LastRound(sid: bytes, r: Outcome<((), seq<nat>)>, rounds: seq<Round>, current: seq<nat>, late: seq<nat>)
    requires RenumberedRun(2, 1, sid, [0, 0], AlwaysBlamesFirst, r, rounds, current, late)
    ensures current != [] && r == Abort([1]) && late == [current[0]] && Ended(2, 1, rounds, current, r, late)
    ensures History(2, 1, rounds, current) && (rounds != [] ==> rounds[0].blamed == [rounds[0].ids[0]])
  {
    hide Attempt;
    hide Remaining;
    FirstIsBlamed(sid, |rounds|, current, late);
    if rounds != [] {
      assert Expelled(sid, [0, 0], AlwaysBlamesFirst, 0, rounds[0]);
      FirstIsBlamed(sid, 0, rounds[0].ids, rounds[0].blamed);
    }
  }

  lemma OneExpelled(sid: bytes, r: Outcome<((), seq<nat>)>, rounds: seq<Round>, current: seq<nat>, late: seq<nat>)
    requires current != [] && r == Abort([1]) && late == [current[0]] && Ended(2, 1, rounds, current, r, late)
      && |rounds| <= 1
    requires rounds != [] ==> rounds[0].blamed == [rounds[0].ids[0]]
    ensures current == [2] && EverBlamed(rounds, |rounds|) == {1}
  {
    hide Remaining;
    OneName(late);
    assert EverBlamed([], 0) + Members(late) == Members(late);
    assert rounds[0].ids == OneTo(2) == [1, 2];
    TwoMembers();
    assert Members([1]) == {1};
    assert EverBlamed(rounds, 1) == EverBlamed(rounds, 0) + Members([1]);
  }

  lemma OneName(late: seq<nat>)
    ensures |late| == 1 ==> |Members(late)| == 1
  {
    if |late| == 1 {
      assert Members(late) == {late[0]};
    }
  }

  lemma FirstIsBlamed(sid: bytes, k: nat, ids: seq<nat>, blamed: seq<nat>)
    requires ids != [] && Blames(sid, [0, 0], AlwaysBlamesFirst, k, ids, blamed)
    ensures Attempt(sid, [0, 0], AlwaysBlamesFirst, k, ids) == Abort([1]) && blamed == [ids[0]]
  {
  }

  lemma TwoMembers()
    ensures Remaining([1, 2], {1}) == [2]
  {
    assert [1, 2][..1] == [1] && [1][..0] == [];
    assert Remaining([1], {1}) == [];
  }

  /** The loop does return it. */
  method WrongAbort(sid: bytes) returns (r: Outcome<((), seq<nat>)>, ghost late: seq<nat>)
    ensures r == Abort([1]) && late == [2]
  {
    ghost var rounds, current;
    r, rounds, current, late := RunRenumbered(2, 1, sid, [0, 0], AlwaysBlamesFirst);
    WrongPartyNamed(sid, r, rounds, current, late);
  }
}
