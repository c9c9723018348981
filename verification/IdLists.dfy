/** Lists of party ids as sets, and the list of those that remain after an expulsion. */
module IdLists {
  import opened Committees

  ghost function Members(s: seq<nat>): set<nat> {
    set j | j in s
  }

  lemma MembersSnoc(s: seq<nat>, j: nat)
    ensures Members(s + [j]) == Members(s) + {j}
  {
  }

  /** The ids outside `gone`, in order. */
  ghost function Remaining(ids: seq<nat>, gone: set<nat>): (r: seq<nat>)
    ensures |r| <= |ids|
  {
    if ids == [] then []
    else
      var n := |ids| - 1;
      Remaining(ids[..n], gone) + (if ids[n] in gone then [] else [ids[n]])
  }

  lemma {:induction false} RemainingMembers(ids: seq<nat>, gone: set<nat>)
    ensures forall j :: j in Remaining(ids, gone) <==> j in ids && j !in gone
    ensures StrictlyIncreasing(ids) ==> StrictlyIncreasing(Remaining(ids, gone))
    decreases |ids|
  {
    if ids != [] {
      var n := |ids| - 1;
      RemainingMembers(ids[..n], gone);
      assert ids == ids[..n] + [ids[n]];
      var before, now := Remaining(ids[..n], gone), Remaining(ids, gone);
      if StrictlyIncreasing(ids) {
        forall i, j | 0 <= i < j < |now|
          ensures now[i] < now[j]
        {
          if j == |before| {
            assert before[i] in ids[..n];
          }
        }
      }
    }
  }

  lemma {:induction false} RemainingShrinks(ids: seq<nat>, gone: set<nat>, more: set<nat>)
    requires gone <= more
    ensures |Remaining(ids, more)| <= |Remaining(ids, gone)|
    decreases |ids|
  {
    if ids != [] {
      RemainingShrinks(ids[..|ids| - 1], gone, more);
    }
  }

  lemma RemainingSnoc(list: seq<nat>, j: nat, gone: set<nat>)
    ensures Remaining(list + [j], gone) == Remaining(list, gone) + (if j in gone then [] else [j])
  {
    assert (list + [j])[..|list|] == list;
  }

  lemma {:induction false} RemainingTwice(ids: seq<nat>, gone: set<nat>, more: set<nat>)
    ensures Remaining(Remaining(ids, gone), more) == Remaining(ids, gone + more)
    decreases |ids|
  {
    if ids == [] {
      assert Remaining(ids, gone) == [];
    } else {
      var n := |ids| - 1;
      assert ids == ids[..n] + [ids[n]];
      RemainingTwice(ids[..n], gone, more);
      RemainingSnoc(ids[..n], ids[n], gone);
      RemainingSnoc(ids[..n], ids[n], gone + more);
      var before := Remaining(ids[..n], gone);
      RemainingSnoc(before, ids[n], more);
      assert before + [] == before && Remaining(before, more) + [] == Remaining(before, more);
    }
  }

  lemma {:induction false} RemainingAll(ids: seq<nat>, gone: set<nat>)
    requires forall j :: j in ids ==> j !in gone
    ensures Remaining(ids, gone) == ids
    decreases |ids|
  {
    if ids != [] {
      var n := |ids| - 1;
      RemainingAll(ids[..n], gone);
      assert ids == ids[..n] + [ids[n]];
    }
  }

  /** Where an entry of a list is. */
  ghost function PositionOf<T>(list: seq<T>, x: T): (p: nat)
    requires x in list
    ensures p < |list| && list[p] == x
  {
    if list[0] == x then 0 else PositionOf(list[1..], x) + 1
  }

  // ---------------------------------------------------------------- counting

  lemma SubsetSize<T>(a: set<T>, b: set<T>)
    requires a <= b
    ensures |a| <= |b|
  {
    assert b == a + (b - a);
  }

  lemma SubsetOfSameSize<T>(a: set<T>, b: set<T>)
    requires a <= b && |a| == |b|
    ensures a == b
  {
    assert b == a + (b - a);
    assert |b - a| == 0;
  }

  /** Distinct ids are as many as their list is long. */
  lemma {:induction false} DistinctCount(ids: seq<nat>)
    requires NoRepeats(ids)
    ensures |Members(ids)| == |ids|
    decreases |ids|
  {
    if ids == [] {
      assert Members(ids) == {};
    } else {
      var n := |ids| - 1;
      DistinctCount(ids[..n]);
      assert ids == ids[..n] + [ids[n]];
      MembersSnoc(ids[..n], ids[n]);
      assert ids[n] !in Members(ids[..n]);
    }
  }

  lemma {:induction false} RemainingCount(ids: seq<nat>, gone: set<nat>)
    requires StrictlyIncreasing(ids)
    ensures |Remaining(ids, gone)| >= |ids| - |gone|
    decreases |ids|
  {
    if ids != [] {
      var n := |ids| - 1;
      if ids[n] in gone {
        RemainingCount(ids[..n], gone - {ids[n]});
        RemainingIgnores(ids[..n], gone, ids[n]);
      } else {
        RemainingCount(ids[..n], gone);
      }
    }
  }

  lemma {:induction false} RemainingIgnores(ids: seq<nat>, gone: set<nat>, j: nat)
    requires j !in ids
    ensures Remaining(ids, gone - {j}) == Remaining(ids, gone)
    decreases |ids|
  {
    if ids != [] {
      var n := |ids| - 1;
      assert ids == ids[..n] + [ids[n]];
      RemainingIgnores(ids[..n], gone, j);
    }
  }
}
