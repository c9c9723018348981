/** Committees (src/lib.rs): the party ids are the evaluation points of every sharing. */
module Committees {
  import opened Field
  import opened Outcomes

  datatype Committee = Committee(ids: seq<nat>, t: nat) {
    /** What `Committee::new` enforces; ids are machine integers, far below the group order. */
    ghost predicate Valid() {
      && 1 <= t
      && |ids| >= 2 * t - 1
      && StrictlyIncreasing(ids)
      && forall k :: 0 <= k < |ids| ==> 1 <= ids[k] < Q
    }
  }

  predicate StrictlyIncreasing(ids: seq<nat>) {
    forall i, j :: 0 <= i < j < |ids| ==> ids[i] < ids[j]
  }

  /** The ids of a full committee of n. */
  function OneTo(n: nat): (s: seq<nat>)
    ensures |s| == n && StrictlyIncreasing(s) && forall k :: 0 <= k < n ==> s[k] == k + 1
  {
    seq(n, k requires 0 <= k < n => k + 1)
  }

  lemma IdsDistinct(c: Committee)
    requires c.Valid()
    ensures DistinctMod(c.ids)
  {
    forall i, j | 0 <= i < j < |c.ids|
      ensures !Cong(c.ids[i], c.ids[j])
    {
      RedScalar(c.ids[i]);
      RedScalar(c.ids[j]);
    }
  }

  /** Position of a member in the id list. */
  method Position(ids: seq<nat>, j: nat) returns (p: nat)
    requires j in ids
    ensures p < |ids| && ids[p] == j
  {
    p := 0;
    while ids[p] != j
      invariant p < |ids| && j !in ids[..p]
      decreases |ids| - p
    {
      p := p + 1;
    }
  }

  /** Insertion into a sorted list, and insertion sort: the model's `sort_unstable`. */
  function Insert(x: nat, s: seq<nat>): (r: seq<nat>)
    ensures multiset(r) == multiset(s) + multiset{x}
  {
    if s == [] || x <= s[0] then [x] + s
    else
      assert s == [s[0]] + s[1..];
      [s[0]] + Insert(x, s[1..])
  }

  function Sort(s: seq<nat>): (r: seq<nat>)
    ensures multiset(r) == multiset(s)
  {
    if s == [] then [] else
      assert s == [s[0]] + s[1..];
      Insert(s[0], Sort(s[1..]))
  }

  ghost predicate Ordered(s: seq<nat>) {
    forall i, j :: 0 <= i < j < |s| ==> s[i] <= s[j]
  }

  lemma {:induction false} InsertOrdered(x: nat, s: seq<nat>)
    requires Ordered(s)
    ensures Ordered(Insert(x, s))
    decreases |s|
  {
    if s != [] && x > s[0] {
      InsertOrdered(x, s[1..]);
      var r := Insert(x, s[1..]);
      forall k | 0 <= k < |r|
        ensures s[0] <= r[k]
      {
        assert r[k] in multiset(r);
        assert r[k] == x || r[k] in s[1..];
      }
    }
  }

  lemma {:induction false} SortOrdered(s: seq<nat>)
    ensures Ordered(Sort(s))
    decreases |s|
  {
    if s != [] {
      SortOrdered(s[1..]);
      InsertOrdered(s[0], Sort(s[1..]));
    }
  }

  /** `Committee::new`. */
  method New(ids: seq<nat>, t: nat) returns (r: Outcome<Committee>)
    requires forall k :: 0 <= k < |ids| ==> ids[k] < Q
    ensures r.Ok? || r.InvalidParams?
    ensures r.Ok? <==> t >= 1 && |ids| >= 2 * t - 1 && 0 !in ids && NoRepeats(ids)
    ensures r.Ok? ==> r.value.Valid() && r.value.t == t && multiset(r.value.ids) == multiset(ids)
  {
    if t < 1 || |ids| < 2 * t - 1 {
      return InvalidParams;
    }
    var sorted := Sort(ids);
    SortOrdered(ids);
    SameMembers(sorted, ids);
    assert |sorted| == |multiset(sorted)| == |multiset(ids)| == |ids|;
    if sorted[0] == 0 {
      assert sorted[0] in sorted;
      return InvalidParams;
    }
    assert forall k :: 0 <= k < |sorted| ==> sorted[0] <= sorted[k];
    assert 0 !in ids;
    for k := 1 to |sorted|
      invariant forall i, j :: 0 <= i < j < k ==> sorted[i] < sorted[j]
    {
      if sorted[k - 1] == sorted[k] {
        RepeatsSurvive(sorted, ids, k - 1, k);
        return InvalidParams;
      }
    }
    assert NoRepeats(sorted);
    NoRepeatsSurvive(sorted, ids);
    forall k | 0 <= k < |sorted| ensures 1 <= sorted[k] < Q { assert sorted[k] in sorted; }
    return Ok(Committee(sorted, t));
  }

  ghost predicate NoRepeats(s: seq<nat>) {
    forall i, j :: 0 <= i < j < |s| ==> s[i] != s[j]
  }

  lemma SameMembers(r: seq<nat>, s: seq<nat>)
    requires multiset(r) == multiset(s)
    ensures forall x :: x in r <==> x in s
  {
    forall x ensures x in r <==> x in s {
      assert x in multiset(r) <==> x in multiset(s);
    }
  }

  lemma {:induction false} CountOne(s: seq<nat>, x: nat)
    requires NoRepeats(s)
    ensures multiset(s)[x] <= 1
    decreases |s|
  {
    if s != [] {
      var n := |s| - 1;
      assert s == s[..n] + [s[n]];
      CountOne(s[..n], x);
      if s[n] == x {
        assert x !in s[..n];
        assert multiset(s[..n])[x] == 0;
      }
    }
  }

  lemma CountTwo(s: seq<nat>, i: nat, j: nat)
    requires i < j < |s| && s[i] == s[j]
    ensures multiset(s)[s[i]] >= 2
  {
    assert s == s[..j] + [s[j]] + s[j + 1..];
    assert s[i] in s[..j];
    assert multiset(s[..j])[s[i]] >= 1;
  }

  lemma RepeatsSurvive(r: seq<nat>, s: seq<nat>, i: nat, j: nat)
    requires multiset(r) == multiset(s) && i < j < |r| && r[i] == r[j]
    ensures !NoRepeats(s)
  {
    CountTwo(r, i, j);
    if NoRepeats(s) {
      CountOne(s, r[i]);
    }
  }

  lemma NoRepeatsSurvive(r: seq<nat>, s: seq<nat>)
    requires multiset(r) == multiset(s) && NoRepeats(r)
    ensures NoRepeats(s)
  {
    forall i, j | 0 <= i < j < |s|
      ensures s[i] != s[j]
    {
      if s[i] == s[j] {
        CountTwo(s, i, j);
        CountOne(r, s[i]);
      }
    }
  }
}
