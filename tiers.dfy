/** Tier tables: the list of (threshold, rate) pairs a scheme stores, and the two scans
    every scheme kind runs over it (prize.py:228-233, 252-256, 261-265, 280-291). */
module Tiers {
  import opened NumText

  /** One tier: reaching `threshold` earns `rate` percent. */
  datatype Tier = Tier(threshold: real, rate: real)

  /** Thresholds in non-increasing order, the order the admin screen stores. */
  ghost predicate SortedDesc(tiers: seq<Tier>) {
    forall i, j :: 0 <= i < j < |tiers| ==> tiers[i].threshold >= tiers[j].threshold
  }

  /** `for amt, rate in tiers: if v >= amt: ... break`: the first tier, in the stored
      order, whose threshold `v` reaches. */
  function Achieved(tiers: seq<Tier>, v: real): (r: Option<Tier>)
    ensures r.None? <==> forall i :: 0 <= i < |tiers| ==> tiers[i].threshold > v
    ensures r.Some? ==> exists j :: 0 <= j < |tiers| && tiers[j] == r.value && FirstReached(tiers, v, j)
  {
    if tiers == [] then None
    else if v >= tiers[0].threshold then
      assert FirstReached(tiers, v, 0);
      Some(tiers[0])
    else
      var r := Achieved(tiers[1..], v);
      assert r.Some? ==> exists j :: 0 <= j < |tiers| && tiers[j] == r.value && FirstReached(tiers, v, j) by {
        if r.Some? {
          var j :| 0 <= j < |tiers[1..]| && tiers[1..][j] == r.value && FirstReached(tiers[1..], v, j);
          assert FirstReached(tiers, v, j + 1);
        }
      }
      r
  }

  /** Index `j` holds a threshold `v` reaches and no earlier one is reached. */
  ghost predicate FirstReached(tiers: seq<Tier>, v: real, j: int) {
    0 <= j < |tiers| && tiers[j].threshold <= v
    && forall i :: 0 <= i < j ==> tiers[i].threshold > v
  }

  /** `for amt, rate in reversed(tiers): if v < amt: next_tier = amt; break`: the
      threshold of the last stored tier that `v` has not reached. */
  function NextAbove(tiers: seq<Tier>, v: real): (r: Option<real>)
    ensures r.None? <==> forall i :: 0 <= i < |tiers| ==> tiers[i].threshold <= v
    ensures r.Some? ==> exists j :: 0 <= j < |tiers| && tiers[j].threshold == r.value && LastUnreached(tiers, v, j)
  {
    if tiers == [] then None
    else
      var last := |tiers| - 1;
      if v < tiers[last].threshold then
        assert LastUnreached(tiers, v, last);
        Some(tiers[last].threshold)
      else
        var r := NextAbove(tiers[..last], v);
        assert r.Some? ==> exists j :: 0 <= j < |tiers| && tiers[j].threshold == r.value && LastUnreached(tiers, v, j) by {
          if r.Some? {
            var j :| 0 <= j < last && tiers[..last][j].threshold == r.value && LastUnreached(tiers[..last], v, j);
            assert LastUnreached(tiers, v, j);
          }
        }
        r
  }

  /** Index `j` holds a threshold above `v` and every later threshold is reached. */
  ghost predicate LastUnreached(tiers: seq<Tier>, v: real, j: int) {
    0 <= j < |tiers| && v < tiers[j].threshold
    && forall i :: j < i < |tiers| ==> tiers[i].threshold <= v
  }

  /** With thresholds sorted descending, the scan finds the largest threshold not above `v`. */
  lemma AchievedIsLargest(tiers: seq<Tier>, v: real)
    requires SortedDesc(tiers)
    ensures Achieved(tiers, v).Some? ==>
      var t := Achieved(tiers, v).value;
      t in tiers && t.threshold <= v
      && forall i :: 0 <= i < |tiers| && tiers[i].threshold <= v ==> tiers[i].threshold <= t.threshold
  {
    if Achieved(tiers, v).Some? {
      var t := Achieved(tiers, v).value;
      var j :| 0 <= j < |tiers| && tiers[j] == t && FirstReached(tiers, v, j);
      forall i | 0 <= i < |tiers| && tiers[i].threshold <= v ensures tiers[i].threshold <= t.threshold {
        assert j <= i;
      }
    }
  }

  /** With thresholds sorted descending, the reversed scan finds the smallest threshold
      above `v`. */
  lemma NextIsSmallest(tiers: seq<Tier>, v: real)
    requires SortedDesc(tiers)
    ensures NextAbove(tiers, v).Some? ==>
      var a := NextAbove(tiers, v).value;
      v < a && (exists j :: 0 <= j < |tiers| && tiers[j].threshold == a)
      && forall i :: 0 <= i < |tiers| && v < tiers[i].threshold ==> a <= tiers[i].threshold
  {
    if NextAbove(tiers, v).Some? {
      var a := NextAbove(tiers, v).value;
      var j :| 0 <= j < |tiers| && tiers[j].threshold == a && LastUnreached(tiers, v, j);
      forall i | 0 <= i < |tiers| && v < tiers[i].threshold ensures a <= tiers[i].threshold {
        assert i <= j;
      }
    }
  }

  /** The loop of prize.py:228-233 / 252-256 / 280-285: walk the tiers in stored order
      and stop at the first threshold `v` reaches. */
  method ScanAchieved(tiers: seq<Tier>, v: real) returns (r: Option<Tier>)
    ensures r == Achieved(tiers, v)
  {
    r := None;
    var i := 0;
    while i < |tiers|
      invariant 0 <= i <= |tiers|
      invariant r == None
      invariant forall k :: 0 <= k < i ==> tiers[k].threshold > v
    {
      if v >= tiers[i].threshold {
        r := Some(tiers[i]);
        assert FirstReached(tiers, v, i);
        AchievedUnique(tiers, v, i);
        return;
      }
      i := i + 1;
    }
  }

  /** The first reached index is unique, so it determines `Achieved`. */
  lemma AchievedUnique(tiers: seq<Tier>, v: real, j: int)
    requires FirstReached(tiers, v, j)
    ensures Achieved(tiers, v) == Some(tiers[j])
  {
    var r := Achieved(tiers, v);
    assert r.Some?;
    var j' :| 0 <= j' < |tiers| && tiers[j'] == r.value && FirstReached(tiers, v, j');
    assert j' == j;
  }

  /** The loop of prize.py:261-265 / 287-291: walk the tiers from the end and stop at the
      first threshold above `v`. */
  method ScanNext(tiers: seq<Tier>, v: real) returns (r: Option<real>)
    ensures r == NextAbove(tiers, v)
  {
    r := None;
    var i := |tiers|;
    while i > 0
      invariant 0 <= i <= |tiers|
      invariant r == None
      invariant forall k :: i <= k < |tiers| ==> tiers[k].threshold <= v
    {
      i := i - 1;
      if v < tiers[i].threshold {
        r := Some(tiers[i].threshold);
        NextUnique(tiers, v, i);
        return;
      }
    }
  }

  /** The last unreached index is unique, so it determines `NextAbove`. */
  lemma NextUnique(tiers: seq<Tier>, v: real, j: int)
    requires LastUnreached(tiers, v, j)
    ensures NextAbove(tiers, v) == Some(tiers[j].threshold)
  {
    var r := NextAbove(tiers, v);
    assert r.Some?;
    var j' :| 0 <= j' < |tiers| && tiers[j'].threshold == r.value && LastUnreached(tiers, v, j');
    assert j' == j;
  }
}
