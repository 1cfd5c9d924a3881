/** Deciding a feature flag for one visitor (internal/store/feature_flags.go). The digest of a
    text and the matching of one filter are parameters: everything proved holds for all of them. */
module Flags {

  datatype Filter = Filter(property: string, operator: string, value: string)

  datatype Variant = Variant(key: string, rollout: int)

  datatype Flag = Flag(key: string, enabled: bool, rolloutPercentage: int, filters: seq<Filter>, variants: seq<Variant>)

  /** The source answers (false, false), (true, true) or (key, true). */
  datatype Decision = Off | On | Chosen(key: string)

  type Digest = string -> nat

  type Matcher = (Filter, string) -> bool

  /** hashDistinctID: one of 100 buckets. */
  function HashDistinctId(digest: Digest, key: string, id: string): (h: int)
    ensures 0 <= h < 100
  {
    digest(key + ":" + id) % 100
  }

  /** The sum of the first i rollouts. */
  function Cumulative(vs: seq<Variant>, i: nat): int
    requires i <= |vs|
  {
    if i == 0 then 0 else Cumulative(vs, i - 1) + vs[i - 1].rollout
  }

  function Total(vs: seq<Variant>): int {
    Cumulative(vs, |vs|)
  }

  /** Where a bucket falls on the scale from 0 to the total. */
  function Target(h: int, total: int): int {
    h * total / 100
  }

  /** The first variant from i on whose cumulative rollout exceeds the target; |vs| if none does. */
  function FirstAbove(vs: seq<Variant>, target: int, i: nat): (r: nat)
    requires i <= |vs|
    ensures i <= r <= |vs|
    ensures r < |vs| ==> target < Cumulative(vs, r + 1)
    ensures forall k :: i < k <= r ==> target >= Cumulative(vs, k)
    decreases |vs| - i
  {
    if i == |vs| || target < Cumulative(vs, i + 1) then i else FirstAbove(vs, target, i + 1)
  }

  /** The variant a bucket is given, by position. */
  function Pick(vs: seq<Variant>, h: int): nat {
    FirstAbove(vs, Target(h, Total(vs)), 0)
  }

  predicate AllMatch(flag: Flag, id: string, matches: Matcher) {
    forall f :: f in flag.filters ==> matches(f, id)
  }

  function Evaluate(flag: Flag, id: string, matches: Matcher, digest: Digest): Decision {
    if !flag.enabled || !AllMatch(flag, id, matches) || flag.rolloutPercentage <= 0 then Off
    else if (if id != "" then HashDistinctId(digest, flag.key, id) else 0) >= flag.rolloutPercentage then Off
    else if |flag.variants| > 0 && Total(flag.variants) > 0 then
      var i := Pick(flag.variants, HashDistinctId(digest, flag.key + ":variant", id));
      PickExists(flag.variants, HashDistinctId(digest, flag.key + ":variant", id));
      Chosen(flag.variants[i].key)
    else On
  }

  /** With a positive total some variant is always reached, so the source's fallback to the last
      one never runs, even when single rollouts are negative. */
  lemma PickExists(vs: seq<Variant>, h: int)
    requires Total(vs) > 0 && 0 <= h < 100
    ensures Pick(vs, h) < |vs|
  {
    var t := Total(vs);
    assert h * t <= 99 * t;
    assert Target(h, t) < t;
  }

  method EvaluateFlag(flag: Flag, id: string, matches: Matcher, digest: Digest) returns (d: Decision)
    ensures d == Evaluate(flag, id, matches, digest)
  {
    if !flag.enabled {
      return Off;
    }
    for i := 0 to |flag.filters|
      invariant forall k :: 0 <= k < i ==> matches(flag.filters[k], id)
    {
      if !matches(flag.filters[i], id) {
        return Off;
      }
    }
    if flag.rolloutPercentage <= 0 {
      return Off;
    }
    var hashVal := if id != "" then HashDistinctId(digest, flag.key, id) else 0;
    if hashVal >= flag.rolloutPercentage {
      return Off;
    }
    if |flag.variants| > 0 {
      var totalRollout := 0;
      for i := 0 to |flag.variants|
        invariant totalRollout == Cumulative(flag.variants, i)
      {
        totalRollout := totalRollout + flag.variants[i].rollout;
      }
      if totalRollout > 0 {
        var varHash := HashDistinctId(digest, flag.key + ":variant", id);
        var variantTarget := varHash * totalRollout / 100;
        PickExists(flag.variants, varHash);
        var cumulative := 0;
        for i := 0 to |flag.variants|
          invariant cumulative == Cumulative(flag.variants, i)
          invariant Pick(flag.variants, varHash) == FirstAbove(flag.variants, variantTarget, i)
        {
          cumulative := cumulative + flag.variants[i].rollout;
          if variantTarget < cumulative {
            return Chosen(flag.variants[i].key);
          }
        }
        // the source answers the last variant's key here
        assert false;
      }
    }
    return On;
  }

  // ----- How the 100 buckets are shared out -----

  function CeilDiv(a: int, b: int): int
    requires b > 0
  {
    (a + b - 1) / b
  }

  lemma DivBelow(a: int, b: int, c: int)
    requires b > 0
    ensures a / b < c <==> a < c * b
  {
    assert a == (a / b) * b + a % b;
    if a / b < c {
      assert (a / b + 1) * b <= c * b;
    } else {
      assert c * b <= (a / b) * b;
    }
  }

  /** A bucket's target is below c exactly for the buckets below ceil(100 c / total). */
  lemma TargetBelow(h: int, total: int, c: int)
    requires total > 0
    ensures Target(h, total) < c <==> h < CeilDiv(100 * c, total)
  {
    DivBelow(h * total, 100, c);
    DivBelow(100 * c + total - 1, total, h + 1);
    assert (h + 1) * total == h * total + total;
  }

  lemma {:induction false} CumulativeIsMonotone(vs: seq<Variant>, i: nat, j: nat)
    requires i <= j <= |vs| && forall v :: v in vs ==> v.rollout >= 0
    ensures 0 <= Cumulative(vs, i) <= Cumulative(vs, j)
    decreases j
  {
    if i < j {
      CumulativeIsMonotone(vs, i, j - 1);
    } else if i > 0 {
      CumulativeIsMonotone(vs, i - 1, i - 1);
    }
  }

  function Share(vs: seq<Variant>, i: nat): set<int>
    requires i < |vs|
  {
    set h | 0 <= h < 100 && Pick(vs, h) == i
  }

  function Range(lo: int, hi: int): (r: set<int>)
    requires lo <= hi
    ensures |r| == hi - lo && forall h :: h in r <==> lo <= h < hi
    decreases hi - lo
  {
    if lo == hi then {} else Range(lo, hi - 1) + {hi - 1}
  }

  lemma NoTargetBelowZero(h: int, total: int)
    requires 0 <= h && 0 < total
    ensures 0 <= Target(h, total)
  {
    DivBelow(h * total, 100, 0);
  }

  lemma PickInterval(vs: seq<Variant>, i: nat, h: int)
    requires i < |vs| && 0 <= h && Total(vs) > 0 && forall v :: v in vs ==> v.rollout >= 0
    ensures Pick(vs, h) == i <==>
      CeilDiv(100 * Cumulative(vs, i), Total(vs)) <= h < CeilDiv(100 * Cumulative(vs, i + 1), Total(vs))
  {
    hide CeilDiv, Target;
    var t, p := Total(vs), Pick(vs, h);
    TargetBelow(h, t, Cumulative(vs, i));
    TargetBelow(h, t, Cumulative(vs, i + 1));
    if p < i {
      CumulativeIsMonotone(vs, p + 1, i);
    } else if p == i == 0 {
      NoTargetBelowZero(h, t);
    }
  }

  lemma CeilDivBounds(a: int, b: int)
    requires b > 0
    ensures a <= CeilDiv(a, b) * b < a + b
  {
    var q, r := (a + b - 1) / b, (a + b - 1) % b;
    assert a + b - 1 == q * b + r;
  }

  lemma CeilDivIsMonotone(a: int, c: int, b: int)
    requires b > 0 && a <= c
    ensures CeilDiv(a, b) <= CeilDiv(c, b)
  {
    DivBelow(a + b - 1, b, CeilDiv(c, b) + 1);
    CeilDivBounds(c, b);
    assert (CeilDiv(c, b) + 1) * b == CeilDiv(c, b) * b + b;
  }

  lemma ShareSize(vs: seq<Variant>, i: nat)
    requires i < |vs| && Total(vs) > 0 && forall v :: v in vs ==> v.rollout >= 0
    ensures |Share(vs, i)| ==
      CeilDiv(100 * Cumulative(vs, i + 1), Total(vs)) - CeilDiv(100 * Cumulative(vs, i), Total(vs))
  {
    hide CeilDiv, Pick, Total;
    var lo, hi := CeilDiv(100 * Cumulative(vs, i), Total(vs)), CeilDiv(100 * Cumulative(vs, i + 1), Total(vs));
    ShareBounds(vs, i);
    forall h ensures h in Share(vs, i) <==> h in Range(lo, hi) {
      if 0 <= h {
        PickInterval(vs, i, h);
      }
    }
    assert Share(vs, i) == Range(lo, hi);
  }

  /** The exact share: variant i gets the buckets between two rounded-up cumulative shares, so it
      is less than one bucket away from its due, and exactly its rollout when they sum to 100. */
  lemma ShareIsExact(vs: seq<Variant>, i: nat)
    requires i < |vs| && Total(vs) > 0 && forall v :: v in vs ==> v.rollout >= 0
    ensures var t, n := Total(vs), |Share(vs, i)|;
      && n == CeilDiv(100 * Cumulative(vs, i + 1), t) - CeilDiv(100 * Cumulative(vs, i), t)
      && 100 * vs[i].rollout - t < n * t < 100 * vs[i].rollout + t
      && (t == 100 ==> n == vs[i].rollout)
  {
    hide CeilDiv, Share, Total;
    ShareSize(vs, i);
    CeilDivBounds(100 * Cumulative(vs, i), Total(vs));
    CeilDivBounds(100 * Cumulative(vs, i + 1), Total(vs));
    var lo, hi := CeilDiv(100 * Cumulative(vs, i), Total(vs)), CeilDiv(100 * Cumulative(vs, i + 1), Total(vs));
    assert (hi - lo) * Total(vs) == hi * Total(vs) - lo * Total(vs);
  }

  lemma ShareBounds(vs: seq<Variant>, i: nat)
    requires i < |vs| && Total(vs) > 0 && forall v :: v in vs ==> v.rollout >= 0
    ensures 0 <= CeilDiv(100 * Cumulative(vs, i), Total(vs))
              <= CeilDiv(100 * Cumulative(vs, i + 1), Total(vs)) <= 100
  {
    hide CeilDiv;
    var t := Total(vs);
    CumulativeIsMonotone(vs, i, i + 1);
    CumulativeIsMonotone(vs, i + 1, |vs|);
    CeilDivIsMonotone(0, 100 * Cumulative(vs, i), t);
    CeilDivIsMonotone(100 * Cumulative(vs, i), 100 * Cumulative(vs, i + 1), t);
    CeilDivIsMonotone(100 * Cumulative(vs, i + 1), 100 * t, t);
    EndsOfScale(t);
  }

  lemma EndsOfScale(t: int)
    requires t > 0
    ensures CeilDiv(0, t) == 0 && CeilDiv(100 * t, t) == 100
  {
    DivBelow(t - 1, t, 1);
    DivBelow(t - 1, t, 0);
    DivBelow(100 * t + t - 1, t, 101);
    DivBelow(100 * t + t - 1, t, 100);
  }

  /** A variant without rollout is never chosen, whatever the signs of the others. */
  lemma NoRolloutNoPick(vs: seq<Variant>, i: nat, h: int)
    requires i < |vs| && vs[i].rollout <= 0 && Total(vs) > 0 && 0 <= h
    ensures Pick(vs, h) != i
  {
    NoTargetBelowZero(h, Total(vs));
    assert Cumulative(vs, i + 1) <= Cumulative(vs, i);
  }

  /** Who has the flag on: enabled, all filters pass, and the bucket the digest gives the id, 0 without
      an id, is below the percentage. */
  lemma OnBelowPercentage(flag: Flag, id: string, matches: Matcher, digest: Digest)
    ensures Evaluate(flag, id, matches, digest) != Off <==>
      && flag.enabled && (forall f :: f in flag.filters ==> matches(f, id))
      && (if id == "" then 0 else digest(flag.key + ":" + id) % 100) < flag.rolloutPercentage
  {
    hide Pick;
    if |flag.variants| > 0 && Total(flag.variants) > 0 {
      PickExists(flag.variants, HashDistinctId(digest, flag.key + ":variant", id));
    }
  }

  /** Variant i is the first whose rollouts up to its own, scaled to 100, are above the bucket. */
  ghost predicate IsFirstOver(vs: seq<Variant>, bucket: int, i: nat) {
    && i < |vs| && bucket * Total(vs) < 100 * Cumulative(vs, i + 1)
    && forall k :: 0 < k <= i ==> bucket * Total(vs) >= 100 * Cumulative(vs, k)
  }

  lemma PickIsFirstOver(vs: seq<Variant>, h: int)
    requires Total(vs) > 0 && 0 <= h < 100
    ensures IsFirstOver(vs, h, Pick(vs, h))
  {
    hide FirstAbove, Cumulative, Total;
    PickExists(vs, h);
    forall c ensures Target(h, Total(vs)) < c <==> h * Total(vs) < 100 * c {
      DivBelow(h * Total(vs), 100, c);
    }
    var p := Pick(vs, h);
    assert forall k :: 0 < k <= p ==> Target(h, Total(vs)) >= Cumulative(vs, k);
  }

  /** Which variant an id with the flag on gets: the digest of another text decides, and the flag is
      merely on when its variants have no rollout in sum. */
  lemma VariantByBucket(flag: Flag, id: string, matches: Matcher, digest: Digest)
    requires Evaluate(flag, id, matches, digest) != Off
    ensures var bucket, vs := digest(flag.key + ":variant:" + id) % 100, flag.variants;
      if Total(vs) > 0
      then exists i: nat :: IsFirstOver(vs, bucket, i) && Evaluate(flag, id, matches, digest) == Chosen(vs[i].key)
      else Evaluate(flag, id, matches, digest) == On
  {
    hide Pick, IsFirstOver;
    assert flag.key + ":variant" + ":" + id == flag.key + ":variant:" + id;
    if Total(flag.variants) > 0 {
      PickIsFirstOver(flag.variants, HashDistinctId(digest, flag.key + ":variant", id));
    }
  }

  /** Raising the percentage switches nobody off and gives nobody another variant. */
  lemma RaisingKeepsEveryone(flag: Flag, percentage: int, id: string, matches: Matcher, digest: Digest)
    requires flag.rolloutPercentage <= percentage
    ensures var before := Evaluate(flag, id, matches, digest);
      before != Off ==> Evaluate(flag.(rolloutPercentage := percentage), id, matches, digest) == before
  {
    var raised := flag.(rolloutPercentage := percentage);
    assert AllMatch(raised, id, matches) == AllMatch(flag, id, matches);
  }
}
