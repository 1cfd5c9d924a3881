/** Concluding an experiment, and its results: who took part in which variant, and what follows
    (internal/store/experiments.go). */
module Experiments {
  import opened Common
  import opened Flags
  import opened Significance

  datatype Experiment = Experiment(
    flagKey: string, variants: seq<string>, minimumSample: int, status: string, winner: string, concludedAt: int)

  datatype VariantCount = VariantCount(key: string, participants: nat, conversions: nat)

  datatype VariantResult = VariantResult(
    count: VariantCount, rate: real, interval: (real, real), lift: real, pValue: real, chanceToWin: real)

  datatype Action = Winning(key: string) | NeedsMoreData | Inconclusive

  datatype ExperimentResults = ExperimentResults(
    total: nat, variants: seq<VariantResult>, significance: real, significant: bool, action: Action)

  datatype Concluded = NotFound | Done(experiment: Experiment)

  /** The rollouts after the winner is known: 100 for it, 0 for the others. */
  function WinnerTakesAll(vs: seq<Variant>, winner: string): (r: seq<Variant>)
    ensures |r| == |vs|
    ensures forall i :: 0 <= i < |vs| ==>
      r[i] == Variant(vs[i].key, if vs[i].key == winner then 100 else 0)
  {
    seq(|vs|, i requires 0 <= i < |vs| => Variant(vs[i].key, if vs[i].key == winner then 100 else 0))
  }

  function ConcludedFlag(flag: Flag, winner: string): Flag {
    flag.(enabled := true, rolloutPercentage := 100, variants := WinnerTakesAll(flag.variants, winner))
  }

  /** The two tables a conclusion touches. */
  class ExperimentStore {
    var experiments: map<(int, int), Experiment>
    var flags: map<(int, string), Flag>

    constructor ()
      ensures experiments == map[] && flags == map[]
    {
      experiments := map[];
      flags := map[];
    }

    method ConcludeExperimentWinner(projectID: int, id: int, winnerVariant: string, now: int) returns (r: Concluded)
      modifies this
      ensures (projectID, id) !in old(experiments) ==>
        r == NotFound && experiments == old(experiments) && flags == old(flags)
      ensures (projectID, id) in old(experiments) ==>
        var e := old(experiments)[(projectID, id)];
        var at := (projectID, e.flagKey);
        && r == Done(e.(status := "concluded", winner := winnerVariant, concludedAt := now))
        && experiments == old(experiments)[(projectID, id) := r.experiment]
        && flags == if e.flagKey != "" && at in old(flags)
             then old(flags)[at := ConcludedFlag(old(flags)[at], winnerVariant)] else old(flags)
    {
      if (projectID, id) !in experiments {
        return NotFound;
      }
      var exp := experiments[(projectID, id)];
      exp := exp.(status := "concluded", winner := winnerVariant, concludedAt := now);
      experiments := experiments[(projectID, id) := exp];
      if exp.flagKey != "" && (projectID, exp.flagKey) in flags {
        var flag := flags[(projectID, exp.flagKey)];
        var newVariants: seq<Variant> := [];
        for i := 0 to |flag.variants|
          invariant |newVariants| == i
          invariant forall k :: 0 <= k < i ==>
            newVariants[k] == Variant(flag.variants[k].key, if flag.variants[k].key == winnerVariant then 100 else 0)
        {
          var roll := 0;
          if flag.variants[i].key == winnerVariant {
            roll := 100;
          }
          newVariants := newVariants + [Variant(flag.variants[i].key, roll)];
        }
        assert newVariants == WinnerTakesAll(flag.variants, winnerVariant);
        flags := flags[(projectID, exp.flagKey) :=
          flag.(enabled := true, rolloutPercentage := 100, variants := newVariants)];
      }
      return Done(exp);
    }
  }

  predicate HasKey(vs: seq<Variant>, key: string) {
    exists v :: v in vs && v.key == key
  }

  lemma {:induction false} WinnerTotal(vs: seq<Variant>, winner: string, i: nat)
    requires i <= |vs|
    ensures Cumulative(WinnerTakesAll(vs, winner), i) >= 0
    ensures Cumulative(WinnerTakesAll(vs, winner), i) > 0 <==> HasKey(vs[..i], winner)
  {
    if i > 0 {
      WinnerTotal(vs, winner, i - 1);
      assert vs[..i] == vs[..i - 1] + [vs[i - 1]];
      assert vs[i - 1] in vs[..i];
    }
  }

  /** A concluded flag decides alike for everyone its filters let through, with or without an id
      and however the digest falls: the winner, as long as the flag has such a variant. With a
      winner the flag does not know, it is merely on. */
  lemma ConclusionForcesTheWinner(flag: Flag, winner: string, id: string, matches: Matcher, digest: Digest)
    requires AllMatch(flag, id, matches)
    ensures Evaluate(ConcludedFlag(flag, winner), id, matches, digest)
         == if HasKey(flag.variants, winner) then Chosen(winner) else On
  {
    var f := ConcludedFlag(flag, winner);
    var vs := f.variants;
    assert AllMatch(f, id, matches);
    WinnerTotal(flag.variants, winner, |flag.variants|);
    assert flag.variants[..|flag.variants|] == flag.variants;
    if HasKey(flag.variants, winner) {
      var h := HashDistinctId(digest, f.key + ":variant", id);
      PickExists(vs, h);
      if vs[Pick(vs, h)].rollout <= 0 {
        NoRolloutNoPick(vs, Pick(vs, h), h);
      }
    }
  }

  // ----- Results -----

  /** The flag that assigns participants: the linked one, or an even split over the variants. */
  function AssigningFlag(e: Experiment, linked: map<string, Flag>): Flag {
    if e.flagKey in linked then linked[e.flagKey]
    else Flag(e.flagKey, true, 100, [],
      seq(|e.variants|, i requires 0 <= i < |e.variants| => Variant(e.variants[i], 100 / |e.variants|)))
  }

  method AssignFlag(e: Experiment, linked: map<string, Flag>) returns (flag: Flag)
    ensures flag == AssigningFlag(e, linked)
  {
    if e.flagKey in linked {
      return linked[e.flagKey];
    }
    var flagVariants := [];
    for i := 0 to |e.variants|
      invariant flagVariants == AssigningFlag(e, linked).variants[..i]
    {
      flagVariants := flagVariants + [Variant(e.variants[i], 100 / |e.variants|)];
    }
    flag := Flag(e.flagKey, true, 100, [], flagVariants);
  }

  lemma {:induction false} EvenTotal(vs: seq<Variant>, rollout: int, k: nat)
    requires k <= |vs| && forall v :: v in vs ==> v.rollout == rollout
    ensures Cumulative(vs, k) == k * rollout
  {
    if k > 0 {
      EvenTotal(vs, rollout, k - 1);
      assert vs[k - 1] in vs;
    }
  }

  /** Without a linked flag up to a hundred variants share the buckets evenly, each less than one
      away from its due; with more of them the rounded rollouts are all zero and everybody counts
      under the control. */
  lemma EvenSplit(e: Experiment, linked: map<string, Flag>, i: nat, uid: string, matches: Matcher, digest: Digest)
    requires e.flagKey !in linked && i < |e.variants|
    ensures var flag, n := AssigningFlag(e, linked), |e.variants|;
      && |flag.variants| == n
      && (n <= 100 ==> 100 - n < |Share(flag.variants, i)| * n < 100 + n)
      && (n > 100 ==> AssignedTo(e, flag, uid, matches, digest) == e.variants[0])
  {
    hide Share;
    var flag, n := AssigningFlag(e, linked), |e.variants|;
    var r := 100 / n;
    EvenTotal(flag.variants, r, n);
    if n <= 100 {
      assert r > 0;
      ShareIsExact(flag.variants, i);
      ShareOfEven(|Share(flag.variants, i)|, n, r);
    } else {
      assert r == 0;
    }
  }

  /** The place of a bucket among n even stretches of the hundred. */
  function PlaceOf(bucket: int, n: nat): (k: nat)
    requires 0 <= bucket < 100 && n > 0
    ensures k < n && 100 * k <= bucket * n < 100 * (k + 1)
  {
    assert bucket * n < 100 * n;
    bucket * n / 100
  }

  /** Which variant that is: the bucket's place among as many stretches as there are variants. */
  lemma EvenSplitChooses(e: Experiment, linked: map<string, Flag>, uid: string, matches: Matcher, digest: Digest)
    requires e.flagKey !in linked && 1 <= |e.variants| <= 100
    ensures var bucket := digest(e.flagKey + ":variant:" + uid) % 100;
      Evaluate(AssigningFlag(e, linked), uid, matches, digest) == Chosen(e.variants[PlaceOf(bucket, |e.variants|)])
  {
    hide Evaluate, Cumulative, PlaceOf;
    var flag, n := AssigningFlag(e, linked), |e.variants|;
    var r := 100 / n;
    EvenTotal(flag.variants, r, n);
    assert Total(flag.variants) > 0 by { Times(0, n, r); }
    OnBelowPercentage(flag, uid, matches, digest);
    VariantByBucket(flag, uid, matches, digest);
    var bucket := digest(e.flagKey + ":variant:" + uid) % 100;
    var k: nat :| IsFirstOver(flag.variants, bucket, k)
      && Evaluate(flag, uid, matches, digest) == Chosen(flag.variants[k].key);
    FirstOverEven(flag.variants, r, bucket, k);
  }

  lemma FirstOverEven(vs: seq<Variant>, r: int, bucket: int, k: nat)
    requires r > 0 && (forall v :: v in vs ==> v.rollout == r) && 0 <= bucket < 100 && IsFirstOver(vs, bucket, k)
    ensures k == PlaceOf(bucket, |vs|)
  {
    EvenTotal(vs, r, |vs|);
    EvenTotal(vs, r, k);
    EvenTotal(vs, r, k + 1);
    hide Cumulative;
    EvenPlace(|vs|, r, bucket, k);
  }

  lemma EvenPlace(n: int, r: int, bucket: int, k: nat)
    requires r > 0 && n > 0 && 0 <= bucket < 100 && bucket * (n * r) < 100 * ((k + 1) * r)
    requires k > 0 ==> bucket * (n * r) >= 100 * (k * r)
    ensures k == PlaceOf(bucket, n)
  {
    var b := bucket * n;
    assert bucket * (n * r) == b * r && 100 * ((k + 1) * r) == 100 * (k + 1) * r && 100 * (k * r) == 100 * k * r;
    Cancel(b, 100 * (k + 1), r);
    if k > 0 && b < 100 * k {
      Times(b, 100 * k, r);
    }
  }

  lemma Times(a: int, b: int, r: int)
    requires r > 0 && a < b
    ensures a * r < b * r
  {
  }

  lemma ShareOfEven(size: int, n: int, r: int)
    requires n > 0 && r > 0 && 100 * r - n * r < size * (n * r) < 100 * r + n * r
    ensures 100 - n < size * n < 100 + n
  {
    assert size * (n * r) == (size * n) * r && 100 * r - n * r == (100 - n) * r && 100 * r + n * r == (100 + n) * r;
    Cancel(100 - n, size * n, r);
    Cancel(size * n, 100 + n, r);
  }

  lemma Cancel(a: int, b: int, r: int)
    requires r > 0 && a * r < b * r
    ensures a < b
  {
    assert (b - a) * r > 0;
  }

  /** The variant a visitor counts under: the one the flag chose, or the first, the control. */
  function AssignedTo(e: Experiment, flag: Flag, uid: string, matches: Matcher, digest: Digest): (key: string)
    requires e.variants != []
    ensures key in e.variants
  {
    var d := Evaluate(flag, uid, matches, digest);
    if d.Chosen? && d.key != "" && d.key in e.variants then d.key else e.variants[0]
  }

  /** The flag chooses one of the experiment's variants for the visitor. */
  predicate IsChosen(e: Experiment, flag: Flag, uid: string, key: string, matches: Matcher, digest: Digest) {
    key in e.variants && key != "" && Evaluate(flag, uid, matches, digest) == Chosen(key)
  }

  /** A visitor counts under the variant the flag chooses; under the control without one, be it off,
      merely on or on a variant the experiment does not have. */
  ghost predicate CountsUnder(e: Experiment, flag: Flag, uid: string, key: string, matches: Matcher, digest: Digest)
    requires e.variants != []
  {
    if exists k :: IsChosen(e, flag, uid, k, matches, digest) then IsChosen(e, flag, uid, key, matches, digest)
    else key == e.variants[0]
  }

  lemma AssignedMeans(e: Experiment, flag: Flag, uid: string, key: string, matches: Matcher, digest: Digest)
    requires e.variants != []
    ensures AssignedTo(e, flag, uid, matches, digest) == key <==> CountsUnder(e, flag, uid, key, matches, digest)
  {
    hide Evaluate;
    var d := Evaluate(flag, uid, matches, digest);
    if d.Chosen? {
      assert d.key != "" && d.key in e.variants <==> IsChosen(e, flag, uid, d.key, matches, digest);
    }
  }

  /** The places of the visitors that count under a variant; of the converted ones, if asked for. */
  ghost function Takers(e: Experiment, flag: Flag, users: seq<string>, among: set<string>, key: string,
          matches: Matcher, digest: Digest): set<int>
    requires users != [] ==> e.variants != []
  {
    set j | 0 <= j < |users| && users[j] in among && CountsUnder(e, flag, users[j], key, matches, digest)
  }

  lemma TakersSnoc(e: Experiment, flag: Flag, users: seq<string>, among: set<string>, key: string,
          matches: Matcher, digest: Digest)
    requires e.variants != [] && users != []
    ensures var n := |users| - 1;
      |Takers(e, flag, users, among, key, matches, digest)| ==
        |Takers(e, flag, users[..n], among, key, matches, digest)|
          + if users[n] in among && CountsUnder(e, flag, users[n], key, matches, digest) then 1 else 0
  {
    hide CountsUnder;
    var n := |users| - 1;
    var before := Takers(e, flag, users[..n], among, key, matches, digest);
    assert Takers(e, flag, users, among, key, matches, digest) ==
      before + if users[n] in among && CountsUnder(e, flag, users[n], key, matches, digest) then {n} else {};
  }

  lemma {:induction false} CountsAreTakers(e: Experiment, flag: Flag, users: seq<string>, among: set<string>,
          key: string, matches: Matcher, digest: Digest)
    requires e.variants != []
    ensures CountIn(e, flag, ConvertedOnly(users, among), key, matches, digest)
         == |Takers(e, flag, users, among, key, matches, digest)|
  {
    hide AssignedTo, CountsUnder, CountIn, Takers, ConvertedOnly;
    if users == [] {
      NobodyTakes(e, flag, among, key, matches, digest);
    } else {
      var n := |users| - 1;
      assert users[..n] + [users[n]] == users;
      CountsAreTakers(e, flag, users[..n], among, key, matches, digest);
      TakersSnoc(e, flag, users, among, key, matches, digest);
      AssignedMeans(e, flag, users[n], key, matches, digest);
      ConvertedSnoc(users[..n], users[n], among);
      CountSnoc(e, flag, ConvertedOnly(users[..n], among), users[n], key, matches, digest);
    }
  }

  lemma NobodyTakes(e: Experiment, flag: Flag, among: set<string>, key: string, matches: Matcher, digest: Digest)
    requires e.variants != []
    ensures CountIn(e, flag, ConvertedOnly([], among), key, matches, digest) == 0
    ensures Takers(e, flag, [], among, key, matches, digest) == {}
  {
  }

  lemma {:induction false} AllAmongAll(users: seq<string>, among: set<string>)
    requires forall u :: u in users ==> u in among
    ensures ConvertedOnly(users, among) == users
  {
    if users != [] {
      var n := |users| - 1;
      AllAmongAll(users[..n], among);
      assert users[n] in users && users[..n] + [users[n]] == users;
    }
  }

  ghost function Everybody(users: seq<string>): set<string> {
    set u | u in users
  }

  lemma CountsAreExact(e: Experiment, flag: Flag, users: seq<string>, converted: set<string>, key: string,
          matches: Matcher, digest: Digest)
    requires e.variants != []
    ensures CountIn(e, flag, users, key, matches, digest)
         == |Takers(e, flag, users, Everybody(users), key, matches, digest)|
    ensures CountIn(e, flag, ConvertedOnly(users, converted), key, matches, digest)
         == |Takers(e, flag, users, converted, key, matches, digest)|
  {
    hide CountIn, Takers, ConvertedOnly;
    AllAmongAll(users, Everybody(users));
    CountsAreTakers(e, flag, users, Everybody(users), key, matches, digest);
    CountsAreTakers(e, flag, users, converted, key, matches, digest);
  }

  function CountIn(e: Experiment, flag: Flag, users: seq<string>, key: string, matches: Matcher, digest: Digest): nat
    requires e.variants != []
  {
    if users == [] then 0 else
      CountIn(e, flag, users[..|users| - 1], key, matches, digest)
        + if AssignedTo(e, flag, users[|users| - 1], matches, digest) == key then 1 else 0
  }

  function ConvertedOnly(users: seq<string>, converted: set<string>): seq<string> {
    if users == [] then [] else
      var so := ConvertedOnly(users[..|users| - 1], converted);
      if users[|users| - 1] in converted then so + [users[|users| - 1]] else so
  }

  lemma CountSnoc(e: Experiment, flag: Flag, users: seq<string>, uid: string, key: string, matches: Matcher,
          digest: Digest)
    requires e.variants != []
    ensures CountIn(e, flag, users + [uid], key, matches, digest)
         == CountIn(e, flag, users, key, matches, digest)
          + if AssignedTo(e, flag, uid, matches, digest) == key then 1 else 0
  {
    assert (users + [uid])[..|users|] == users;
  }

  lemma ConvertedSnoc(users: seq<string>, uid: string, converted: set<string>)
    ensures ConvertedOnly(users + [uid], converted)
         == if uid in converted then ConvertedOnly(users, converted) + [uid] else ConvertedOnly(users, converted)
  {
    assert (users + [uid])[..|users|] == users;
  }

  /** The tallies after the given users, for every variant of the experiment. */
  ghost predicate Tallied(e: Experiment, flag: Flag, users: seq<string>, tally: map<string, nat>, matches: Matcher,
          digest: Digest)
    requires e.variants != []
  {
    && tally.Keys == (set k | k in e.variants)
    && forall k :: k in e.variants ==> tally[k] == CountIn(e, flag, users, k, matches, digest)
  }

  lemma TallyOne(e: Experiment, flag: Flag, users: seq<string>, uid: string, tally: map<string, nat>,
          matches: Matcher, digest: Digest)
    requires e.variants != [] && Tallied(e, flag, users, tally, matches, digest)
    ensures var key := AssignedTo(e, flag, uid, matches, digest);
      Tallied(e, flag, users + [uid], tally[key := tally[key] + 1], matches, digest)
  {
    hide CountIn, AssignedTo;
    forall k | k in e.variants {
      CountSnoc(e, flag, users, uid, k, matches, digest);
    }
  }

  method StartTally(keys: seq<string>) returns (tally: map<string, nat>)
    ensures tally.Keys == (set k | k in keys) && forall k :: k in tally ==> tally[k] == 0
  {
    tally := map[];
    for i := 0 to |keys|
      invariant tally.Keys == (set k | k in keys[..i]) && forall k :: k in tally ==> tally[k] == 0
    {
      tally := tally[keys[i] := 0];
      assert keys[..i + 1] == keys[..i] + [keys[i]];
    }
    assert keys[..|keys|] == keys;
  }

  lemma KeysTallied(e: Experiment, flag: Flag, users: seq<string>, tally: map<string, nat>, matches: Matcher,
          digest: Digest)
    requires e.variants != [] && Tallied(e, flag, users, tally, matches, digest)
    ensures forall k :: k in tally <==> k in e.variants
  {
  }

  lemma ReadTallies(e: Experiment, flag: Flag, users: seq<string>, tally: map<string, nat>, matches: Matcher,
          digest: Digest)
    requires e.variants != [] ==> Tallied(e, flag, users, tally, matches, digest)
    ensures forall i :: 0 <= i < |e.variants| ==>
      e.variants[i] in tally && tally[e.variants[i]] == CountIn(e, flag, users, e.variants[i], matches, digest)
  {
  }

  lemma NothingTallied(e: Experiment, flag: Flag, p: map<string, nat>, c: map<string, nat>, converted: set<string>,
          matches: Matcher, digest: Digest)
    requires p.Keys == c.Keys == (set k | k in e.variants)
    requires forall k :: k in p ==> p[k] == 0 && c[k] == 0
    ensures e.variants != [] ==>
      Tallied(e, flag, [], p, matches, digest) && Tallied(e, flag, ConvertedOnly([], converted), c, matches, digest)
  {
  }

  /** Where one participant counts. */
  method VariantFor(e: Experiment, flag: Flag, uid: string, known: map<string, nat>, matches: Matcher, digest: Digest)
    returns (vKey: string)
    requires e.variants != [] && forall k :: k in known <==> k in e.variants
    ensures vKey == AssignedTo(e, flag, uid, matches, digest)
    ensures vKey in e.variants && CountsUnder(e, flag, uid, vKey, matches, digest)
  {
    hide Evaluate;
    AssignedMeans(e, flag, uid, AssignedTo(e, flag, uid, matches, digest), matches, digest);
    var val := EvaluateFlag(flag, uid, matches, digest);
    if val.Chosen? && val.key != "" {
      vKey := val.key;
    } else {
      vKey := e.variants[0];
    }
    if vKey !in known {
      vKey := e.variants[0];
    }
  }

  /** An experiment without variants makes the source index an empty list as soon as somebody
      took part. */
  lemma AllCountsAreExact(e: Experiment, flag: Flag, users: seq<string>, converted: set<string>, matches: Matcher,
          digest: Digest)
    requires users != [] ==> e.variants != []
    ensures forall i :: 0 <= i < |e.variants| ==>
      CountIn(e, flag, users, e.variants[i], matches, digest)
        == |Takers(e, flag, users, Everybody(users), e.variants[i], matches, digest)|
      && CountIn(e, flag, ConvertedOnly(users, converted), e.variants[i], matches, digest)
        == |Takers(e, flag, users, converted, e.variants[i], matches, digest)|
  {
    hide CountIn, Takers, ConvertedOnly, Everybody;
    forall i | 0 <= i < |e.variants| {
      CountsAreExact(e, flag, users, converted, e.variants[i], matches, digest);
    }
  }

  method CountParticipants(e: Experiment, flag: Flag, users: seq<string>, converted: set<string>, matches: Matcher,
          digest: Digest)
    returns (results: seq<VariantCount>)
    requires users != [] ==> e.variants != []
    ensures |results| == |e.variants|
    ensures forall i :: 0 <= i < |e.variants| ==>
      var key := e.variants[i];
      results[i] == VariantCount(key, |Takers(e, flag, users, Everybody(users), key, matches, digest)|,
        |Takers(e, flag, users, converted, key, matches, digest)|)
  {
    hide CountIn, AssignedTo, ConvertedOnly, Tallied, CountsUnder, Takers, Everybody;
    var participants := StartTally(e.variants);
    var conversions := StartTally(e.variants);
    NothingTallied(e, flag, participants, conversions, converted, matches, digest);
    for i := 0 to |users|
      invariant e.variants != [] ==> Tallied(e, flag, users[..i], participants, matches, digest)
      invariant e.variants != [] ==>
        Tallied(e, flag, ConvertedOnly(users[..i], converted), conversions, matches, digest)
    {
      var uid := users[i];
      KeysTallied(e, flag, users[..i], participants, matches, digest);
      KeysTallied(e, flag, ConvertedOnly(users[..i], converted), conversions, matches, digest);
      var vKey := VariantFor(e, flag, uid, participants, matches, digest);
      assert users[..i + 1] == users[..i] + [uid];
      ConvertedSnoc(users[..i], uid, converted);
      TallyOne(e, flag, users[..i], uid, participants, matches, digest);
      participants := participants[vKey := participants[vKey] + 1];
      if uid in converted {
        TallyOne(e, flag, ConvertedOnly(users[..i], converted), uid, conversions, matches, digest);
        conversions := conversions[vKey := conversions[vKey] + 1];
      }
    }
    assert users[..|users|] == users;
    ReadTallies(e, flag, users, participants, matches, digest);
    ReadTallies(e, flag, ConvertedOnly(users, converted), conversions, matches, digest);
    results := [];
    for i := 0 to |e.variants|
      invariant |results| == i
      invariant forall k :: 0 <= k < i ==>
        results[k] == VariantCount(e.variants[k], participants[e.variants[k]], conversions[e.variants[k]])
    {
      results := results + [VariantCount(e.variants[i], participants[e.variants[i]], conversions[e.variants[i]])];
    }
    AllCountsAreExact(e, flag, users, converted, matches, digest);
  }

  /** The row of one variant, measured against the first one, the control. */
  function Rated(counts: seq<VariantCount>, i: nat, m: Maths): VariantResult
    requires i < |counts|
  {
    var control, v := counts[0], counts[i];
    var base, rate := Rate(control.conversions, control.participants), Rate(v.conversions, v.participants);
    var interval := ConfidenceInterval(rate, v.participants, m);
    if i == 0 then VariantResult(v, rate, interval, 0.0, 1.0, 0.5) else
      var s := CalculateSignificance(control.conversions, control.participants, v.conversions, v.participants, m);
      VariantResult(v, rate, interval, Lift(base, rate), s.0, s.1)
  }

  function Lift(base: real, rate: real): real {
    if base > 0.0 then (rate - base) / base else 0.0
  }

  function Counts(variants: seq<VariantResult>): (counts: seq<VariantCount>)
    ensures |counts| == |variants| && forall i :: 0 <= i < |variants| ==> counts[i] == variants[i].count
  {
    seq(|variants|, i requires 0 <= i < |variants| => variants[i].count)
  }

  /** Every row is right for what it counts and for what the control's row counts. */
  ghost predicate Measured(variants: seq<VariantResult>, m: Maths) {
    forall i :: 0 <= i < |variants| ==> variants[i] == Rated(Counts(variants), i, m)
  }

  /** The first of the highest rates. */
  predicate Best(variants: seq<VariantResult>, b: nat) {
    && b < |variants|
    && (forall j :: 0 <= j < |variants| ==> variants[j].rate <= variants[b].rate)
    && forall j :: 0 <= j < b ==> variants[j].rate < variants[b].rate
  }

  /** Some variant differs from the control at a p-value of 0.05 or less. */
  predicate SomeDiffers(variants: seq<VariantResult>) {
    exists i :: 0 < i < |variants| && variants[i].pValue <= 0.05
  }

  /** What a set of results may conclude from its rows. */
  ghost predicate Judged(r: ExperimentResults, minimumSample: int) {
    && (r.significant <==> SomeDiffers(r.variants))
    && (r.significant <==> r.significance >= 0.95)
    && (r.significant ==> exists b: nat :: Best(r.variants, b) && r.action == Winning(r.variants[b].count.key))
    && (!r.significant ==> r.action == if r.total < minimumSample then NeedsMoreData else Inconclusive)
  }

  /** The rows of all variants, and the strongest difference from the control. */
  method MeasureVariants(counts: seq<VariantCount>, m: Maths)
    returns (variants: seq<VariantResult>, significance: real)
    ensures |variants| == |counts| && forall i :: 0 <= i < |counts| ==> variants[i] == Rated(counts, i, m)
    ensures significance >= 0.0 && forall i :: 0 < i < |counts| ==> 1.0 - variants[i].pValue <= significance
    ensures significance > 0.0 ==> exists i :: 0 < i < |counts| && significance == 1.0 - variants[i].pValue
  {
    hide CalculateSignificance, ConfidenceInterval, Rate, Lift;
    variants := [];
    significance := 0.0;
    var controlRate, controlPart, controlConv := 0.0, 0, 0;
    ghost var strongest := 0;
    for i := 0 to |counts|
      invariant |variants| == i && forall k :: 0 <= k < i ==> variants[k] == Rated(counts, k, m)
      invariant i > 0 ==>
        controlPart == counts[0].participants && controlConv == counts[0].conversions
        && controlRate == Rate(controlConv, controlPart)
      invariant significance >= 0.0 && forall k :: 0 < k < i ==> 1.0 - variants[k].pValue <= significance
      invariant significance > 0.0 ==> 0 < strongest < i && significance == 1.0 - variants[strongest].pValue
    {
      var n, c := counts[i].participants, counts[i].conversions;
      var rate := Rate(c, n);
      var vr := VariantResult(counts[i], rate, ConfidenceInterval(rate, n, m), 0.0, 1.0, 0.5);
      if i == 0 {
        controlRate, controlPart, controlConv := rate, n, c;
      } else {
        var (pValue, chanceToWin) := CalculateSignificance(controlConv, controlPart, c, n, m);
        vr := vr.(lift := Lift(controlRate, rate), chanceToWin := chanceToWin, pValue := pValue);
        if 1.0 - pValue > significance {
          significance := 1.0 - pValue;
          strongest := i;
        }
      }
      variants := variants + [vr];
    }
  }

  method BestKey(variants: seq<VariantResult>) returns (bestKey: string)
    requires forall i :: 0 <= i < |variants| ==> variants[i].rate >= 0.0
    ensures variants == [] ==> bestKey == ""
    ensures variants != [] ==> exists b: nat :: Best(variants, b) && bestKey == variants[b].count.key
  {
    bestKey := "";
    var bestRate := -1.0;
    ghost var b := 0;
    for i := 0 to |variants|
      invariant i == 0 ==> bestRate == -1.0 && bestKey == ""
      invariant i > 0 ==> b < i && bestRate == variants[b].rate && bestKey == variants[b].count.key
      invariant i > 0 ==> Best(variants[..i], b)
    {
      assert variants[..i + 1] == variants[..i] + [variants[i]];
      if variants[i].rate > bestRate {
        bestRate := variants[i].rate;
        bestKey := variants[i].count.key;
        b := i;
      }
    }
    assert variants[..|variants|] == variants;
  }

  /** What CalculateExperimentResults makes of what its queries returned. */
  method CalculateExperimentResults(e: Experiment, linked: map<string, Flag>, users: seq<string>,
                                    converted: set<string>, matches: Matcher, digest: Digest, m: Maths)
    returns (r: ExperimentResults)
    requires users != [] ==> e.variants != []
    ensures r.total == |users| && |r.variants| == |e.variants|
    ensures forall i :: 0 <= i < |e.variants| ==>
      var flag, key := AssigningFlag(e, linked), e.variants[i];
      r.variants[i].count == VariantCount(key,
        |Takers(e, flag, users, Everybody(users), key, matches, digest)|,
        |Takers(e, flag, users, converted, key, matches, digest)|)
    ensures Measured(r.variants, m) && Judged(r, e.minimumSample)
  {
    hide AssigningFlag, Takers, Everybody, CalculateSignificance, ConfidenceInterval, Rate, Lift;
    var flag := AssignFlag(e, linked);
    var counts := CountParticipants(e, flag, users, converted, matches, digest);
    var variants, significance := MeasureVariants(counts, m);
    assert Counts(variants) == counts;
    var action := Inconclusive;
    if significance >= 0.95 {
      RatesAreNoLess(counts, variants, m);
      var bestKey := BestKey(variants);
      action := Winning(bestKey);
    } else if |users| < e.minimumSample {
      action := NeedsMoreData;
    }
    r := ExperimentResults(|users|, variants, significance, significance >= 0.95, action);
  }

  /** What a row says of its variant beside the control. */
  lemma RowsCompareWithControl(variants: seq<VariantResult>, i: nat, m: Maths)
    requires Lawful(m) && Measured(variants, m) && i < |variants|
    requires forall v :: v in variants ==> v.count.conversions <= v.count.participants
    ensures var c, v := variants[0], variants[i];
      && v.rate * v.count.participants as real == v.count.conversions as real
      && (v.count.participants == 0 ==> v.rate == 0.0)
      && v.interval.0 <= v.rate <= v.interval.1
      && (i == 0 ==> v.lift == 0.0 && v.chanceToWin == 0.5 && v.pValue == 1.0)
      && (i > 0 && c.rate > 0.0 ==> v.rate == c.rate + v.lift * c.rate)
      && (i > 0 && c.rate == 0.0 ==> v.lift == 0.0)
      && (i > 0 && c.count.participants > 0 && v.count.participants > 0
          && !AllAgainstNone(c.count.conversions, c.count.participants, v.count.conversions, v.count.participants)
          ==> (v.chanceToWin > 0.5 <==> v.rate > c.rate) && (v.chanceToWin < 0.5 <==> v.rate < c.rate))
  {
    hide CalculateSignificance, ConfidenceInterval, Rate, Counts, Lift, AllAgainstNone;
    var c, v := variants[0].count, variants[i].count;
    assert variants[0] in variants && variants[i] in variants;
    assert variants[0] == Rated(Counts(variants), 0, m) && variants[i] == Rated(Counts(variants), i, m);
    RateTimes(v);
    IntervalHoldsTheRate(v.conversions, v.participants, m);
    if i > 0 {
      RateIsNoLess(c.conversions, c.participants);
      LiftTimes(variants[0].rate, variants[i].rate);
      if !AllAgainstNone(c.conversions, c.participants, v.conversions, v.participants) {
        ChanceIsRight(c, v, m);
      }
    }
  }

  lemma LiftTimes(base: real, rate: real)
    requires base >= 0.0
    ensures base > 0.0 ==> rate == base + Lift(base, rate) * base
    ensures base == 0.0 ==> Lift(base, rate) == 0.0
  {
  }

  lemma ChanceIsRight(c: VariantCount, v: VariantCount, m: Maths)
    requires Lawful(m) && c.conversions <= c.participants && v.conversions <= v.participants
    requires !AllAgainstNone(c.conversions, c.participants, v.conversions, v.participants)
    ensures c.participants > 0 && v.participants > 0 ==>
      var chance := CalculateSignificance(c.conversions, c.participants, v.conversions, v.participants, m).1;
      var base, rate := Rate(c.conversions, c.participants), Rate(v.conversions, v.participants);
      (chance > 0.5 <==> rate > base) && (chance < 0.5 <==> rate < base)
  {
    hide CalculateSignificance, Rate;
    ChanceIsExact(c.conversions, c.participants, v.conversions, v.participants, m);
    if c.participants > 0 && v.participants > 0 {
      RatesCompare(c.conversions, c.participants, v.conversions, v.participants);
    }
  }

  lemma RateTimes(v: VariantCount)
    requires v.conversions <= v.participants
    ensures Rate(v.conversions, v.participants) * v.participants as real == v.conversions as real
    ensures v.participants == 0 ==> Rate(v.conversions, v.participants) == 0.0
  {
  }

  lemma RatesAreNoLess(counts: seq<VariantCount>, variants: seq<VariantResult>, m: Maths)
    requires |variants| == |counts| && forall i :: 0 <= i < |counts| ==> variants[i] == Rated(counts, i, m)
    ensures forall i :: 0 <= i < |variants| ==> variants[i].rate >= 0.0
  {
    hide CalculateSignificance, ConfidenceInterval, Lift;
    forall i | 0 <= i < |variants| ensures variants[i].rate >= 0.0 {
      RateIsNoLess(counts[i].conversions, counts[i].participants);
    }
  }

  lemma RateIsNoLess(c: nat, n: nat)
    ensures Rate(c, n) >= 0.0
  {
    if n > 0 {
      OverKeepsSign(c as real, n as real);
    }
  }

  /** With one treatment beside the control a winner is a winner: its rate is the higher one, and the
      two differ at 0.05 or less whichever of them is taken for the control. */
  lemma OneTreatmentIsDecided(r: ExperimentResults, minimumSample: int, m: Maths)
    requires Lawful(m) && |r.variants| == 2 && r.significant
    requires Measured(r.variants, m) && Judged(r, minimumSample)
    requires forall v :: v in r.variants ==> v.count.conversions <= v.count.participants
    ensures exists w, l ::
      && {w, l} == {0, 1} && r.action == Winning(r.variants[w].count.key)
      && r.variants[w].rate > r.variants[l].rate
      && CalculateSignificance(r.variants[l].count.conversions, r.variants[l].count.participants,
           r.variants[w].count.conversions, r.variants[w].count.participants, m).0 <= 0.05
  {
    hide CalculateSignificance, ConfidenceInterval, Lift, Rate;
    var a, b := r.variants[0].count, r.variants[1].count;
    assert r.variants[0] == Rated(Counts(r.variants), 0, m) && r.variants[1] == Rated(Counts(r.variants), 1, m);
    OnlyEqualRatesSayNothing(a.conversions, a.participants, b.conversions, b.participants, m);
    SidesAreSymmetric(a.conversions, a.participants, b.conversions, b.participants, m);
    DifferentRates(a, b);
    var w: nat :| Best(r.variants, w) && r.action == Winning(r.variants[w].count.key);
    assert r.variants[1 - w].rate != r.variants[w].rate;
    assert {w, 1 - w} == {0, 1};
  }

  lemma DifferentRates(a: VariantCount, b: VariantCount)
    requires a.conversions <= a.participants && b.conversions <= b.participants
    requires a.conversions * b.participants != b.conversions * a.participants
    ensures Rate(a.conversions, a.participants) != Rate(b.conversions, b.participants)
  {
    RatesCompare(a.conversions, a.participants, b.conversions, b.participants);
  }

  /** With two treatments it need not be. Whenever none out of a hundred differs from 50 at 0.05 and
      51 does not, the variant with 51 is announced as winning. */
  lemma UnprovenWinner(r: ExperimentResults, minimumSample: int, m: Maths)
    requires Measured(r.variants, m) && Judged(r, minimumSample)
    requires Counts(r.variants)
      == [VariantCount("a", 100, 50), VariantCount("b", 100, 51), VariantCount("c", 100, 0)]
    requires CalculateSignificance(50, 100, 0, 100, m).0 <= 0.05 < CalculateSignificance(50, 100, 51, 100, m).0
    ensures r.action == Winning("b") && r.variants[1].pValue > 0.05
  {
    hide CalculateSignificance, ConfidenceInterval, Lift;
    var counts := Counts(r.variants);
    assert |r.variants| == 3;
    forall i | 0 <= i < 3 ensures r.variants[i] == Rated(counts, i, m) && r.variants[i].count == counts[i] {
    }
    assert r.variants[2].pValue <= 0.05;
    assert r.variants[0].rate == 0.5 && r.variants[1].rate == 0.51 && r.variants[2].rate == 0.0;
    var b: nat :| Best(r.variants, b) && r.action == Winning(r.variants[b].count.key);
    assert b == 1;
  }


  function SumOver(e: Experiment, flag: Flag, users: seq<string>, keys: seq<string>, matches: Matcher,
          digest: Digest): nat
    requires e.variants != []
  {
    if keys == [] then 0 else
      CountIn(e, flag, users, keys[0], matches, digest) + SumOver(e, flag, users, keys[1..], matches, digest)
  }

  lemma {:induction false} OneMoreUser(e: Experiment, flag: Flag, users: seq<string>, uid: string, keys: seq<string>,
          matches: Matcher, digest: Digest)
    requires e.variants != [] && Distinct(keys)
    ensures SumOver(e, flag, users + [uid], keys, matches, digest) == SumOver(e, flag, users, keys, matches, digest)
      + if AssignedTo(e, flag, uid, matches, digest) in keys then 1 else 0
  {
    hide AssignedTo;
    if keys != [] {
      assert (users + [uid])[..|users|] == users;
      OneMoreUser(e, flag, users, uid, keys[1..], matches, digest);
      assert keys[0] !in keys[1..];
    }
  }

  lemma {:induction false} NobodySumsToNothing(e: Experiment, flag: Flag, keys: seq<string>, matches: Matcher,
          digest: Digest)
    requires e.variants != []
    ensures SumOver(e, flag, [], keys, matches, digest) == 0
  {
    if keys != [] {
      NobodySumsToNothing(e, flag, keys[1..], matches, digest);
    }
  }

  /** Everybody is counted once: over distinct variants participants add up to the total, whatever
      the flag, even one with other variants than the experiment's. */
  lemma {:induction false} ParticipantsAddUp(e: Experiment, flag: Flag, users: seq<string>, matches: Matcher,
          digest: Digest)
    requires e.variants != [] && Distinct(e.variants)
    ensures SumOver(e, flag, users, e.variants, matches, digest) == |users|
  {
    if users == [] {
      NobodySumsToNothing(e, flag, e.variants, matches, digest);
    } else {
      var last := |users| - 1;
      ParticipantsAddUp(e, flag, users[..last], matches, digest);
      OneMoreUser(e, flag, users[..last], users[last], e.variants, matches, digest);
      assert users[..last] + [users[last]] == users;
    }
  }

  /** No variant converts more visitors than it has. */
  lemma {:induction false} ConversionsNeverExceed(e: Experiment, flag: Flag, users: seq<string>,
          converted: set<string>, key: string, matches: Matcher, digest: Digest)
    requires e.variants != []
    ensures CountIn(e, flag, ConvertedOnly(users, converted), key, matches, digest)
         <= CountIn(e, flag, users, key, matches, digest)
  {
    hide AssignedTo;
    if users != [] {
      var last := |users| - 1;
      assert users[..last] + [users[last]] == users;
      ConversionsNeverExceed(e, flag, users[..last], converted, key, matches, digest);
      ConvertedSnoc(users[..last], users[last], converted);
      CountSnoc(e, flag, users[..last], users[last], key, matches, digest);
      CountSnoc(e, flag, ConvertedOnly(users[..last], converted), users[last], key, matches, digest);
    }
  }
}
