/** The metric alert worker (internal/alert/metric_worker.go, internal/store/metric_alerts.go):
    rules that fire and calm down, the incidents they open and close, and what is notified. One
    worker, no failing store; values and thresholds are exact. */
module MetricAlerts {
  import opened Common

  datatype Status = Ok | Warning | Firing

  datatype Operator = SpikeMultiplier | Gt | Gte | Lt | Unknown

  datatype Rule = Rule(id: int, operator: Operator, critical: real, warning: Option<real>, currentStatus: Status)

  /** What was measured now, and in the time before. */
  datatype Reading = Reading(value: real, baseline: real)

  datatype Incident = Incident(ruleID: int, firing: bool, peak: real)

  datatype Notice = Notice(ruleID: int, incident: nat, resolved: bool)

  /** An incident's id is its position. */
  datatype Db = Db(status: map<int, Status>, incidents: seq<Incident>, notices: seq<Notice>)

  const MIN_COUNT := 5.0

  /** How many times the baseline a value is; 10 times an empty one if it is large enough. */
  function Multiple(current: real, baseline: real, minCount: real): real {
    if baseline > 0.0 then current / baseline else if current >= minCount then 10.0 else 0.0
  }

  predicate IsAnomaly(current: real, baseline: real, spikeThreshold: real, minCount: real) {
    var k := if spikeThreshold <= 1.0 then 2.0 else spikeThreshold;
    var least := if minCount <= 0.0 then 5.0 else minCount;
    current >= least && Multiple(current, baseline, least) >= k
  }

  method EvaluateAnomaly(current: real, baseline: real, spikeThreshold: real, minCount: real) returns (anomaly: bool)
    ensures anomaly == IsAnomaly(current, baseline, spikeThreshold, minCount)
  {
    var k, least := spikeThreshold, minCount;
    if k <= 1.0 {
      k := 2.0;
    }
    if least <= 0.0 {
      least := 5.0;
    }
    var mult := 0.0;
    if baseline > 0.0 {
      mult := current / baseline;
    } else if current >= least {
      mult := 10.0;
    }
    anomaly := current >= least && mult >= k;
  }

  /** What a reading asks for; the new status, whatever the old one was. */
  function Verdict(r: Rule, x: Reading): Status {
    match r.operator
    case SpikeMultiplier => if IsAnomaly(x.value, x.baseline, r.critical, MIN_COUNT) then Firing else Ok
    case Gt =>
      if x.value > r.critical then Firing
      else if r.warning.Some? && x.value > r.warning.value then Warning else Ok
    case Gte =>
      if x.value >= r.critical then Firing
      else if r.warning.Some? && x.value >= r.warning.value then Warning else Ok
    case Lt =>
      if x.value < r.critical then Firing
      else if r.warning.Some? && x.value < r.warning.value then Warning else Ok
    case Unknown => Ok
  }

  function Max(x: real, y: real): (m: real)
    ensures x <= m && y <= m && (m == x || m == y)
  {
    if x < y then y else x
  }

  /** On which side of a threshold a value sets the rule off. */
  predicate Beyond(op: Operator, value: real, threshold: real) {
    match op
    case Gt => value > threshold
    case Gte => value >= threshold
    case Lt => value < threshold
    case _ => false
  }

  /** The one after the other: beyond the critical threshold a rule fires, beyond its warning
      threshold alone it warns, and else it is calm. */
  lemma ThresholdsDecide(r: Rule, x: Reading)
    requires r.operator != SpikeMultiplier
    ensures Verdict(r, x) == Firing <==> Beyond(r.operator, x.value, r.critical)
    ensures Verdict(r, x) == Warning <==>
      !Beyond(r.operator, x.value, r.critical) && r.warning.Some? && Beyond(r.operator, x.value, r.warning.value)
  {
  }

  function Severity(s: Status): int {
    match s case Ok => 0 case Warning => 1 case Firing => 2
  }

  /** A reading further out is never judged milder, whatever the two thresholds. */
  lemma FurtherIsNoMilder(r: Rule, x: Reading, y: Reading)
    requires if r.operator == Lt then y.value <= x.value else x.value <= y.value
    requires x.baseline == y.baseline
    ensures Severity(Verdict(r, x)) <= Severity(Verdict(r, y))
  {
    if r.operator == SpikeMultiplier && x.baseline > 0.0 {
      OverGrows(x.value, y.value, x.baseline);
    }
  }

  lemma OverGrows(x: real, y: real, d: real)
    requires x <= y && d > 0.0
    ensures x / d <= y / d
  {
  }

  /** A spike is a value of at least five that is at least so many times the baseline, where a factor
      up to 1 stands for 2; from nothing it counts as tenfold, so that a factor above 10 never
      fires without a baseline. */
  lemma SpikesExactly(r: Rule, x: Reading)
    requires r.operator == SpikeMultiplier
    ensures var factor := if r.critical <= 1.0 then 2.0 else r.critical;
      var spike := if x.baseline > 0.0 then x.value >= factor * x.baseline else factor <= 10.0;
      Verdict(r, x) == if x.value >= 5.0 && spike then Firing else Ok
  {
    if x.baseline > 0.0 {
      QuotientAtLeast(x.value, x.baseline, if r.critical <= 1.0 then 2.0 else r.critical);
    }
  }

  lemma QuotientAtLeast(x: real, d: real, factor: real)
    requires d > 0.0
    ensures x / d >= factor <==> x >= factor * d
  {
    var q := x / d;
    assert q * d == x;
    ScaledCompare(q, factor, d);
  }

  lemma ScaledCompare(q: real, f: real, d: real)
    requires d > 0.0
    ensures q >= f <==> q * d >= f * d
  {
  }

  /** The rule's youngest firing incident. */
  function Active(incidents: seq<Incident>, rule: int): (r: Option<nat>)
    ensures r.Some? ==> r.value < |incidents| && incidents[r.value].ruleID == rule && incidents[r.value].firing
  {
    if incidents == [] then None else
      var n := |incidents| - 1;
      if incidents[n].ruleID == rule && incidents[n].firing then Some(n) else Active(incidents[..n], rule)
  }

  function StatusOf(db: Db, rule: int): Status {
    if rule in db.status then db.status[rule] else Ok
  }

  /** UPDATE metric_alert_rules; a rule that is gone stays gone. */
  function StatusSet(status: map<int, Status>, rule: int, s: Status): map<int, Status> {
    if rule in status then status[rule := s] else status
  }

  /** One evaluation of a rule by a worker that believes it to have the given status: open an
      incident, raise its peak, close it, or nothing. */
  function EvaluatedAs(db: Db, rule: int, believed: Status, verdict: Status, value: real): Db {
    var status := StatusSet(db.status, rule, verdict);
    var active := Active(db.incidents, rule);
    if verdict == Firing then
      if believed != Firing then
        Db(status, db.incidents + [Incident(rule, true, value)], db.notices + [Notice(rule, |db.incidents|, false)])
      else if active.None? then db
      else
        var i := active.value;
        db.(incidents := db.incidents[i := db.incidents[i].(peak := Max(db.incidents[i].peak, value))])
    else if believed == Firing && active.Some? then
      var i := active.value;
      Db(status,
         db.incidents[i := db.incidents[i].(firing := false, peak := Max(db.incidents[i].peak, value))],
         db.notices + [Notice(rule, i, true)])
    else if believed != verdict then db.(status := status)
    else db
  }

  /** The evaluation with the status the rule really has. */
  function Evaluated(db: Db, rule: int, verdict: Status, value: real): Db {
    EvaluatedAs(db, rule, StatusOf(db, rule), verdict, value)
  }

  lemma BelievedIsCurrent(db: Db, rule: int, believed: Status, verdict: Status, value: real)
    requires rule in db.status && db.status[rule] == believed
    ensures EvaluatedAs(db, rule, believed, verdict, value) == Evaluated(db, rule, verdict, value)
  {
    hide EvaluatedAs;
  }

  lemma OnlyItsOwnStatus(db: Db, rule: int, verdict: Status, value: real)
    requires rule in db.status
    ensures var after := Evaluated(db, rule, verdict, value);
      after.status.Keys == db.status.Keys && forall r :: r in db.status && r != rule ==> after.status[r] == db.status[r]
  {
  }

  datatype Eval = Eval(rule: int, verdict: Status, value: real)

  function Run(db: Db, evals: seq<Eval>): Db {
    if evals == [] then db else
      var e := evals[|evals| - 1];
      Evaluated(Run(db, evals[..|evals| - 1]), e.rule, e.verdict, e.value)
  }

  /** The evaluations of one pass over the active rules. */
  function Pass(rules: seq<Rule>, readings: seq<Option<Reading>>): seq<Eval>
    requires |rules| == |readings|
  {
    if rules == [] then [] else
      var n := |rules| - 1;
      var before := Pass(rules[..n], readings[..n]);
      if readings[n].None? then before
      else before + [Eval(rules[n].id, Verdict(rules[n], readings[n].value), readings[n].value.value)]
  }

  class MetricWorker {
    var status: map<int, Status>
    var incidents: seq<Incident>
    var notices: seq<Notice>

    function State(): Db
      reads this
    {
      Db(status, incidents, notices)
    }

    constructor (status: map<int, Status>)
      ensures State() == Db(status, [], [])
    {
      this.status, incidents, notices := status, [], [];
    }

    method UpdateMetricRuleStatus(rule: int, s: Status)
      modifies this`status
      ensures status == StatusSet(old(status), rule, s)
    {
      if rule in status {
        status := status[rule := s];
      }
    }

    method CreateMetricIncident(rule: int, peak: real) returns (id: nat)
      modifies this`incidents
      ensures id == |old(incidents)| && incidents == old(incidents) + [Incident(rule, true, peak)]
    {
      id := |incidents|;
      incidents := incidents + [Incident(rule, true, peak)];
    }

    method GetActiveIncidentForRule(rule: int) returns (id: Option<nat>)
      ensures id == Active(incidents, rule)
    {
      var i := |incidents|;
      assert incidents[..i] == incidents;
      while i > 0
        invariant i <= |incidents| && Active(incidents, rule) == Active(incidents[..i], rule)
      {
        i := i - 1;
        assert incidents[..i + 1][..i] == incidents[..i];
        if incidents[i].ruleID == rule && incidents[i].firing {
          return Some(i);
        }
      }
      return None;
    }

    method UpdateIncidentPeak(id: nat, peak: real)
      requires id < |incidents|
      modifies this`incidents
      ensures incidents == old(incidents)[id := old(incidents)[id].(peak := Max(old(incidents)[id].peak, peak))]
    {
      incidents := incidents[id := incidents[id].(peak := Max(incidents[id].peak, peak))];
    }

    method ResolveActiveIncident(id: nat, peak: real)
      requires id < |incidents|
      modifies this`incidents
      ensures var i := old(incidents)[id].(firing := false, peak := Max(old(incidents)[id].peak, peak));
        old(incidents)[id].firing ==> incidents == old(incidents)[id := i]
      ensures !old(incidents)[id].firing ==> incidents == old(incidents)
    {
      if incidents[id].firing {
        incidents := incidents[id := incidents[id].(firing := false, peak := Max(incidents[id].peak, peak))];
      }
    }

    /** The state machine. The rule carries the status it had when the rules were listed, which
        is all that is asked of it here. */
    method EvaluateRule(r: Rule, x: Reading)
      modifies this
      ensures State() == EvaluatedAs(old(State()), r.id, r.currentStatus, Verdict(r, x), x.value)
    {
      var val := x.value;
      var isFiring, isWarning := false, false;
      match r.operator {
        case SpikeMultiplier => isFiring := EvaluateAnomaly(x.value, x.baseline, r.critical, MIN_COUNT);
        case Gt =>
          isFiring := val > r.critical;
          isWarning := r.warning.Some? && val > r.warning.value;
        case Gte =>
          isFiring := val >= r.critical;
          isWarning := r.warning.Some? && val >= r.warning.value;
        case Lt =>
          isFiring := val < r.critical;
          isWarning := r.warning.Some? && val < r.warning.value;
        case Unknown =>
      }
      assert Verdict(r, x) == if isFiring then Firing else if isWarning then Warning else Ok;
      if isFiring {
        if r.currentStatus != Firing {
          UpdateMetricRuleStatus(r.id, Firing);
          var inc := CreateMetricIncident(r.id, val);
          notices := notices + [Notice(r.id, inc, false)];
        } else {
          var inc := GetActiveIncidentForRule(r.id);
          if inc.Some? {
            UpdateIncidentPeak(inc.value, val);
          }
        }
      } else {
        var calm := if isWarning then Warning else Ok;
        if r.currentStatus == Firing {
          var inc := GetActiveIncidentForRule(r.id);
          if inc.Some? {
            ResolveActiveIncident(inc.value, val);
            notices := notices + [Notice(r.id, inc.value, true)];
          }
          UpdateMetricRuleStatus(r.id, calm);
        } else if r.currentStatus != calm {
          UpdateMetricRuleStatus(r.id, calm);
        }
      }
    }

    /** One pass over the rules as listed. The statuses they carry stay current until each one's
        turn, because a rule is listed once and changes no status but its own. A value that cannot
        be read skips its rule. */
    method EvaluateAll(rules: seq<Rule>, readings: seq<Option<Reading>>)
      requires |rules| == |readings|
      requires forall i, j :: 0 <= i < j < |rules| ==> rules[i].id != rules[j].id
      requires forall i :: 0 <= i < |rules| ==> rules[i].id in status && status[rules[i].id] == rules[i].currentStatus
      modifies this
      ensures State() == Run(old(State()), Pass(rules, readings))
    {
      hide Verdict, Active, EvaluatedAs, Evaluated;
      for i := 0 to |rules|
        invariant State() == Run(old(State()), Pass(rules[..i], readings[..i]))
        invariant forall j :: i <= j < |rules| ==>
          rules[j].id in status && status[rules[j].id] == rules[j].currentStatus
      {
        assert rules[..i + 1][..i] == rules[..i] && readings[..i + 1][..i] == readings[..i];
        if readings[i].Some? {
          ghost var before := Pass(rules[..i], readings[..i]);
          var r, x := rules[i], readings[i].value;
          OnlyItsOwnStatus(State(), r.id, Verdict(r, x), x.value);
          BelievedIsCurrent(State(), r.id, r.currentStatus, Verdict(r, x), x.value);
          EvaluateRule(r, x);
          ghost var e := Eval(r.id, Verdict(r, x), x.value);
          assert (before + [e])[..|before|] == before;
        }
      }
      assert rules[..|rules|] == rules && readings[..|rules|] == readings;
    }
  }

  // ----- One rule's history -----

  function Of(evals: seq<Eval>, rule: int): seq<Eval> {
    if evals == [] then [] else
      var n := |evals| - 1;
      if evals[n].rule == rule then Of(evals[..n], rule) + [evals[n]] else Of(evals[..n], rule)
  }

  function IncidentsOf(incidents: seq<Incident>, rule: int): seq<Incident> {
    if incidents == [] then [] else
      var n := |incidents| - 1;
      var before := IncidentsOf(incidents[..n], rule);
      if incidents[n].ruleID == rule then before + [incidents[n]] else before
  }

  function NoticesOf(notices: seq<Notice>, rule: int): seq<bool> {
    if notices == [] then [] else
      var n := |notices| - 1;
      var before := NoticesOf(notices[..n], rule);
      if notices[n].ruleID == rule then before + [notices[n].resolved] else before
  }

  /** The positions where a rule starts to fire. */
  function Starts(es: seq<Eval>): (s: seq<nat>)
    ensures forall k :: 0 <= k < |s| ==> s[k] < |es| && StartsAt(es, s[k])
    ensures forall k :: 0 < k < |s| ==> s[k - 1] < s[k]
  {
    if es == [] then [] else
      var n := |es| - 1;
      var before := Starts(es[..n]);
      if es[n].verdict == Firing && (n == 0 || es[n - 1].verdict != Firing) then before + [n] else before
  }

  predicate StartsAt(es: seq<Eval>, i: nat) {
    i < |es| && es[i].verdict == Firing && (i == 0 || es[i - 1].verdict != Firing)
  }

  lemma {:induction false} StartsAreAll(es: seq<Eval>, i: nat)
    requires StartsAt(es, i)
    ensures i in Starts(es)
  {
    var n := |es| - 1;
    if i < n {
      StartsAreAll(es[..n], i);
    }
  }

  /** The first position from i on where the rule does not fire. */
  function Calm(es: seq<Eval>, i: nat): (j: nat)
    requires i <= |es|
    ensures i <= j <= |es| && (j < |es| ==> es[j].verdict != Firing)
    ensures forall k :: i <= k < j ==> es[k].verdict == Firing
    decreases |es| - i
  {
    if i < |es| && es[i].verdict == Firing then Calm(es, i + 1) else i
  }

  function MaxOf(es: seq<Eval>, i: nat, j: nat): (m: real)
    requires i < j <= |es|
    ensures (forall k :: i <= k < j ==> es[k].value <= m) && exists k :: i <= k < j && es[k].value == m
  {
    if j == i + 1 then es[i].value else Max(MaxOf(es, i, j - 1), es[j - 1].value)
  }

  /** The incident that a stretch beginning at i is: firing until the rule calms down, its peak the
      maximum over the stretch and the value that ended it. */
  function IncidentAt(es: seq<Eval>, rule: int, i: nat): Incident
    requires i < |es|
  {
    var j := Calm(es, i);
    if j == |es| then Incident(rule, true, MaxOf(es, i, j)) else Incident(rule, false, MaxOf(es, i, j + 1))
  }

  function IncidentsAt(es: seq<Eval>, rule: int, starts: seq<nat>): seq<Incident>
    requires forall k :: 0 <= k < |starts| ==> starts[k] < |es|
  {
    if starts == [] then [] else
      var n := |starts| - 1;
      IncidentsAt(es, rule, starts[..n]) + [IncidentAt(es, rule, starts[n])]
  }

  predicate EndsFiring(es: seq<Eval>) {
    es != [] && es[|es| - 1].verdict == Firing
  }

  /** Where a stretch that calmed at c, or not in the first n evaluations, calms after one more. */
  function CalmLater(c: nat, n: nat, e: Eval): nat {
    if c < n then c else if e.verdict == Firing then n + 1 else n
  }

  lemma {:induction false} CalmSnoc(es: seq<Eval>, e: Eval, i: nat)
    requires i <= |es|
    ensures Calm(es + [e], i) == CalmLater(Calm(es, i), |es|, e)
    decreases |es| - i
  {
    if i < |es| && es[i].verdict == Firing {
      CalmSnoc(es, e, i + 1);
    }
  }

  lemma {:induction false} MaxSnoc(es: seq<Eval>, e: Eval, i: nat, j: nat)
    requires i < j <= |es|
    ensures MaxOf(es + [e], i, j) == MaxOf(es, i, j)
  {
    if j > i + 1 {
      MaxSnoc(es, e, i, j - 1);
    }
  }

  lemma {:induction false} CalmOfNew(es: seq<Eval>, e: Eval)
    requires e.verdict == Firing
    ensures Calm(es + [e], |es|) == |es| + 1
  {
  }

  /** All stretches but the last are over, and the last one too unless it is open. */
  predicate Over(es: seq<Eval>, starts: seq<nat>, open: bool)
    requires forall k :: 0 <= k < |starts| ==> starts[k] < |es|
  {
    && (forall k :: 0 <= k < |starts| - 1 ==> Calm(es, starts[k]) < |es|)
    && (starts != [] ==> (Calm(es, starts[|starts| - 1]) == |es| <==> open))
    && (open ==> starts != [])
  }

  /** Every stretch but an open last one is over. */
  lemma {:induction false} StartsAreOver(es: seq<Eval>)
    ensures Over(es, Starts(es), EndsFiring(es))
  {
    if es != [] {
      var n := |es| - 1;
      var before, e := es[..n], es[n];
      assert es == before + [e];
      StartsAreOver(before);
      StartsSnoc(before, e);
      hide Starts, Calm, Over;
      OverSnoc(before, e, Starts(before));
    }
  }

  lemma {:induction false} OverSnoc(es: seq<Eval>, e: Eval, starts: seq<nat>)
    requires (forall k :: 0 <= k < |starts| ==> starts[k] < |es|) && Over(es, starts, EndsFiring(es))
    ensures var next := if e.verdict == Firing && !EndsFiring(es) then starts + [|es|] else starts;
      Over(es + [e], next, e.verdict == Firing)
  {
    hide Calm;
    forall k | 0 <= k < |starts|
      ensures Calm(es + [e], starts[k]) == CalmLater(Calm(es, starts[k]), |es|, e)
    {
      CalmSnoc(es, e, starts[k]);
    }
    if e.verdict == Firing {
      CalmOfNew(es, e);
    }
  }

  lemma SettledOne(es: seq<Eval>, e: Eval, rule: int, i: nat)
    requires i < |es| && Calm(es, i) < |es|
    ensures IncidentAt(es + [e], rule, i) == IncidentAt(es, rule, i)
  {
    hide Calm, MaxOf;
    CalmSnoc(es, e, i);
    MaxSnoc(es, e, i, Calm(es, i) + 1);
  }

  /** A stretch that is over has its incident settled, whatever comes. */
  lemma {:induction false} SettledStay(es: seq<Eval>, e: Eval, rule: int, starts: seq<nat>)
    requires forall k :: 0 <= k < |starts| ==> starts[k] < |es| && Calm(es, starts[k]) < |es|
    ensures IncidentsAt(es + [e], rule, starts) == IncidentsAt(es, rule, starts)
  {
    hide Calm, IncidentAt;
    if starts != [] {
      var n := |starts| - 1;
      SettledStay(es, e, rule, starts[..n]);
      SettledOne(es, e, rule, starts[n]);
    }
  }

  /** What one more evaluation does to the list of stretches. */
  lemma {:induction false} IncidentsSnoc(es: seq<Eval>, e: Eval, rule: int)
    ensures var was, now := IncidentsAt(es, rule, Starts(es)), IncidentsAt(es + [e], rule, Starts(es + [e]));
      && (EndsFiring(es) ==> was != [] && was[|was| - 1].firing)
      && (EndsFiring(es) ==>
           now == was[..|was| - 1] + [Incident(rule, e.verdict == Firing, Max(was[|was| - 1].peak, e.value))])
      && (!EndsFiring(es) && e.verdict == Firing ==> now == was + [Incident(rule, true, e.value)])
      && (!EndsFiring(es) && e.verdict != Firing ==> now == was)
  {
    hide Starts, Max;
    var starts := Starts(es);
    StartsSnoc(es, e);
    StartsAreOver(es);
    if EndsFiring(es) {
      LastStretchGoesOn(es, e, rule, starts);
    } else {
      SettledStay(es, e, rule, starts);
      if e.verdict == Firing {
        NewStretch(es, e, rule, starts);
      }
    }
  }

  lemma {:induction false} StartsSnoc(es: seq<Eval>, e: Eval)
    ensures Starts(es + [e]) == if e.verdict == Firing && !EndsFiring(es) then Starts(es) + [|es|] else Starts(es)
  {
    assert (es + [e])[..|es|] == es;
  }

  lemma {:induction false} LastStretchGoesOn(es: seq<Eval>, e: Eval, rule: int, starts: seq<nat>)
    requires EndsFiring(es) && starts != [] && forall k :: 0 <= k < |starts| ==> starts[k] < |es|
    requires forall k :: 0 <= k < |starts| - 1 ==> Calm(es, starts[k]) < |es|
    requires Calm(es, starts[|starts| - 1]) == |es|
    ensures var was, now := IncidentsAt(es, rule, starts), IncidentsAt(es + [e], rule, starts);
      && was != [] && was[|was| - 1].firing
      && now == was[..|was| - 1] + [Incident(rule, e.verdict == Firing, Max(was[|was| - 1].peak, e.value))]
  {
    var m := |starts| - 1;
    SettledStay(es, e, rule, starts[..m]);
    CalmSnoc(es, e, starts[m]);
    MaxSnoc(es, e, starts[m], |es|);
    assert MaxOf(es + [e], starts[m], |es| + 1) == Max(MaxOf(es, starts[m], |es|), e.value);
  }

  lemma {:induction false} NewStretch(es: seq<Eval>, e: Eval, rule: int, starts: seq<nat>)
    requires e.verdict == Firing && forall k :: 0 <= k < |starts| ==> starts[k] < |es|
    ensures IncidentsAt(es + [e], rule, starts + [|es|]) ==
      IncidentsAt(es + [e], rule, starts) + [Incident(rule, true, e.value)]
  {
    assert (starts + [|es|])[..|starts|] == starts;
    assert Calm(es + [e], |es|) == |es| + 1;
  }

  // ----- The store's tables against the history -----

  lemma {:induction false} OtherRulesIncidents(incidents: seq<Incident>, i: nat, x: Incident, rule: int)
    requires i < |incidents| && incidents[i].ruleID != rule && x.ruleID != rule
    ensures IncidentsOf(incidents[i := x], rule) == IncidentsOf(incidents, rule)
  {
    var n := |incidents| - 1;
    assert incidents[i := x][..n] == if i < n then incidents[..n][i := x] else incidents[..n];
    if i < n {
      OtherRulesIncidents(incidents[..n], i, x, rule);
    }
  }

  /** If the rule's last incident is firing, it is the one that is found and changed. */
  lemma {:induction false} LastIsActive(incidents: seq<Incident>, rule: int, x: Incident)
    requires x.ruleID == rule
    requires var own := IncidentsOf(incidents, rule); own != [] && own[|own| - 1].firing
    ensures var own, active := IncidentsOf(incidents, rule), Active(incidents, rule);
      && active.Some? && incidents[active.value] == own[|own| - 1]
      && IncidentsOf(incidents[active.value := x], rule) == own[..|own| - 1] + [x]
  {
    var n := |incidents| - 1;
    if incidents[n].ruleID == rule {
      assert incidents[n := x][..n] == incidents[..n];
    } else {
      LastIsActive(incidents[..n], rule, x);
      var i := Active(incidents[..n], rule).value;
      assert incidents[i := x][..n] == incidents[..n][i := x];
    }
  }

  lemma {:induction false} IncidentsOfSnoc(incidents: seq<Incident>, x: Incident, rule: int)
    ensures IncidentsOf(incidents + [x], rule) ==
      if x.ruleID == rule then IncidentsOf(incidents, rule) + [x] else IncidentsOf(incidents, rule)
  {
    assert (incidents + [x])[..|incidents|] == incidents;
  }

  lemma {:induction false} NoticesOfSnoc(notices: seq<Notice>, x: Notice, rule: int)
    ensures NoticesOf(notices + [x], rule) ==
      if x.ruleID == rule then NoticesOf(notices, rule) + [x.resolved] else NoticesOf(notices, rule)
  {
    assert (notices + [x])[..|notices|] == notices;
  }

  /** Firing, resolved, firing, resolved: the notices of n stretches, the last maybe open. */
  function Alternating(stretches: nat, open: bool): seq<bool> {
    if stretches == 0 then []
    else Alternating(stretches - 1, false) + if open then [false] else [false, true]
  }

  /** The tables say of the rule what its history says. */
  predicate Mirrors(db: Db, rule: int, es: seq<Eval>) {
    && rule in db.status && db.status[rule] == (if es == [] then Ok else es[|es| - 1].verdict)
    && IncidentsOf(db.incidents, rule) == IncidentsAt(es, rule, Starts(es))
    && NoticesOf(db.notices, rule) == Alternating(|Starts(es)|, EndsFiring(es))
  }

  lemma {:induction false} OtherRuleMirrors(db: Db, rule: int, es: seq<Eval>, e: Eval)
    requires Mirrors(db, rule, es) && e.rule != rule
    ensures Mirrors(Evaluated(db, e.rule, e.verdict, e.value), rule, es)
  {
    hide IncidentsOf, NoticesOf, IncidentsAt, Starts, Alternating;
    var after := Evaluated(db, e.rule, e.verdict, e.value);
    var active := Active(db.incidents, e.rule);
    if active.Some? {
      var i := active.value;
      var inc, peak := db.incidents[i], Max(db.incidents[i].peak, e.value);
      OtherRulesIncidents(db.incidents, i, inc.(peak := peak), rule);
      OtherRulesIncidents(db.incidents, i, inc.(firing := false, peak := peak), rule);
      NoticesOfSnoc(db.notices, Notice(e.rule, i, true), rule);
    }
    IncidentsOfSnoc(db.incidents, Incident(e.rule, true, e.value), rule);
    NoticesOfSnoc(db.notices, Notice(e.rule, |db.incidents|, false), rule);
  }

  lemma {:induction false} NextMirrors(db: Db, rule: int, es: seq<Eval>, e: Eval)
    requires Mirrors(db, rule, es) && e.rule == rule
    ensures Mirrors(Evaluated(db, rule, e.verdict, e.value), rule, es + [e])
  {
    hide IncidentsOf, NoticesOf, IncidentsAt, Active, Starts, Max;
    var own := IncidentsOf(db.incidents, rule);
    IncidentsSnoc(es, e, rule);
    StartsSnoc(es, e);
    if EndsFiring(es) {
      var x := Incident(rule, e.verdict == Firing, Max(own[|own| - 1].peak, e.value));
      LastIsActive(db.incidents, rule, x);
      ActiveExists(db.incidents, rule);
      NoticesOfSnoc(db.notices, Notice(rule, Active(db.incidents, rule).value, true), rule);
      StartsAreOver(es);
    } else if e.verdict == Firing {
      IncidentsOfSnoc(db.incidents, Incident(rule, true, e.value), rule);
      NoticesOfSnoc(db.notices, Notice(rule, |db.incidents|, false), rule);
    }
  }

  lemma ActiveExists(incidents: seq<Incident>, rule: int)
    ensures Active(incidents, rule).Some? ==> Active(incidents, rule).value < |incidents|
  {
  }

  /** Over every history of evaluations, interleaved with those of other rules as they may be: the
      status is the last verdict; there is one incident per stretch of firing, in order, firing if
      and only if the stretch is still going on, with the peak over its values from trigger
      through resolution; and the notices alternate. */
  lemma {:induction false} TablesMirrorHistory(db: Db, evals: seq<Eval>, rule: int)
    requires Mirrors(db, rule, [])
    ensures Mirrors(Run(db, evals), rule, Of(evals, rule))
  {
    hide Mirrors, Evaluated;
    if evals != [] {
      var n := |evals| - 1;
      TablesMirrorHistory(db, evals[..n], rule);
      if evals[n].rule == rule {
        NextMirrors(Run(db, evals[..n]), rule, Of(evals[..n], rule), evals[n]);
      } else {
        OtherRuleMirrors(Run(db, evals[..n]), rule, Of(evals[..n], rule), evals[n]);
      }
    }
  }

  /** How many of the rule's incidents are firing. */
  function FiringCount(incidents: seq<Incident>): nat {
    if incidents == [] then 0 else
      FiringCount(incidents[..|incidents| - 1]) + if incidents[|incidents| - 1].firing then 1 else 0
  }

  /** One firing incident while the rule is firing, none otherwise. */
  predicate OneWhileFiring(db: Db, rule: int)
    requires rule in db.status
  {
    FiringCount(IncidentsOf(db.incidents, rule)) == if db.status[rule] == Firing then 1 else 0
  }

  lemma {:induction false} StretchesOverCountNothing(es: seq<Eval>, rule: int, starts: seq<nat>)
    requires forall k :: 0 <= k < |starts| ==> starts[k] < |es| && Calm(es, starts[k]) < |es|
    ensures FiringCount(IncidentsAt(es, rule, starts)) == 0
  {
    if starts != [] {
      var n := |starts| - 1;
      StretchesOverCountNothing(es, rule, starts[..n]);
      var before, last := IncidentsAt(es, rule, starts[..n]), IncidentAt(es, rule, starts[n]);
      assert (before + [last])[..|before|] == before;
    }
  }

  /** A rule has exactly one firing incident while its status is firing, and none otherwise. */
  lemma {:induction false} OneFiringIncident(db: Db, evals: seq<Eval>, rule: int)
    requires rule in db.status && db.status[rule] == Ok
    requires IncidentsOf(db.incidents, rule) == [] && NoticesOf(db.notices, rule) == []
    ensures rule in Run(db, evals).status && OneWhileFiring(Run(db, evals), rule)
  {
    hide Run, Of, IncidentsOf, NoticesOf;
    var es := Of(evals, rule);
    assert IncidentsAt([], rule, Starts([])) == [] && Alternating(|Starts([])|, EndsFiring([])) == [];
    TablesMirrorHistory(db, evals, rule);
    StartsAreOver(es);
    var starts := Starts(es);
    if starts != [] {
      var m := |starts| - 1;
      StretchesOverCountNothing(es, rule, starts[..m]);
      var before, last := IncidentsAt(es, rule, starts[..m]), IncidentAt(es, rule, starts[m]);
      assert (before + [last])[..|before|] == before;
    }
  }

  // ----- A status that is not current -----

  lemma FiringCountSnoc(incidents: seq<Incident>, x: Incident)
    ensures FiringCount(incidents + [x]) == FiringCount(incidents) + if x.firing then 1 else 0
  {
    assert (incidents + [x])[..|incidents|] == incidents;
  }

  /** Changing the youngest firing incident of a rule, if it has one. */
  lemma {:induction false} ActiveIsCounted(incidents: seq<Incident>, rule: int, x: Incident)
    requires x.ruleID == rule
    ensures var active, n := Active(incidents, rule), FiringCount(IncidentsOf(incidents, rule));
      && (active.None? <==> n == 0)
      && (active.Some? ==>
           FiringCount(IncidentsOf(incidents[active.value := x], rule)) == n - if x.firing then 0 else 1)
  {
    hide FiringCount;
    if incidents == [] {
      NothingFires();
    } else {
      var n := |incidents| - 1;
      var before, last := incidents[..n], incidents[n];
      ActiveIsCounted(before, rule, x);
      FiringCountSnoc(IncidentsOf(before, rule), last);
      if last.ruleID == rule && last.firing {
        assert incidents[n := x][..n] == before;
        FiringCountSnoc(IncidentsOf(before, rule), x);
      } else if Active(before, rule).Some? {
        var i := Active(before, rule).value;
        assert incidents[i := x][..n] == before[i := x];
        FiringCountSnoc(IncidentsOf(before[i := x], rule), last);
      }
    }
  }

  lemma NothingFires()
    ensures FiringCount([]) == 0
  {
  }

  /** What a worker may believe: from a state with one firing incident while firing, evaluating a
      rule under a status that may be out of date keeps it so unless the rule is firing, the
      worker does not know, and it either opens a second incident or calms the rule without
      closing the first. */
  lemma StaleStatusIsExact(db: Db, rule: int, believed: Status, verdict: Status, value: real)
    requires rule in db.status && OneWhileFiring(db, rule)
    ensures OneWhileFiring(EvaluatedAs(db, rule, believed, verdict, value), rule) <==>
      !(db.status[rule] == Firing && believed != Firing && (verdict == Firing || believed != verdict))
  {
    hide Active, IncidentsOf, FiringCount, Max;
    var young := Incident(rule, true, value);
    IncidentsOfSnoc(db.incidents, young, rule);
    FiringCountSnoc(IncidentsOf(db.incidents, rule), young);
    var active := Active(db.incidents, rule);
    ActiveIsCounted(db.incidents, rule, young);
    if active.Some? {
      var inc := db.incidents[active.value];
      ActiveIsCounted(db.incidents, rule, inc.(peak := Max(inc.peak, value)));
      ActiveIsCounted(db.incidents, rule, inc.(firing := false, peak := Max(inc.peak, value)));
    }
  }

  /** Two workers that both listed a rule while it was calm: if both measure a firing value, there
      is one incident too many; if the second measures a calm one that is news to it, the rule
      calms down and its incident goes on firing. */
  lemma TwoWorkersDisagree(db: Db, rule: int, believed: Status, verdict: Status, v: real, w: real)
    requires rule in db.status && db.status[rule] != Firing && believed != Firing && OneWhileFiring(db, rule)
    ensures var one := EvaluatedAs(db, rule, believed, Firing, v);
      && OneWhileFiring(one, rule)
      && (OneWhileFiring(EvaluatedAs(one, rule, believed, verdict, w), rule) <==> verdict == believed)
  {
    hide OneWhileFiring;
    StaleStatusIsExact(db, rule, believed, Firing, v);
    StaleStatusIsExact(EvaluatedAs(db, rule, believed, Firing, v), rule, believed, verdict, w);
  }

  /** The second incident in full: the later calm closes only the younger one. */
  lemma StaleListFiresTwice(db: Db, rule: int, believed: Status, v: real, w: real, x: real)
    requires rule in db.status && believed != Firing && Active(db.incidents, rule).None?
    ensures var both := EvaluatedAs(EvaluatedAs(db, rule, believed, Firing, v), rule, believed, Firing, w);
      var calm := Evaluated(both, rule, Ok, x);
      && both.incidents == db.incidents + [Incident(rule, true, v), Incident(rule, true, w)]
      && calm.status[rule] == Ok && Active(calm.incidents, rule) == Some(|db.incidents|)
  {
    var one := db.incidents + [Incident(rule, true, v)];
    var both := one + [Incident(rule, true, w)];
    assert both[..|one|] == one;
    var closed := both[|one| := Incident(rule, false, Max(w, x))];
    assert closed[..|one|] == one;
  }

  // ----- Notices -----

  function NoticesAbout(notices: seq<Notice>, incident: nat, resolved: bool): nat {
    if notices == [] then 0 else
      var n := |notices| - 1;
      NoticesAbout(notices[..n], incident, resolved)
        + if notices[n].incident == incident && notices[n].resolved == resolved then 1 else 0
  }

  lemma NoticesAboutSnoc(notices: seq<Notice>, x: Notice, incident: nat, resolved: bool)
    ensures NoticesAbout(notices + [x], incident, resolved) ==
      NoticesAbout(notices, incident, resolved) + if x.incident == incident && x.resolved == resolved then 1 else 0
  {
    assert (notices + [x])[..|notices|] == notices;
  }

  /** Every incident was announced once, and its end once, when it has ended; nothing else was. */
  ghost predicate AllAnnounced(db: Db) {
    && (forall k :: 0 <= k < |db.notices| ==>
         db.notices[k].incident < |db.incidents| && db.incidents[db.notices[k].incident].ruleID == db.notices[k].ruleID)
    && (forall i: nat :: NoticesAbout(db.notices, i, false) == if i < |db.incidents| then 1 else 0)
    && (forall i: nat :: NoticesAbout(db.notices, i, true) ==
         if i < |db.incidents| && !db.incidents[i].firing then 1 else 0)
  }

  /** It stays so under every evaluation, of whichever rule and with a status out of date too. */
  lemma AnnouncedOnce(db: Db, rule: int, believed: Status, verdict: Status, value: real)
    requires AllAnnounced(db)
    ensures AllAnnounced(EvaluatedAs(db, rule, believed, verdict, value))
  {
    hide NoticesAbout, Max, StatusSet;
    var after := EvaluatedAs(db, rule, believed, verdict, value);
    if after.notices != db.notices {
      var x := after.notices[|after.notices| - 1];
      assert after.notices == db.notices + [x];
      forall i: nat, resolved: bool ensures NoticesAbout(after.notices, i, resolved) ==
        NoticesAbout(db.notices, i, resolved) + if x.incident == i && x.resolved == resolved then 1 else 0 {
        NoticesAboutSnoc(db.notices, x, i, resolved);
      }
    }
  }

  lemma {:induction false} AnnouncedOverHistories(status: map<int, Status>, evals: seq<Eval>)
    ensures AllAnnounced(Run(Db(status, [], []), evals))
  {
    hide AllAnnounced, EvaluatedAs;
    if evals == [] {
      NothingToAnnounce(status);
    } else {
      var n := |evals| - 1;
      var db := Run(Db(status, [], []), evals[..n]);
      AnnouncedOverHistories(status, evals[..n]);
      AnnouncedOnce(db, evals[n].rule, StatusOf(db, evals[n].rule), evals[n].verdict, evals[n].value);
    }
  }

  lemma NothingToAnnounce(status: map<int, Status>)
    ensures AllAnnounced(Db(status, [], []))
  {
  }
}
