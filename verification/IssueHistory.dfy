/** What holds over every history of issues. */
module IssueHistory {
  import opened Common
  import opened Issues
  import Semver

  function Key(i: Issue): (int, string) {
    (i.project, i.fingerprint)
  }

  /** The unique index and the table agree, and ids are not handed out twice. */
  ghost predicate Indexed(db: Db) {
    && (forall k :: k in db.index ==> db.index[k] in db.issues && Key(db.issues[db.index[k]]) == k)
    && (forall id :: id in db.issues ==>
         id < db.nextID && Key(db.issues[id]) in db.index && db.index[Key(db.issues[id])] == id)
  }

  lemma StepKeepsIndexed(db: Db, op: Op)
    requires Indexed(db)
    ensures Indexed(Step(db, op))
    ensures db.index.Keys <= Step(db, op).index.Keys && db.issues.Keys <= Step(db, op).issues.Keys
    ensures forall id :: id in db.issues ==> Key(Step(db, op).issues[id]) == Key(db.issues[id])
  {
    hide Decide, Redirect, Occur;
    if op.Occurs? {
      OccurKeepsIndexed(db, op.o);
    }
  }

  lemma OccurKeepsIndexed(db: Db, o: Occurrence)
    requires Indexed(db)
    ensures Indexed(Occur(db, o))
    ensures db.index.Keys <= Occur(db, o).index.Keys && db.issues.Keys <= Occur(db, o).issues.Keys
    ensures forall id :: id in db.issues ==> Key(Occur(db, o).issues[id]) == Key(db.issues[id])
  {
    hide Upserted, Decide;
    UpsertKeepsKey(Stored(db, KeyOf(o)), o, Decide(Stored(db, KeyOf(o)), o).0);
  }

  lemma UpsertKeepsKey(prev: Option<Issue>, o: Occurrence, status: Status)
    ensures Key(Upserted(prev, o, status)) == if prev.Some? then Key(prev.value) else KeyOf(o)
  {
  }

  // ----- Announcements -----

  predicate IsOf(e: Event, key: (int, string), kind: Kind) {
    (e.project, e.fingerprint) == key && e.kind == kind
  }

  function CountOf(events: seq<Event>, key: (int, string), kind: Kind): nat {
    if events == [] then 0 else
      CountOf(events[..|events| - 1], key, kind)
        + if IsOf(events[|events| - 1], key, kind) then 1 else 0
  }

  lemma {:induction false} CountOfSum(a: seq<Event>, b: seq<Event>, key: (int, string), kind: Kind)
    ensures CountOf(a + b, key, kind) == CountOf(a, key, kind) + CountOf(b, key, kind)
  {
    if b == [] {
      assert a + b == a;
    } else {
      assert (a + b)[..|a + b| - 1] == a + b[..|b| - 1];
      CountOfSum(a, b[..|b| - 1], key, kind);
    }
  }

  lemma CountOfOne(e: Event, key: (int, string), kind: Kind)
    ensures CountOf([e], key, kind) == if (e.project, e.fingerprint) == key && e.kind == kind then 1 else 0
    ensures CountOf([], key, kind) == 0
  {
    assert [e][..0] == [];
  }

  lemma NewOnlyWhenUnknown(db: Db, op: Op, key: (int, string))
    requires Indexed(db)
    ensures CountOf(Emitted(db, op), key, NewIssue) <= if key in db.index then 0 else 1
    ensures CountOf(Emitted(db, op), key, NewIssue) == 1 ==> key in Step(db, op).index
  {
    if Emitted(db, op) != [] {
      CountOfOne(Emitted(db, op)[0], key, NewIssue);
      assert Emitted(db, op) == [Emitted(db, op)[0]];
    }
  }

  /** In every history a fingerprint is announced as new at most once, and not at all when the
      project already knew it. */
  lemma {:induction false} NewIssueOnce(db: Db, ops: seq<Op>, key: (int, string))
    requires Indexed(db)
    ensures CountOf(Events(db, ops), key, NewIssue) <= if key in db.index then 0 else 1
    decreases |ops|
  {
    hide Step, Emitted, Indexed, CountOf;
    if ops == [] {
      CountOfOne(Event(0, "", 0, NewIssue, 0), key, NewIssue);
    } else {
      StepKeepsIndexed(db, ops[0]);
      NewOnlyWhenUnknown(db, ops[0], key);
      CountOfSum(Emitted(db, ops[0]), Events(Step(db, ops[0]), ops[1..]), key, NewIssue);
      NewIssueOnce(Step(db, ops[0]), ops[1..], key);
    }
  }

  /** The project hears of the fingerprint for the first time. */
  predicate IsFirstHit(ops: seq<Op>, key: (int, string), j: nat) {
    j < |ops| && Hits(ops[j], key) && forall i :: 0 <= i < j ==> !Hits(ops[i], key)
  }

  predicate SaysIgnore(o: Occurrence) {
    o.rule.Some? && o.rule.value.action == "ignore"
  }

  /** The fingerprint occurs, and no rule ignores its first occurrence. */
  ghost predicate Heard(ops: seq<Op>, key: (int, string)) {
    exists j: nat :: IsFirstHit(ops, key, j) && !SaysIgnore(ops[j].o)
  }

  lemma HeardFromFront(ops: seq<Op>, key: (int, string))
    ensures Heard(ops, key) <==>
      ops != [] && if Hits(ops[0], key) then !SaysIgnore(ops[0].o) else Heard(ops[1..], key)
  {
    if ops != [] {
      if Hits(ops[0], key) {
        assert IsFirstHit(ops, key, 0);
        assert forall j: nat :: IsFirstHit(ops, key, j) ==> j == 0;
      } else {
        forall j: nat | IsFirstHit(ops[1..], key, j) ensures IsFirstHit(ops, key, j + 1) {
          forall i | 0 < i < j + 1 ensures !Hits(ops[i], key) {
            assert ops[i] == ops[1..][i - 1];
          }
        }
        forall j: nat | IsFirstHit(ops, key, j) ensures j > 0 && IsFirstHit(ops[1..], key, j - 1) {
        }
      }
    }
  }

  /** The first occurrence of a fingerprint: an open issue and its announcement, or an ignored one
      and silence. */
  lemma FirstOccurrence(db: Db, o: Occurrence)
    requires Indexed(db) && KeyOf(o) !in db.index
    ensures var after, status := Step(db, Occurs(o)), if SaysIgnore(o) then Ignored else Open;
      && after.index == db.index[KeyOf(o) := db.nextID]
      && after.issues == db.issues[db.nextID :=
           Issue(o.project, KeyOf(o).1, 1, status, false, None, 0, 0, o.release, o.release, "", None)]
    ensures Emitted(db, Occurs(o)) ==
      if SaysIgnore(o) then [] else [Event(o.project, KeyOf(o).1, db.nextID, NewIssue, 1)]
  {
    hide Semver.Compare;
  }

  /** Every announcement tells of the row its occurrence went to, with the count it has from then
      on; that row is open. */
  lemma AnnouncementsTellTheRow(db: Db, o: Occurrence)
    requires Indexed(db) && Emitted(db, Occurs(o)) != []
    ensures var after, e := Step(db, Occurs(o)), Emitted(db, Occurs(o))[0];
      && |Emitted(db, Occurs(o))| == 1 && (e.project, e.fingerprint) == KeyOf(o)
      && after.index[KeyOf(o)] == e.issue && e.issue in after.issues
      && after.issues[e.issue].count == e.count && after.issues[e.issue].status == Open
      && (e.kind == NewIssue <==> KeyOf(o) !in db.index)
  {
    hide Semver.Compare;
  }

  /** An occurrence lands on the fingerprint its rule groups it under, or on its own. */
  lemma RuleGroups(o: Occurrence)
    ensures (exists r :: o.rule == Some(r) && r.action == "group_as" && r.groupFingerprint != "")
      ==> KeyOf(o) == (o.project, o.rule.value.groupFingerprint)
    ensures (o.rule.None? || o.rule.value.action != "group_as" || o.rule.value.groupFingerprint == "")
      ==> KeyOf(o) == (o.project, o.stackFingerprint)
  {
  }

  lemma NewInOneStep(db: Db, op: Op, key: (int, string))
    requires Indexed(db)
    ensures CountOf(Emitted(db, op), key, NewIssue) ==
      if key !in db.index && Hits(op, key) && !SaysIgnore(op.o) then 1 else 0
    ensures key in Step(db, op).index <==> key in db.index || Hits(op, key)
  {
    hide Semver.Compare;
    if Emitted(db, op) != [] {
      CountOfOne(Emitted(db, op)[0], key, NewIssue);
      assert Emitted(db, op) == [Emitted(db, op)[0]];
    }
  }

  /** Exactly which fingerprints are announced as new in a history: those the project did not know,
      that occur, and whose first occurrence no rule ignores. */
  lemma {:induction false} NewIssueExactly(db: Db, ops: seq<Op>, key: (int, string))
    requires Indexed(db)
    ensures CountOf(Events(db, ops), key, NewIssue) == if key !in db.index && Heard(ops, key) then 1 else 0
    decreases |ops|
  {
    hide Step, Emitted, Indexed, CountOf, Heard, SaysIgnore, Hits;
    HeardFromFront(ops, key);
    if ops == [] {
      NoEvents(db, key, NewIssue);
    } else {
      StepKeepsIndexed(db, ops[0]);
      EventsOfRun(db, ops, key, NewIssue);
      NewInOneStep(db, ops[0], key);
      NewIssueExactly(Step(db, ops[0]), ops[1..], key);
    }
  }

  function StatusOf(db: Db, key: (int, string)): Option<Status> {
    match Stored(db, key) case None => None case Some(i) => Some(i.status)
  }

  /** A regression is announced exactly when an occurrence moves its issue from snoozed or
      resolved to open; no other operation announces anything. */
  lemma RegressionIsReopening(db: Db, op: Op, key: (int, string))
    requires Indexed(db)
    ensures CountOf(Emitted(db, op), key, Regression) ==
      if op.Occurs? && KeyOf(op.o) == key && StatusOf(Step(db, op), key) == Some(Open)
        && (StatusOf(db, key) == Some(Snoozed) || StatusOf(db, key) == Some(Resolved)) then 1 else 0
  {
    hide Semver.Compare;
    if Emitted(db, op) != [] {
      CountOfOne(Emitted(db, op)[0], key, Regression);
      assert Emitted(db, op) == [Emitted(db, op)[0]];
    }
  }

  // ----- Runs of occurrences -----

  /** Nothing but occurrences happens to the issue: no workflow operation on it, no merge with it. */
  predicate LeavesAlone(op: Op, id: int) {
    match op
    case Occurs(_) => true
    case SetStatus(i, _) => i != id
    case Snooze(i, _, _) => i != id
    case Resolve(i, _, _) => i != id
    case Merge(s, t) => s != id && t != id
  }

  predicate Hits(op: Op, key: (int, string)) {
    op.Occurs? && KeyOf(op.o) == key
  }

  function HitCount(ops: seq<Op>, key: (int, string)): nat {
    if ops == [] then 0 else (if Hits(ops[0], key) then 1 else 0) + HitCount(ops[1..], key)
  }

  function Announcements(i: Issue, op: Op, kind: Kind): nat {
    if Hits(op, Key(i)) && Decide(Some(i), op.o).1 == Some(kind) then 1 else 0
  }

  /** A step that leaves the issue alone changes its row only if it is one of its occurrences. */
  lemma StepOnIssue(db: Db, op: Op, id: int)
    requires Indexed(db) && id in db.issues && LeavesAlone(op, id)
    ensures var i, key := db.issues[id], Key(db.issues[id]);
      && id in Step(db, op).issues
      && (Hits(op, key) ==> Step(db, op).issues[id] == Upserted(Some(i), op.o, Decide(Some(i), op.o).0))
      && (!Hits(op, key) ==> Step(db, op).issues[id] == i)
    ensures forall kind :: CountOf(Emitted(db, op), Key(db.issues[id]), kind) == Announcements(db.issues[id], op, kind)
  {
    hide Decide, Upserted;
    forall kind
      ensures CountOf(Emitted(db, op), Key(db.issues[id]), kind) == Announcements(db.issues[id], op, kind)
    {
      if Emitted(db, op) != [] {
        CountOfOne(Emitted(db, op)[0], Key(db.issues[id]), kind);
        assert Emitted(db, op) == [Emitted(db, op)[0]];
      }
    }
  }

  /** One more step of a run, as seen by one issue. */
  lemma EventsOfRun(db: Db, ops: seq<Op>, key: (int, string), kind: Kind)
    requires ops != []
    ensures CountOf(Events(db, ops), key, kind) ==
      CountOf(Emitted(db, ops[0]), key, kind) + CountOf(Events(Step(db, ops[0]), ops[1..]), key, kind)
  {
    CountOfSum(Emitted(db, ops[0]), Events(Step(db, ops[0]), ops[1..]), key, kind);
  }

  lemma NoEvents(db: Db, key: (int, string), kind: Kind)
    ensures CountOf(Events(db, []), key, kind) == 0
  {
  }

  /** An open issue that is left alone stays open, silently; and an ignored one stays ignored. */
  lemma {:induction false} SettledStaysSettled(db: Db, ops: seq<Op>, id: int, kind: Kind)
    requires Indexed(db) && id in db.issues && forall op :: op in ops ==> LeavesAlone(op, id)
    requires db.issues[id].status == Open || db.issues[id].status == Ignored
    ensures id in Run(db, ops).issues && Run(db, ops).issues[id].status == db.issues[id].status
    ensures CountOf(Events(db, ops), Key(db.issues[id]), kind) == 0
    decreases |ops|
  {
    hide Step, Emitted, Indexed, CountOf, LeavesAlone;
    if ops == [] {
      NoEvents(db, Key(db.issues[id]), kind);
    } else {
      assert ops[0] in ops;
      StepKeepsIndexed(db, ops[0]);
      StepOnIssue(db, ops[0], id);
      EventsOfRun(db, ops, Key(db.issues[id]), kind);
      SettledStaysSettled(Step(db, ops[0]), ops[1..], id, kind);
    }
  }

  /** The j-th operation is an occurrence that wakes an issue snoozed with the given deadline or, if
      it is counted, for so many occurrences. */
  predicate WakesAt(ops: seq<Op>, key: (int, string), until: Option<int>, counted: bool, left: int, j: nat) {
    && j < |ops| && Hits(ops[j], key)
    && (|| (until.Some? && ops[j].o.ts >= until.value)
        || (counted && HitCount(ops[..j + 1], key) >= left))
  }

  ghost predicate Woken(ops: seq<Op>, key: (int, string), until: Option<int>, counted: bool, left: int) {
    exists j :: WakesAt(ops, key, until, counted, left, j)
  }

  lemma HitCountOfTail(ops: seq<Op>, key: (int, string), j: nat)
    requires 0 < j <= |ops|
    ensures HitCount(ops[..j], key) == (if Hits(ops[0], key) then 1 else 0) + HitCount(ops[1..][..j - 1], key)
  {
    assert ops[..j][1..] == ops[1..][..j - 1];
  }

  lemma WokenFromFront(ops: seq<Op>, key: (int, string), until: Option<int>, counted: bool, left: int)
    requires ops != []
    ensures Woken(ops, key, until, counted, left) <==>
      || WakesAt(ops, key, until, counted, left, 0)
      || Woken(ops[1..], key, until, counted, left - if Hits(ops[0], key) then 1 else 0)
  {
    hide HitCount, Hits;
    var rest, less := ops[1..], left - if Hits(ops[0], key) then 1 else 0;
    forall j: nat ensures j < |rest| ==>
      (WakesAt(rest, key, until, counted, less, j) <==> WakesAt(ops, key, until, counted, left, j + 1))
    {
      if j < |rest| {
        HitCountOfTail(ops, key, j + 2);
        assert rest[j] == ops[j + 1];
      }
    }
    if j: nat :| WakesAt(ops, key, until, counted, left, j) && j > 0 {
      assert WakesAt(rest, key, until, counted, less, j - 1);
    }
    if j: nat :| WakesAt(rest, key, until, counted, less, j) {
      assert WakesAt(ops, key, until, counted, left, j + 1);
    }
  }

  lemma FirstHitWakes(ops: seq<Op>, key: (int, string), until: Option<int>, counted: bool, left: int)
    requires ops != []
    ensures WakesAt(ops, key, until, counted, left, 0) <==>
      Hits(ops[0], key) && ((until.Some? && ops[0].o.ts >= until.value) || (counted && left <= 1))
  {
    HitCountOfTail(ops, key, 1);
    assert ops[1..][..0] == [];
  }

  lemma {:induction false} SnoozedUntilWoken(db: Db, ops: seq<Op>, id: int, left: int)
    requires Indexed(db) && id in db.issues && forall op :: op in ops ==> LeavesAlone(op, id)
    requires var i := db.issues[id];
      i.status == Snoozed && left == i.snoozeThreshold - (i.count - i.snoozeStart)
    ensures var i, key := db.issues[id], Key(db.issues[id]);
      var woken := Woken(ops, key, i.snoozeUntil, i.snoozeThreshold > 0, left);
      && id in Run(db, ops).issues
      && Run(db, ops).issues[id].status == (if woken then Open else Snoozed)
      && CountOf(Events(db, ops), key, Regression) == if woken then 1 else 0
    decreases |ops|
  {
    hide Step, Emitted, Indexed, CountOf, LeavesAlone, Semver.Compare, Woken, WakesAt;
    var i, key := db.issues[id], Key(db.issues[id]);
    if ops == [] {
      NoEvents(db, key, Regression);
      NobodyWakes(key, i.snoozeUntil, i.snoozeThreshold > 0, left);
    } else {
      assert ops[0] in ops;
      var next := Step(db, ops[0]);
      StepKeepsIndexed(db, ops[0]);
      StepOnIssue(db, ops[0], id);
      EventsOfRun(db, ops, key, Regression);
      WokenFromFront(ops, key, i.snoozeUntil, i.snoozeThreshold > 0, left);
      FirstHitWakes(ops, key, i.snoozeUntil, i.snoozeThreshold > 0, left);
      if next.issues[id].status == Open {
        SettledStaysSettled(next, ops[1..], id, Regression);
      } else {
        SnoozedUntilWoken(next, ops[1..], id, if Hits(ops[0], key) then left - 1 else left);
      }
    }
  }

  lemma NobodyWakes(key: (int, string), until: Option<int>, counted: bool, left: int)
    ensures !Woken([], key, until, counted, left)
  {
  }

  /** Snoozed for k occurrences or until a deadline, or both, and then left alone, an issue is woken
      by precisely the first occurrence that is the k-th or is not before the deadline, which
      announces the one regression; then it stays open. */
  lemma SnoozeWakesAtFirst(db: Db, id: int, until: Option<int>, k: int, ops: seq<Op>)
    requires Indexed(db) && id in db.issues && forall op :: op in ops ==> LeavesAlone(op, id)
    ensures var snoozed, key := Step(db, Snooze(id, until, k)), Key(db.issues[id]);
      var woken := Woken(ops, key, until, k > 0, k);
      && id in Run(snoozed, ops).issues
      && Run(snoozed, ops).issues[id].status == (if woken then Open else Snoozed)
      && CountOf(Events(snoozed, ops), key, Regression) == if woken then 1 else 0
  {
    hide Woken;
    StepKeepsIndexed(db, Snooze(id, until, k));
    SnoozedUntilWoken(Step(db, Snooze(id, until, k)), ops, id, k);
  }

  lemma {:induction false} CountReached(ops: seq<Op>, key: (int, string), k: int)
    requires k > 0
    ensures Woken(ops, key, None, true, k) <==> HitCount(ops, key) >= k
    decreases |ops|
  {
    hide Woken, WakesAt;
    if ops == [] {
      NobodyWakes(key, None, true, k);
    } else {
      WokenFromFront(ops, key, None, true, k);
      FirstHitWakes(ops, key, None, true, k);
      if Hits(ops[0], key) {
        if k > 1 {
          CountReached(ops[1..], key, k - 1);
        }
      } else {
        CountReached(ops[1..], key, k);
      }
    }
  }

  /** Without a deadline the k-th occurrence wakes it; with neither threshold nor deadline it never
      wakes. */
  lemma SnoozeCountsOccurrences(db: Db, id: int, k: int, ops: seq<Op>)
    requires Indexed(db) && id in db.issues && forall op :: op in ops ==> LeavesAlone(op, id)
    ensures var snoozed, key := Step(db, Snooze(id, None, k)), Key(db.issues[id]);
      var woken := k > 0 && HitCount(ops, key) >= k;
      && id in Run(snoozed, ops).issues
      && Run(snoozed, ops).issues[id].status == (if woken then Open else Snoozed)
      && CountOf(Events(snoozed, ops), key, Regression) == if woken then 1 else 0
  {
    hide Step, Run, Events, CountOf;
    SnoozeWakesAtFirst(db, id, None, k, ops);
    if k > 0 {
      CountReached(ops, Key(db.issues[id]), k);
    }
  }

  // ----- Releases -----

  /** Resolved issues and releases: an occurrence leaves the issue resolved exactly when both
      releases are named and its own is the older one. */
  lemma ResolvedStaysOnlyForOlder(db: Db, op: Op, id: int)
    requires Indexed(db) && id in db.issues && LeavesAlone(op, id) && Hits(op, Key(db.issues[id]))
    requires db.issues[id].status == Resolved
    ensures Step(db, op).issues[id].status == Resolved <==>
      var resolvedIn, release := db.issues[id].resolvedIn, op.o.release;
      resolvedIn != "" && release != "" && Semver.Compare(release, resolvedIn) < 0
    ensures Step(db, op).issues[id].status == Open || Step(db, op).issues[id].status == Resolved
  {
    hide Semver.Compare;
    StepOnIssue(db, op, id);
  }

  /** An occurrence of the very release the issue was resolved in opens it again, and announces it. */
  lemma ResolvingReleaseReopens(db: Db, op: Op, id: int)
    requires Indexed(db) && id in db.issues && LeavesAlone(op, id) && Hits(op, Key(db.issues[id]))
    requires db.issues[id].status == Resolved && op.o.release == db.issues[id].resolvedIn
    ensures Step(db, op).issues[id].status == Open
    ensures CountOf(Emitted(db, op), Key(db.issues[id]), Regression) == 1
  {
    hide Semver.Compare;
    Semver.CompareIsAntisymmetric(op.o.release, op.o.release);
    StepOnIssue(db, op, id);
  }

  predicate NamesRelease(op: Op, key: (int, string)) {
    Hits(op, key) && op.o.release != ""
  }

  lemma StepKeepsReleases(db: Db, op: Op, id: int)
    requires Indexed(db) && id in db.issues
    ensures id in Step(db, op).issues && Key(Step(db, op).issues[id]) == Key(db.issues[id])
    ensures var i, next, named := db.issues[id], Step(db, op).issues[id], NamesRelease(op, Key(db.issues[id]));
      && next.lastRelease == (if named then op.o.release else i.lastRelease)
      && next.firstRelease == if named && i.firstRelease == "" then op.o.release else i.firstRelease
  {
    hide Decide, Redirect;
  }

  /** Nothing named at all, or what was named first, or last. */
  predicate NothingNamed(ops: seq<Op>, key: (int, string)) {
    forall k :: 0 <= k < |ops| ==> !NamesRelease(ops[k], key)
  }

  predicate IsLastNamed(ops: seq<Op>, key: (int, string), j: nat) {
    j < |ops| && NamesRelease(ops[j], key) && NothingNamed(ops[j + 1..], key)
  }

  predicate IsFirstNamed(ops: seq<Op>, key: (int, string), j: nat) {
    j < |ops| && NamesRelease(ops[j], key) && NothingNamed(ops[..j], key)
  }

  lemma NothingNamedFromFront(ops: seq<Op>, key: (int, string))
    requires ops != []
    ensures NothingNamed(ops, key) <==> !NamesRelease(ops[0], key) && NothingNamed(ops[1..], key)
  {
    hide NamesRelease;
    if !NamesRelease(ops[0], key) && NothingNamed(ops[1..], key) {
      forall k | 0 < k < |ops| ensures !NamesRelease(ops[k], key) {
        assert ops[k] == ops[1..][k - 1];
      }
    }
    if NothingNamed(ops, key) {
      forall k | 0 <= k < |ops| - 1 ensures !NamesRelease(ops[1..][k], key) {
        assert ops[1..][k] == ops[k + 1];
      }
    }
  }

  /** Over every history an issue keeps the last release its occurrences named. */
  lemma {:induction false} LastReleaseIsKept(db: Db, ops: seq<Op>, id: int, j: nat)
    requires Indexed(db) && id in db.issues
    requires NothingNamed(ops, Key(db.issues[id])) || IsLastNamed(ops, Key(db.issues[id]), j)
    ensures id in Run(db, ops).issues
    ensures Run(db, ops).issues[id].lastRelease ==
      if NothingNamed(ops, Key(db.issues[id])) then db.issues[id].lastRelease else ops[j].o.release
    decreases |ops|
  {
    hide Step, Indexed, NamesRelease, NothingNamed;
    if ops != [] {
      StepKeepsIndexed(db, ops[0]);
      StepKeepsReleases(db, ops[0], id);
      NothingNamedFromFront(ops, Key(db.issues[id]));
      if 0 < j < |ops| {
        assert ops[1..][j - 1] == ops[j] && ops[1..][j - 1 + 1..] == ops[j + 1..];
        NoneIsNamed(ops[1..], Key(db.issues[id]), j - 1);
      }
      LastReleaseIsKept(Step(db, ops[0]), ops[1..], id, if j > 0 then j - 1 else 0);
    } else {
      NothingIsNamed(Key(db.issues[id]));
    }
  }

  lemma NoneIsNamed(ops: seq<Op>, key: (int, string), k: nat)
    requires k < |ops|
    ensures NothingNamed(ops, key) ==> !NamesRelease(ops[k], key)
  {
  }

  lemma NothingIsNamed(key: (int, string))
    ensures NothingNamed([], key)
  {
  }

  lemma {:induction false} FirstReleaseStays(db: Db, ops: seq<Op>, id: int)
    requires Indexed(db) && id in db.issues && db.issues[id].firstRelease != ""
    ensures id in Run(db, ops).issues && Run(db, ops).issues[id].firstRelease == db.issues[id].firstRelease
    decreases |ops|
  {
    hide Step, Indexed, NamesRelease;
    if ops != [] {
      StepKeepsIndexed(db, ops[0]);
      StepKeepsReleases(db, ops[0], id);
      FirstReleaseStays(Step(db, ops[0]), ops[1..], id);
    }
  }

  /** An issue without a first release takes the first one named, and keeps it. */
  lemma {:induction false} FirstReleaseIsKept(db: Db, ops: seq<Op>, id: int, j: nat)
    requires Indexed(db) && id in db.issues && db.issues[id].firstRelease == ""
    requires NothingNamed(ops, Key(db.issues[id])) || IsFirstNamed(ops, Key(db.issues[id]), j)
    ensures id in Run(db, ops).issues
    ensures Run(db, ops).issues[id].firstRelease ==
      if NothingNamed(ops, Key(db.issues[id])) then "" else ops[j].o.release
    decreases |ops|
  {
    hide Step, Indexed, NothingNamed;
    if ops == [] {
      NothingIsNamed(Key(db.issues[id]));
    } else {
      var key := Key(db.issues[id]);
      StepKeepsIndexed(db, ops[0]);
      StepKeepsReleases(db, ops[0], id);
      NothingNamedFromFront(ops, key);
      if NamesRelease(ops[0], key) {
        if j > 0 {
          NoneIsNamed(ops[..j], key, 0);
        }
        FirstReleaseStays(Step(db, ops[0]), ops[1..], id);
      } else {
        if 0 < j < |ops| {
          assert ops[..j][1..] == ops[1..][..j - 1];
          NothingNamedFromFront(ops[..j], key);
        }
        FirstReleaseIsKept(Step(db, ops[0]), ops[1..], id, if j > 0 then j - 1 else 0);
      }
    }
  }

  /** Resolved by hand, in a release named or else in the last one seen, an issue stays resolved
      under an occurrence if and only if that comes from an older release. */
  lemma ResolveThenOccur(db: Db, id: int, release: string, op: Op)
    requires Indexed(db) && id in db.issues && LeavesAlone(op, id) && Hits(op, Key(db.issues[id]))
    ensures var i, resolved := db.issues[id], Step(db, Resolve(id, true, release));
      var since := if release != "" then release else if i.lastRelease != "" then i.lastRelease else i.resolvedIn;
      && resolved.issues[id].status == Resolved && resolved.issues[id].resolvedIn == since
      && (Step(resolved, op).issues[id].status == Resolved <==>
           since != "" && op.o.release != "" && Semver.Compare(op.o.release, since) < 0)
  {
    hide Semver.Compare;
    StepKeepsIndexed(db, Resolve(id, true, release));
    ResolvedStaysOnlyForOlder(Step(db, Resolve(id, true, release)), op, id);
  }

  lemma {:induction false} OlderReleasesNeverReopen(db: Db, ops: seq<Op>, id: int)
    requires Indexed(db) && id in db.issues && db.issues[id].status == Resolved
    requires forall op :: op in ops ==> LeavesAlone(op, id)
    requires forall op :: op in ops && Hits(op, Key(db.issues[id])) ==> FromOlderRelease(db.issues[id], op.o.release)
    ensures id in Run(db, ops).issues && Run(db, ops).issues[id].status == Resolved
    ensures CountOf(Events(db, ops), Key(db.issues[id]), Regression) == 0
    decreases |ops|
  {
    hide Step, Emitted, Indexed, CountOf, LeavesAlone, Semver.Compare;
    if ops == [] {
      NoEvents(db, Key(db.issues[id]), Regression);
    } else {
      assert ops[0] in ops;
      StepKeepsIndexed(db, ops[0]);
      StepOnIssue(db, ops[0], id);
      EventsOfRun(db, ops, Key(db.issues[id]), Regression);
      OlderReleasesNeverReopen(Step(db, ops[0]), ops[1..], id);
    }
  }

  /** Among orderly versions "older" does not depend on the release at hand: what is at most an
      older release is older too. */
  lemma OlderIsDownward(i: Issue, release: string, lower: string)
    requires FromOlderRelease(i, release) && lower != "" && Semver.Compare(lower, release) <= 0
    requires Semver.Orderly(lower) && Semver.Orderly(release) && Semver.Orderly(i.resolvedIn)
    ensures FromOlderRelease(i, lower)
  {
    hide Semver.Compare, Semver.Orderly;
    Semver.CompareIsTransitive(lower, release, i.resolvedIn);
    Semver.CompareIsAntisymmetric(lower, i.resolvedIn);
    Semver.CompareIsAntisymmetric(release, i.resolvedIn);
    if Semver.Compare(lower, i.resolvedIn) == 0 {
      Semver.CompareIsTransitive(i.resolvedIn, lower, release);
    }
  }

  // ----- The resolved flag -----

  ghost predicate FlagsAgree(db: Db) {
    forall id :: id in db.issues ==> (db.issues[id].resolved <==> db.issues[id].status == Resolved)
  }

  /** The flag agrees with the status after every operation but one: merging away an issue that is
      resolved, which ignores it and leaves the flag set. */
  lemma FlagsAgreeExceptAfterMerge(db: Db, op: Op)
    requires Indexed(db) && FlagsAgree(db)
    ensures FlagsAgree(Step(db, op)) <==>
      !(op.Merge? && Mergeable(db, op.source, op.target) && db.issues[op.source].status == Resolved)
  {
    hide Decide, Redirect;
    if op.Merge? && Mergeable(db, op.source, op.target) {
      var after := Step(db, op);
      assert after.issues[op.source].status == Ignored;
      assert after.issues[op.source].resolved == db.issues[op.source].resolved;
    }
  }

  // ----- Counts -----

  function ItemsOf(items: seq<Item>, id: int): nat {
    if items == [] then 0 else
      ItemsOf(items[..|items| - 1], id) + if items[|items| - 1].issue == id then 1 else 0
  }

  /** Every item belongs to an issue of its project, and an issue that was not merged away counts
      exactly the items that carry its id. */
  ghost predicate CountsRight(db: Db) {
    && (forall k :: 0 <= k < |db.items| ==>
         db.items[k].issue in db.issues && db.issues[db.items[k].issue].project == db.items[k].project)
    && (forall id :: id in db.issues && db.issues[id].mergedInto.None? ==> db.issues[id].count == ItemsOf(db.items, id))
  }

  lemma {:induction false} NoItems(items: seq<Item>, id: int)
    requires forall k :: 0 <= k < |items| ==> items[k].issue != id
    ensures ItemsOf(items, id) == 0
  {
    if items != [] {
      NoItems(items[..|items| - 1], id);
    }
  }

  lemma ItemsSnoc(items: seq<Item>, item: Item, id: int)
    ensures ItemsOf(items + [item], id) == ItemsOf(items, id) + if item.issue == id then 1 else 0
  {
    assert (items + [item])[..|items|] == items;
  }

  lemma {:induction false} RedirectMoves(items: seq<Item>, source: int, target: int, project: int, id: int)
    requires source != target
    requires forall k :: 0 <= k < |items| && items[k].issue == source ==> items[k].project == project
    ensures ItemsOf(Redirect(items, source, target, project), id) ==
      if id == source then 0
      else if id == target then ItemsOf(items, target) + ItemsOf(items, source)
      else ItemsOf(items, id)
  {
    if items != [] {
      var n := |items| - 1;
      RedirectMoves(items[..n], source, target, project, id);
      assert Redirect(items, source, target, project)[..n] == Redirect(items[..n], source, target, project);
    }
  }

  lemma OccurKeepsCounts(db: Db, o: Occurrence)
    requires Indexed(db) && CountsRight(db)
    ensures CountsRight(Occur(db, o))
  {
    hide Decide;
    var next, id := Occur(db, o), IdFor(db, KeyOf(o));
    forall x { ItemsSnoc(db.items, Item(o.project, id), x); }
    if Stored(db, KeyOf(o)).None? {
      assert id !in db.issues;
      NoItems(db.items, id);
    }
  }

  lemma MergeKeepsCounts(db: Db, source: int, target: int)
    requires Indexed(db) && CountsRight(db) && Mergeable(db, source, target)
    ensures CountsRight(Merged(db, source, target))
  {
    hide ItemsOf;
    forall x { RedirectMoves(db.items, source, target, db.issues[source].project, x); }
  }

  lemma StepKeepsCounts(db: Db, op: Op)
    requires Indexed(db) && CountsRight(db)
    ensures CountsRight(Step(db, op))
  {
    hide ItemsOf;
    match op {
      case Occurs(o) => OccurKeepsCounts(db, o);
      case Merge(source, target) =>
        if Mergeable(db, source, target) {
          MergeKeepsCounts(db, source, target);
        }
      case _ =>
    }
  }

  // ----- Merging -----

  /** A witness that merging goes round in no circle: every merged issue ranks below what it was
      merged into. */
  predicate Ranks(db: Db, rank: map<int, nat>) {
    && rank.Keys == db.issues.Keys
    && forall id :: id in db.issues && db.issues[id].mergedInto.Some? ==>
         db.issues[id].mergedInto.value in db.issues && rank[id] < rank[db.issues[id].mergedInto.value]
  }

  ghost predicate Acyclic(db: Db) {
    exists rank :: Ranks(db, rank)
  }

  lemma StepKeepsAcyclic(db: Db, op: Op)
    requires Indexed(db) && Acyclic(db)
    ensures Acyclic(Step(db, op))
  {
    hide Decide, Redirect, Semver.Compare;
    var rank :| Ranks(db, rank);
    match op {
      case Occurs(o) => OccurKeepsRanks(db, o, rank);
      case Merge(source, target) =>
        if Mergeable(db, source, target) {
          MergeKeepsRanks(db, source, target, rank);
        }
      case _ =>
        assert Ranks(Step(db, op), rank);
    }
  }

  lemma OccurKeepsRanks(db: Db, o: Occurrence, rank: map<int, nat>)
    requires Indexed(db) && Ranks(db, rank)
    ensures Acyclic(Occur(db, o))
  {
    hide Decide;
    var id := IdFor(db, KeyOf(o));
    assert Ranks(Occur(db, o), rank[id := if id in db.issues then rank[id] else 0]);
  }

  /** Only the target, which is merged into nothing, may have to move up. */
  lemma MergeKeepsRanks(db: Db, source: int, target: int, rank: map<int, nat>)
    requires Mergeable(db, source, target) && Ranks(db, rank)
    ensures Acyclic(Merged(db, source, target))
  {
    hide Redirect;
    var top := if rank[target] <= rank[source] then rank[source] + 1 else rank[target];
    assert Ranks(Merged(db, source, target), rank[target := top]);
  }

  /** The issue n merges up from id, if the chain is that long. */
  function MergedUp(db: Db, id: int, n: nat): Option<int>
    decreases n
  {
    if id !in db.issues then None
    else if n == 0 then Some(id)
    else if db.issues[id].mergedInto.None? then None
    else MergedUp(db, db.issues[id].mergedInto.value, n - 1)
  }

  lemma {:induction false} RankGrows(db: Db, rank: map<int, nat>, id: int, n: nat)
    requires Ranks(db, rank) && MergedUp(db, id, n).Some?
    ensures id in rank && MergedUp(db, id, n).value in rank && rank[MergedUp(db, id, n).value] >= rank[id] + n
    decreases n
  {
    if n > 0 {
      RankGrows(db, rank, db.issues[id].mergedInto.value, n - 1);
    }
  }

  /** No issue is, however many merges up, merged into itself. */
  lemma NoMergeCycle(db: Db, id: int, n: nat)
    requires Acyclic(db) && n > 0
    ensures MergedUp(db, id, n) != Some(id)
  {
    var rank :| Ranks(db, rank);
    if MergedUp(db, id, n) == Some(id) {
      RankGrows(db, rank, id, n);
    }
  }

  /** Every state a history of occurrences, workflow operations and merges can lead to. */
  lemma {:induction false} HistoriesAreSound(db: Db, ops: seq<Op>)
    requires Indexed(db) && CountsRight(db) && Acyclic(db)
    ensures Indexed(Run(db, ops)) && CountsRight(Run(db, ops)) && Acyclic(Run(db, ops))
    decreases |ops|
  {
    hide Step, Indexed, CountsRight, Acyclic;
    if ops != [] {
      StepKeepsIndexed(db, ops[0]);
      StepKeepsCounts(db, ops[0]);
      StepKeepsAcyclic(db, ops[0]);
      HistoriesAreSound(Step(db, ops[0]), ops[1..]);
    }
  }

  lemma FromNothing(ops: seq<Op>)
    ensures var db := Run(EMPTY, ops);
      && (forall id :: id in db.issues && db.issues[id].mergedInto.None? ==>
           db.issues[id].count == ItemsOf(db.items, id))
      && (forall id, n: nat :: n > 0 ==> MergedUp(db, id, n) != Some(id))
      && (forall key :: CountOf(Events(EMPTY, ops), key, NewIssue) <= 1)
  {
    hide Run, Events, CountOf, MergedUp;
    assert Ranks(EMPTY, map[]);
    HistoriesAreSound(EMPTY, ops);
    var db := Run(EMPTY, ops);
    forall id, n: nat | n > 0 ensures MergedUp(db, id, n) != Some(id) { NoMergeCycle(db, id, n); }
    forall key { NewIssueOnce(EMPTY, ops, key); }
  }

  // ----- After a merge -----

  /** No workflow operation on the issue. Merges with it are not excluded: once it is merged away
      they are refused. */
  predicate NoWorkflowOn(op: Op, id: int) {
    match op
    case SetStatus(i, _) => i != id
    case Snooze(i, _, _) => i != id
    case Resolve(i, _, _) => i != id
    case _ => true
  }

  lemma HiddenRowTakesOccurrences(db: Db, op: Op, id: int, kind: Kind)
    requires Indexed(db) && id in db.issues && NoWorkflowOn(op, id)
    requires db.issues[id].mergedInto.Some? && db.issues[id].status == Ignored
    ensures id in Step(db, op).issues
    ensures var i, next := db.issues[id], Step(db, op).issues[id];
      && next.mergedInto == i.mergedInto && next.status == Ignored
      && next.count == i.count + if Hits(op, Key(i)) then 1 else 0
    ensures CountOf(Emitted(db, op), Key(db.issues[id]), kind) == 0
  {
    hide Indexed, CountOf, Semver.Compare, Occur;
    if LeavesAlone(op, id) {
      StepOnIssue(db, op, id);
    } else {
      assert op.Merge? && !Mergeable(db, op.source, op.target);
      CountOfOne(Event(0, "", 0, kind, 0), Key(db.issues[id]), kind);
    }
  }

  lemma {:induction false} HiddenRowStaysHidden(db: Db, ops: seq<Op>, id: int, kind: Kind)
    requires Indexed(db) && id in db.issues && forall op :: op in ops ==> NoWorkflowOn(op, id)
    requires db.issues[id].mergedInto.Some? && db.issues[id].status == Ignored
    ensures id in Run(db, ops).issues
    ensures var i, after := db.issues[id], Run(db, ops).issues[id];
      && after.mergedInto == i.mergedInto && after.status == Ignored
      && after.count == i.count + HitCount(ops, Key(i))
    ensures CountOf(Events(db, ops), Key(db.issues[id]), kind) == 0
    decreases |ops|
  {
    hide Step, Emitted, Indexed, CountOf, NoWorkflowOn;
    if ops == [] {
      NoEvents(db, Key(db.issues[id]), kind);
    } else {
      assert ops[0] in ops;
      StepKeepsIndexed(db, ops[0]);
      HiddenRowTakesOccurrences(db, ops[0], id, kind);
      EventsOfRun(db, ops, Key(db.issues[id]), kind);
      HiddenRowStaysHidden(Step(db, ops[0]), ops[1..], id, kind);
    }
  }

  lemma {:induction false} LeftAloneCounts(db: Db, ops: seq<Op>, id: int)
    requires Indexed(db) && id in db.issues && forall op :: op in ops ==> LeavesAlone(op, id)
    ensures id in Run(db, ops).issues
    ensures Run(db, ops).issues[id].count == db.issues[id].count + HitCount(ops, Key(db.issues[id]))
    decreases |ops|
  {
    hide Step, Emitted, Indexed, LeavesAlone, Decide;
    if ops != [] {
      assert ops[0] in ops;
      StepKeepsIndexed(db, ops[0]);
      StepOnIssue(db, ops[0], id);
      LeftAloneCounts(Step(db, ops[0]), ops[1..], id);
    }
  }

  /** A merge carries over what was counted, not what is to come: every later occurrence of the
      source's fingerprint is counted on the row that is hidden, announced nowhere, and never
      reaches the issue it was merged into. */
  lemma MergedGoesSilent(db: Db, source: int, target: int, ops: seq<Op>, kind: Kind)
    requires Indexed(db) && Mergeable(db, source, target)
    requires forall op :: op in ops ==> NoWorkflowOn(op, source) && LeavesAlone(op, target)
    ensures var s, t := db.issues[source], db.issues[target];
      var merged := Step(db, Merge(source, target));
      var after := Run(merged, ops);
      && source in after.issues && target in after.issues
      && after.issues[source].mergedInto == Some(target) && after.issues[source].status == Ignored
      && after.issues[source].count == s.count + HitCount(ops, Key(s))
      && after.issues[target].count == s.count + t.count + HitCount(ops, Key(t))
      && CountOf(Events(merged, ops), Key(s), kind) == 0
  {
    hide Indexed, CountOf, LeavesAlone, NoWorkflowOn, HitCount, Run, Events;
    var merged := Step(db, Merge(source, target));
    StepKeepsIndexed(db, Merge(source, target));
    HiddenRowStaysHidden(merged, ops, source, kind);
    LeftAloneCounts(merged, ops, target);
  }
}
