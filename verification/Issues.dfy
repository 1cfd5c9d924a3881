/** The life of an issue (internal/store/ingest.go, issue_workflow.go, query.go): occurrences,
    snoozing, resolving with a release, and merging. A committed transaction is one step. */
module Issues {
  import opened Common
  import opened Text
  import Semver

  datatype Status = Open | Resolved | Ignored | Snoozed

  datatype Issue = Issue(
    project: int, fingerprint: string, count: int, status: Status, resolved: bool,
    snoozeUntil: Option<int>, snoozeThreshold: int, snoozeStart: int,
    firstRelease: string, lastRelease: string, resolvedIn: string, mergedInto: Option<int>)

  /** An error item and the issue it belongs to. */
  datatype Item = Item(project: int, issue: int)

  /** The issues, their unique index by project and fingerprint, and the error items. */
  datatype Db = Db(issues: map<int, Issue>, index: map<(int, string), int>, items: seq<Item>, nextID: int)

  const EMPTY := Db(map[], map[], [], 1)

  datatype Kind = NewIssue | Regression

  datatype Event = Event(project: int, fingerprint: string, issue: int, kind: Kind, count: int)

  // ----- Fingerprint rules -----

  datatype Rule = Rule(
    id: int, exceptionMatch: string, messageGlob: string, stackContains: string,
    action: string, groupFingerprint: string)

  /** What an error says of itself. */
  datatype Report = Report(exception: string, message: string, stack: string)

  /** strings.ToLower. */
  type Lower = string -> string

  /** filepath.Match: pattern and name match, without an error in the pattern. */
  type Glob = (string, string) -> bool

  /** strings.Contains. */
  ghost predicate Contains(s: string, sub: string) {
    exists k :: OccursAt(s, sub, k)
  }

  lemma ContainsIsIndex(s: string, sub: string)
    ensures Contains(s, sub) <==> Index(s, sub) >= 0
  {
  }

  /** Every test a rule has passes, upper and lower case aside; a glob that does not match may
      still be a part of the message. */
  ghost predicate Fires(r: Rule, e: Report, lower: Lower, glob: Glob) {
    && (r.exceptionMatch != "" ==> Contains(lower(e.exception), lower(r.exceptionMatch)))
    && (r.messageGlob != "" ==>
         glob(lower(r.messageGlob), lower(e.message)) || Contains(lower(e.message), lower(r.messageGlob)))
    && (r.stackContains != "" ==> Contains(lower(e.stack), lower(r.stackContains)))
  }

  ghost predicate IsFirst(rules: seq<Rule>, i: nat, e: Report, lower: Lower, glob: Glob)
    requires i < |rules|
  {
    Fires(rules[i], e, lower, glob) && forall j :: 0 <= j < i ==> !Fires(rules[j], e, lower, glob)
  }

  /** Rules come by descending priority; the first whose tests pass decides, and a rule without
      tests lets none pass it by. */
  method MatchFingerprintRule(rules: seq<Rule>, e: Report, lower: Lower, glob: Glob) returns (r: Option<Rule>)
    ensures r.None? <==> forall i :: 0 <= i < |rules| ==> !Fires(rules[i], e, lower, glob)
    ensures r.Some? ==>
      exists i :: 0 <= i < |rules| && IsFirst(rules, i, e, lower, glob) && rules[i] == r.value
  {
    hide Index, Contains;
    for i := 0 to |rules|
      invariant forall j :: 0 <= j < i ==> !Fires(rules[j], e, lower, glob)
    {
      var rule := rules[i];
      ContainsIsIndex(lower(e.exception), lower(rule.exceptionMatch));
      ContainsIsIndex(lower(e.message), lower(rule.messageGlob));
      ContainsIsIndex(lower(e.stack), lower(rule.stackContains));
      if rule.exceptionMatch != "" && Index(lower(e.exception), lower(rule.exceptionMatch)) < 0 {
        continue;
      }
      if rule.messageGlob != "" {
        if !glob(lower(rule.messageGlob), lower(e.message)) {
          if Index(lower(e.message), lower(rule.messageGlob)) < 0 {
            continue;
          }
        }
      }
      if rule.stackContains != "" && Index(lower(e.stack), lower(rule.stackContains)) < 0 {
        continue;
      }
      assert IsFirst(rules, i, e, lower, glob);
      return Some(rule);
    }
    return None;
  }

  /** One error item as far as grouping goes: the fingerprint of its stack, the release of the
      session, its time, and the rule that fired. */
  datatype Occurrence = Occurrence(project: int, stackFingerprint: string, release: string, ts: int, rule: Option<Rule>)

  function Fingerprint(o: Occurrence): string {
    if o.rule.Some? && o.rule.value.action == "group_as" && o.rule.value.groupFingerprint != ""
    then o.rule.value.groupFingerprint else o.stackFingerprint
  }

  function KeyOf(o: Occurrence): (int, string) {
    (o.project, Fingerprint(o))
  }

  predicate Silenced(o: Occurrence) {
    o.rule.Some? && o.rule.value.action == "ignore"
  }

  // ----- One occurrence -----

  predicate Wakes(i: Issue, ts: int) {
    || (i.snoozeUntil.Some? && ts >= i.snoozeUntil.value)
    || (i.snoozeThreshold > 0 && i.count + 1 - i.snoozeStart >= i.snoozeThreshold)
  }

  predicate FromOlderRelease(i: Issue, release: string) {
    i.resolvedIn != "" && release != "" && Semver.Compare(release, i.resolvedIn) < 0
  }

  /** The status after the occurrence, and what is announced. */
  function Decide(prev: Option<Issue>, o: Occurrence): (Status, Option<Kind>) {
    match prev
    case None => if Silenced(o) then (Ignored, None) else (Open, Some(NewIssue))
    case Some(i) =>
      match i.status
      case Ignored => (Ignored, None)
      case Snoozed => if Wakes(i, o.ts) then (Open, Some(Regression)) else (Snoozed, None)
      case Resolved => if FromOlderRelease(i, o.release) then (Resolved, None) else (Open, Some(Regression))
      case Open => (Open, None)
  }

  function Stored(db: Db, key: (int, string)): Option<Issue> {
    if key in db.index && db.index[key] in db.issues then Some(db.issues[db.index[key]]) else None
  }

  /** The row the upsert leaves behind. */
  function Upserted(prev: Option<Issue>, o: Occurrence, status: Status): Issue {
    match prev
    case None => Issue(o.project, Fingerprint(o), 1, status, status == Resolved,
      None, 0, 0, o.release, o.release, "", None)
    case Some(i) => i.(count := i.count + 1, status := status, resolved := status == Resolved,
      firstRelease := if i.firstRelease == "" then o.release else i.firstRelease,
      lastRelease := if o.release != "" then o.release else i.lastRelease)
  }

  function IdFor(db: Db, key: (int, string)): int {
    if Stored(db, key).Some? then db.index[key] else db.nextID
  }

  function Occur(db: Db, o: Occurrence): Db {
    var prev, id := Stored(db, KeyOf(o)), IdFor(db, KeyOf(o));
    Db(db.issues[id := Upserted(prev, o, Decide(prev, o).0)], db.index[KeyOf(o) := id],
       db.items + [Item(o.project, id)], if prev.Some? then db.nextID else db.nextID + 1)
  }

  function Announced(db: Db, o: Occurrence): Option<Event> {
    var prev := Stored(db, KeyOf(o));
    var (status, kind) := Decide(prev, o);
    if kind.None? then None
    else Some(Event(o.project, Fingerprint(o), IdFor(db, KeyOf(o)), kind.value, Upserted(prev, o, status).count))
  }

  // ----- Workflow -----

  datatype Op =
    | Occurs(o: Occurrence)
    | SetStatus(id: int, status: Status)
    | Snooze(id: int, until: Option<int>, threshold: int)
    | Resolve(id: int, resolved: bool, release: string)
    | Merge(source: int, target: int)

  function Update(db: Db, id: int, i: Issue): Db {
    db.(issues := db.issues[id := i])
  }

  function Mergeable(db: Db, source: int, target: int): bool {
    && source != target && source in db.issues && target in db.issues
    && db.issues[source].project == db.issues[target].project
    && db.issues[source].mergedInto.None? && db.issues[target].mergedInto.None?
  }

  /** Items of one issue handed to another, within the project. */
  function Redirect(items: seq<Item>, source: int, target: int, project: int): (r: seq<Item>)
    ensures |r| == |items|
    ensures forall k :: 0 <= k < |items| ==>
      r[k] == if items[k] == Item(project, source) then Item(project, target) else items[k]
  {
    seq(|items|, k requires 0 <= k < |items| =>
      if items[k] == Item(project, source) then Item(project, target) else items[k])
  }

  function Merged(db: Db, source: int, target: int): Db
    requires Mergeable(db, source, target)
  {
    var s, t := db.issues[source], db.issues[target];
    db.(issues := db.issues[source := s.(mergedInto := Some(target), status := Ignored)]
                           [target := t.(count := t.count + s.count)],
        items := Redirect(db.items, source, target, s.project))
  }

  function ResolvedRow(i: Issue, resolved: bool, release: string): Issue {
    if !resolved then i.(status := Open, resolved := false)
    else i.(status := Resolved, resolved := true,
            resolvedIn := if release != "" then release
                          else if i.lastRelease != "" then i.lastRelease else i.resolvedIn)
  }

  function Step(db: Db, op: Op): Db {
    match op
    case Occurs(o) => Occur(db, o)
    case SetStatus(id, status) =>
      if id in db.issues then Update(db, id, db.issues[id].(status := status, resolved := status == Resolved)) else db
    case Snooze(id, until, threshold) =>
      if id in db.issues then Update(db, id, db.issues[id].(status := Snoozed, resolved := false,
        snoozeUntil := until, snoozeThreshold := threshold, snoozeStart := db.issues[id].count)) else db
    case Resolve(id, resolved, release) =>
      if id in db.issues then Update(db, id, ResolvedRow(db.issues[id], resolved, release)) else db
    case Merge(source, target) => if Mergeable(db, source, target) then Merged(db, source, target) else db
  }

  function Emitted(db: Db, op: Op): seq<Event> {
    if op.Occurs? && Announced(db, op.o).Some? then [Announced(db, op.o).value] else []
  }

  function Run(db: Db, ops: seq<Op>): Db
    decreases |ops|
  {
    if ops == [] then db else Run(Step(db, ops[0]), ops[1..])
  }

  function Events(db: Db, ops: seq<Op>): seq<Event>
    decreases |ops|
  {
    if ops == [] then [] else Emitted(db, ops[0]) + Events(Step(db, ops[0]), ops[1..])
  }

  lemma OneMore(db: Db, ops: seq<Op>)
    requires ops != []
    ensures Run(db, ops) == Run(Step(db, ops[0]), ops[1..])
    ensures Events(db, ops) == Emitted(db, ops[0]) + Events(Step(db, ops[0]), ops[1..])
  {
  }

  lemma NoMore(db: Db)
    ensures Run(db, []) == db && Events(db, []) == []
  {
  }

  // ----- Envelopes -----

  /** An item as far as ingest tells items apart. A frame can be stored with an image and a number
      above 0; the other known types only add rows of their own. */
  datatype Head =
    | Unreadable
    | FrameItem(storable: bool)
    | ErrorItem(o: Occurrence)
    | EventItem
    | OtherItem
    | UnknownItem

  datatype Tally = Tally(accepted: nat, rejected: nat, errors: nat, events: nat, frames: nat)

  function OpOf(h: Head): seq<Op> {
    if h.ErrorItem? then [Occurs(h.o)] else []
  }

  function OpsOf(heads: seq<Head>): seq<Op> {
    if heads == [] then [] else OpOf(heads[0]) + OpsOf(heads[1..])
  }

  lemma OpsOfFront(heads: seq<Head>)
    requires heads != []
    ensures heads[0].ErrorItem? ==>
      OpsOf(heads) != [] && OpsOf(heads)[0] == Occurs(heads[0].o) && OpsOf(heads)[1..] == OpsOf(heads[1..])
    ensures !heads[0].ErrorItem? ==> OpsOf(heads) == OpsOf(heads[1..])
  {
  }

  predicate Accepted(h: Head) {
    h.ErrorItem? || h.EventItem? || h.OtherItem? || (h.FrameItem? && h.storable)
  }

  function TallyOf(heads: seq<Head>): Tally {
    if heads == [] then Tally(0, 0, 0, 0, 0) else
      var t, h := TallyOf(heads[..|heads| - 1]), heads[|heads| - 1];
      Tally(t.accepted + if Accepted(h) then 1 else 0, t.rejected + if Accepted(h) then 0 else 1,
        t.errors + if h.ErrorItem? then 1 else 0, t.events + if h.EventItem? then 1 else 0,
        t.frames + if h.FrameItem? && h.storable then 1 else 0)
  }

  /** The positions of the items of some kind. */
  function Where(heads: seq<Head>, kind: Head -> bool): set<int> {
    set k | 0 <= k < |heads| && kind(heads[k])
  }

  lemma WhereSnoc(heads: seq<Head>, kind: Head -> bool)
    requires heads != []
    ensures |Where(heads, kind)| == |Where(heads[..|heads| - 1], kind)| + if kind(heads[|heads| - 1]) then 1 else 0
  {
    var n := |heads| - 1;
    var front := Where(heads[..n], kind);
    assert Where(heads, kind) == front + if kind(heads[n]) then {n} else {};
  }

  /** Every item is accepted or rejected, once: rejected if it is unreadable, of an unknown type or
      a frame that cannot be stored. The session's row counts the errors, the events and the frames
      that were stored. */
  lemma {:induction false} EveryItemIsCounted(heads: seq<Head>)
    ensures var t := TallyOf(heads);
      && t.accepted + t.rejected == |heads|
      && t.rejected == |Where(heads, (h: Head) => h.Unreadable? || h.UnknownItem? || (h.FrameItem? && !h.storable))|
      && t.errors == |Where(heads, (h: Head) => h.ErrorItem?)|
      && t.events == |Where(heads, (h: Head) => h.EventItem?)|
      && t.frames == |Where(heads, (h: Head) => h.FrameItem? && h.storable)|
  {
    hide Where;
    if heads == [] {
      NoneAnywhere((h: Head) => h.Unreadable? || h.UnknownItem? || (h.FrameItem? && !h.storable));
      NoneAnywhere((h: Head) => h.ErrorItem?);
      NoneAnywhere((h: Head) => h.EventItem?);
      NoneAnywhere((h: Head) => h.FrameItem? && h.storable);
    } else {
      EveryItemIsCounted(heads[..|heads| - 1]);
      WhereSnoc(heads, (h: Head) => h.Unreadable? || h.UnknownItem? || (h.FrameItem? && !h.storable));
      WhereSnoc(heads, (h: Head) => h.ErrorItem?);
      WhereSnoc(heads, (h: Head) => h.EventItem?);
      WhereSnoc(heads, (h: Head) => h.FrameItem? && h.storable);
    }
  }

  lemma NoneAnywhere(kind: Head -> bool)
    ensures Where([], kind) == {}
  {
  }

  lemma {:induction false} OpsOfSnoc(heads: seq<Head>, h: Head)
    ensures OpsOf(heads + [h]) == OpsOf(heads) + OpOf(h)
  {
    hide OpOf;
    if heads == [] {
      assert OpsOf([h][1..]) == [];
      assert heads + [h] == [h];
    } else {
      assert (heads + [h])[1..] == heads[1..] + [h];
      OpsOfSnoc(heads[1..], h);
    }
  }

  /** The errors counted are the error items recorded: no more, no fewer, whatever becomes of their
      issues. */
  lemma {:induction false} ErrorsAreRecorded(db: Db, heads: seq<Head>)
    ensures TallyOf(heads).errors == |OpsOf(heads)|
    ensures |Run(db, OpsOf(heads)).items| == |db.items| + TallyOf(heads).errors
  {
    hide Step;
    if heads != [] {
      var n := |heads| - 1;
      ErrorsAreRecorded(db, heads[..n]);
      OpsOfSnoc(heads[..n], heads[n]);
      assert heads == heads[..n] + [heads[n]];
    }
    OnlyOccurrences(heads);
    OccurrencesRecord(db, OpsOf(heads));
  }

  lemma {:induction false} OnlyOccurrences(heads: seq<Head>)
    ensures forall op :: op in OpsOf(heads) ==> op.Occurs?
  {
    if heads != [] {
      OnlyOccurrences(heads[1..]);
    }
  }

  lemma {:induction false} OccurrencesRecord(db: Db, ops: seq<Op>)
    requires forall op :: op in ops ==> op.Occurs?
    ensures |Run(db, ops).items| == |db.items| + |ops|
    decreases |ops|
  {
    hide Decide, Upserted, Stored;
    if ops != [] {
      assert ops[0] in ops;
      OccurrencesRecord(Step(db, ops[0]), ops[1..]);
    }
  }

  // ----- The store -----

  datatype Outcome = Ok | InvalidStatus | NotFound | MergeIntoItself | CrossProject | SourceMerged | TargetMerged

  function ParseStatus(s: string): Option<Status> {
    if s == "open" then Some(Open) else if s == "resolved" then Some(Resolved)
    else if s == "ignored" then Some(Ignored) else if s == "snoozed" then Some(Snoozed) else None
  }

  /** The status an occurrence leads to, branch by branch. */
  method DecideStatus(prev: Option<Issue>, o: Occurrence) returns (targetStatus: Status, eventKind: Option<Kind>)
    ensures (targetStatus, eventKind) == Decide(prev, o)
  {
    hide Semver.Compare;
    eventKind := None;
    targetStatus := Open;
    if o.rule.Some? && o.rule.value.action == "ignore" {
      targetStatus := Ignored;
    }
    if prev.None? {
      if targetStatus != Ignored {
        eventKind := Some(NewIssue);
      }
    } else if prev.value.status == Ignored {
      targetStatus := Ignored;
    } else if prev.value.status == Snoozed {
      var p := prev.value;
      var woken := false;
      if p.snoozeUntil.Some? && !(o.ts < p.snoozeUntil.value) {
        woken := true;
      }
      if p.snoozeThreshold > 0 && p.count + 1 - p.snoozeStart >= p.snoozeThreshold {
        woken := true;
      }
      if woken {
        targetStatus := Open;
        eventKind := Some(Regression);
      } else {
        targetStatus := Snoozed;
      }
    } else if prev.value.status == Resolved {
      if prev.value.resolvedIn != "" && o.release != "" {
        var c := Semver.CompareVersions(o.release, prev.value.resolvedIn);
        if c < 0 {
          targetStatus := Resolved;
        } else {
          targetStatus := Open;
          eventKind := Some(Regression);
        }
      } else {
        targetStatus := Open;
        eventKind := Some(Regression);
      }
    } else {
      targetStatus := prev.value.status;
    }
  }

  class IssueStore {
    var issues: map<int, Issue>
    var index: map<(int, string), int>
    var items: seq<Item>
    var nextID: int

    function State(): Db
      reads this
    {
      Db(issues, index, items, nextID)
    }

    constructor ()
      ensures State() == EMPTY
    {
      issues, index, items, nextID := map[], map[], [], 1;
    }

    /** INSERT ... ON CONFLICT DO UPDATE ... RETURNING id, count. */
    method Upsert(prev: Option<Issue>, key: (int, string), release: string, targetStatus: Status)
      returns (id: int, newCount: int)
      requires prev.Some? ==> key in index
      modifies this`issues, this`index, this`nextID
      ensures id == (if prev.Some? then old(index)[key] else old(nextID))
      ensures nextID == if prev.Some? then old(nextID) else old(nextID) + 1
      ensures index == old(index)[key := id]
      ensures var row := Upserted(prev, Occurrence(key.0, key.1, release, 0, None), targetStatus);
        issues == old(issues)[id := row] && newCount == row.count
    {
      var firstRel, lastRel := release, release;
      if prev.Some? && prev.value.firstRelease != "" {
        firstRel := prev.value.firstRelease;
      }
      if lastRel == "" && prev.Some? {
        lastRel := prev.value.lastRelease;
      }
      var row;
      if prev.Some? {
        id := index[key];
        var p := prev.value;
        row := p.(count := p.count + 1, status := targetStatus, resolved := targetStatus == Resolved,
          firstRelease := if p.firstRelease == "" then firstRel else p.firstRelease,
          lastRelease := if lastRel != "" then lastRel else p.lastRelease);
      } else {
        id := nextID;
        nextID := nextID + 1;
        row := Issue(key.0, key.1, 1, targetStatus, targetStatus == Resolved,
          None, 0, 0, firstRel, lastRel, "", None);
      }
      issues := issues[id := row];
      index := index[key := id];
      newCount := row.count;
    }

    /** The error branch of the ingest loop. */
    method IngestError(o: Occurrence) returns (event: Option<Event>)
      modifies this
      ensures State() == Occur(old(State()), o) && event == Announced(old(State()), o)
    {
      hide Decide, Silenced, Wakes;
      var fp := o.stackFingerprint;
      if o.rule.Some? && o.rule.value.action == "group_as" && o.rule.value.groupFingerprint != "" {
        fp := o.rule.value.groupFingerprint;
      }
      var key := (o.project, fp);
      var prev := if key in index && index[key] in issues then Some(issues[index[key]]) else None;
      var targetStatus, eventKind := DecideStatus(prev, o);
      var id, newCount := Upsert(prev, key, o.release, targetStatus);
      items := items + [Item(o.project, id)];
      event := None;
      if eventKind.Some? {
        event := Some(Event(o.project, fp, id, eventKind.value, newCount));
      }
    }

    /** The items of one envelope, in order: what they are counted as, which the session's row and
        the sender are told, and the events handed on after the commit. */
    method Ingest(heads: seq<Head>) returns (tally: Tally, events: seq<Event>)
      modifies this
      ensures State() == Run(old(State()), OpsOf(heads)) && events == Events(old(State()), OpsOf(heads))
      ensures tally == TallyOf(heads)
    {
      hide Occur, Announced, Decide, Upserted, Stored, Run, Events;
      ghost var start := State();
      events := [];
      tally := Tally(0, 0, 0, 0, 0);
      assert heads[0..] == heads;
      for i := 0 to |heads|
        invariant Run(start, OpsOf(heads)) == Run(State(), OpsOf(heads[i..]))
        invariant Events(start, OpsOf(heads)) == events + Events(State(), OpsOf(heads[i..]))
        invariant tally == TallyOf(heads[..i])
      {
        assert heads[i..][0] == heads[i] && heads[i..][1..] == heads[i + 1..];
        assert heads[..i + 1][..i] == heads[..i];
        OpsOfFront(heads[i..]);
        match heads[i] {
          case Unreadable =>
            tally := tally.(rejected := tally.rejected + 1);
          case FrameItem(storable) =>
            if storable {
              tally := tally.(accepted := tally.accepted + 1, frames := tally.frames + 1);
            } else {
              tally := tally.(rejected := tally.rejected + 1);
            }
          case ErrorItem(o) =>
            OneMore(State(), OpsOf(heads[i..]));
            var event := IngestError(o);
            if event.Some? {
              events := events + [event.value];
            }
            tally := tally.(accepted := tally.accepted + 1, errors := tally.errors + 1);
          case EventItem =>
            tally := tally.(accepted := tally.accepted + 1, events := tally.events + 1);
          case OtherItem =>
            tally := tally.(accepted := tally.accepted + 1);
          case UnknownItem =>
            tally := tally.(rejected := tally.rejected + 1);
        }
      }
      NoMore(State());
      assert heads[|heads|..] == [] && heads[..|heads|] == heads;
    }

    /** The status in upper, lower or mixed case. */
    method SetIssueStatus(id: int, status: string, lower: Lower) returns (r: Outcome)
      modifies this
      ensures var s := ParseStatus(lower(status));
        if s.None? then r == InvalidStatus && State() == old(State())
        else r == Ok && State() == Step(old(State()), SetStatus(id, s.value))
      ensures r == Ok && id in old(issues) ==>
        issues == old(issues)[id := old(issues)[id].(
          status := issues[id].status, resolved := issues[id].status == Resolved)]
        && ParseStatus(lower(status)) == Some(issues[id].status)
    {
      var s := ParseStatus(lower(status));
      if s.None? {
        return InvalidStatus;
      }
      if id in issues {
        issues := issues[id := issues[id].(status := s.value, resolved := s.value == Resolved)];
      }
      return Ok;
    }

    method SnoozeIssue(id: int, until: Option<int>, countThreshold: int)
      modifies this
      ensures State() == Step(old(State()), Snooze(id, until, countThreshold))
    {
      if id in issues {
        var i := issues[id];
        issues := issues[id := i.(status := Snoozed, resolved := false, snoozeUntil := until,
          snoozeThreshold := countThreshold, snoozeStart := i.count)];
      }
    }

    method SetIssueResolvedWithRelease(id: int, resolved: bool, release: string) returns (r: Outcome)
      modifies this
      ensures State() == Step(old(State()), Resolve(id, resolved, release))
      ensures r == if id in old(issues) then Ok else NotFound
      ensures id in old(issues) && !resolved ==>
        issues == old(issues)[id := old(issues)[id].(status := Open, resolved := false)]
    {
      if id !in issues {
        return NotFound;
      }
      var i := issues[id];
      if resolved {
        if release != "" {
          i := i.(status := Resolved, resolved := true, resolvedIn := release);
        } else {
          i := i.(status := Resolved, resolved := true,
                  resolvedIn := if i.lastRelease != "" then i.lastRelease else i.resolvedIn);
        }
      } else {
        i := i.(status := Open, resolved := false);
      }
      issues := issues[id := i];
      return Ok;
    }

    method MergeIssue(sourceID: int, targetID: int) returns (r: Outcome)
      modifies this
      ensures State() == Step(old(State()), Merge(sourceID, targetID))
      ensures r == Ok <==> Mergeable(old(State()), sourceID, targetID)
      ensures r == MergeIntoItself <==> sourceID == targetID
      ensures r == NotFound <==> sourceID != targetID && !(sourceID in old(issues) && targetID in old(issues))
      ensures r == CrossProject ==> old(issues)[sourceID].project != old(issues)[targetID].project
      ensures r == SourceMerged ==> old(issues)[sourceID].mergedInto.Some?
      ensures r == TargetMerged ==> old(issues)[targetID].mergedInto.Some? && old(issues)[sourceID].mergedInto.None?
    {
      if sourceID == targetID {
        return MergeIntoItself;
      }
      if sourceID !in issues || targetID !in issues {
        return NotFound;
      }
      var source, target := issues[sourceID], issues[targetID];
      if source.project != target.project {
        return CrossProject;
      }
      if source.mergedInto.Some? {
        return SourceMerged;
      }
      if target.mergedInto.Some? {
        return TargetMerged;
      }
      issues := issues[sourceID := source.(mergedInto := Some(targetID), status := Ignored)];
      issues := issues[targetID := target.(count := target.count + source.count)];
      items := Redirect(items, sourceID, targetID, source.project);
      return Ok;
    }
  }
}
