/** Dropping expired sessions and sweeping what is left over (internal/store/retention.go), as the
    loops of the source, when nothing else runs. The store fails in one way only, the one the
    schema forces on it: a session row cannot go while an item refers to it. */
module Retention {
  import opened Common
  import opened Blob
  import opened Text

  datatype Session = Session(project: int, startedAt: int)

  datatype Project = Project(id: int, retentionDays: int)

  const BATCH := 500

  const DAY := 86400

  /** The days a project keeps its sessions; 0 or less: for ever. */
  function DaysKept(p: Project, defaultDays: int): int {
    if p.retentionDays <= 0 then defaultDays else p.retentionDays
  }

  predicate ExpiredFor(p: Project, s: Session, defaultDays: int, now: int) {
    s.project == p.id && DaysKept(p, defaultDays) > 0 && s.startedAt < now - DaysKept(p, defaultDays) * DAY
  }

  function Expired(sessions: map<string, Session>, projects: seq<Project>, defaultDays: int, now: int): set<string> {
    set id | id in sessions && exists p :: p in projects && ExpiredFor(p, sessions[id], defaultDays, now)
  }

  /** An object the sweeper takes for a frame of a session that is gone. */
  predicate Orphan(key: string, sessions: set<string>) {
    '/' in key && Head(key) != "" && !("sourcemaps/" <= key) && Head(key) !in sessions
  }

  function UnderAny(key: string, ids: set<string>): bool {
    exists id :: id in ids && SessionPrefix(id) <= key
  }

  /** The objects that survive deleting the prefixes of the given sessions. */
  function Spared(objects: set<string>, ids: set<string>): set<string> {
    set k | k in objects && !UnderAny(k, ids)
  }

  lemma SparedTwice(objects: set<string>, a: set<string>, b: set<string>)
    ensures Spared(Spared(objects, a), b) == Spared(objects, a + b)
    ensures Spared(objects, {}) == objects
  {
    forall k ensures UnderAny(k, a + b) <==> UnderAny(k, a) || UnderAny(k, b) {
      if UnderAny(k, a) {
        var id :| id in a && SessionPrefix(id) <= k;
        assert id in a + b;
      }
      if UnderAny(k, b) {
        var id :| id in b && SessionPrefix(id) <= k;
        assert id in a + b;
      }
    }
  }

  function ToSet(ids: seq<string>): set<string> {
    set id | id in ids
  }

  lemma ToSetOfSum(a: seq<string>, b: seq<string>)
    ensures ToSet(a + b) == ToSet(a) + ToSet(b)
    ensures ToSet([]) == {}
  {
  }

  lemma SliceUpTo(ids: seq<string>, i: nat, j: nat)
    requires i <= j <= |ids|
    ensures ToSet(ids[..j]) == ToSet(ids[..i]) + ToSet(ids[i..j])
    ensures ToSet(ids[..0]) == {} && ToSet(ids[..|ids|]) == ToSet(ids)
  {
    assert ids[..j] == ids[..i] + ids[i..j];
    ToSetOfSum(ids[..i], ids[i..j]);
    assert ids[..|ids|] == ids;
  }

  /** Of distinct ids, those without a row, up to i and up to j. */
  lemma GoneGrows(ids: seq<string>, i: nat, j: nat, living: set<string>)
    requires i <= j <= |ids| && Distinct(ids)
    ensures ToSet(ids[..j]) - living == (ToSet(ids[..i]) - living) + (ToSet(ids[i..j]) - living)
    ensures |ToSet(ids[..j]) - living| == |ToSet(ids[..i]) - living| + |ToSet(ids[i..j]) - living|
    ensures ToSet(ids[..0]) - living == {} && ids[..|ids|] == ids
  {
    SliceUpTo(ids, i, j);
    var a, b := ToSet(ids[..i]) - living, ToSet(ids[i..j]) - living;
    assert a !! b;
    assert ToSet(ids[..j]) - living == a + b;
  }

  lemma GoneOrNot(ids: seq<string>, i: nat, living: set<string>)
    requires i < |ids|
    ensures ToSet(ids[i..i + 1]) - living == if ids[i] in living then {} else {ids[i]}
  {
  }

  lemma SweepOne(objects: set<string>, batch: seq<string>, i: nat, living: set<string>)
    requires i < |batch| && Distinct(batch)
    ensures var gone, next := ToSet(batch[..i]) - living, ToSet(batch[..i + 1]) - living;
      && (batch[i] in living ==> next == gone)
      && (batch[i] !in living ==>
           |next| == |gone| + 1 && Spared(Spared(objects, gone), {batch[i]}) == Spared(objects, next))
  {
    hide Spared, ToSet;
    GoneGrows(batch, i, i + 1, living);
    GoneOrNot(batch, i, living);
    SparedTwice(objects, ToSet(batch[..i]) - living, {batch[i]});
  }

  /** Frame rows are named by session and number, items by session and time. */
  datatype Tables = Tables(
    sessions: map<string, Session>, rows: set<(string, nat)>, items: set<(string, int)>, objects: set<string>)

  /** The stores without the given sessions, their frame rows, items and objects. */
  function Purged(t: Tables, gone: set<string>): Tables {
    Tables(t.sessions - gone, (set r | r in t.rows && r.0 !in gone), (set r | r in t.items && r.0 !in gone),
      Spared(t.objects, gone))
  }

  /** The session has an item dated a day or more ahead, which the purge does not delete; and the
      item holds on to its session. */
  predicate Held(items: set<(string, int)>, id: string, now: int) {
    exists r :: r in items && r.0 == id && r.1 >= now + DAY
  }

  predicate NoneHeld(items: set<(string, int)>, ids: set<string>, now: int) {
    forall id :: id in ids ==> !Held(items, id, now)
  }

  /** All that is expired of the project is among the given sessions, unless some of it is held. */
  predicate GoneUnlessHeld(t: Tables, p: Project, defaultDays: int, now: int, gone: set<string>) {
    var ids := Expired(t.sessions, [p], defaultDays, now);
    NoneHeld(t.items, ids, now) ==> ids <= gone
  }

  lemma NothingPurged(t: Tables)
    ensures Purged(t, {}) == t
  {
    SparedTwice(t.objects, {}, {});
  }

  lemma PurgedParts(t: Tables, gone: set<string>)
    ensures var p := Purged(t, gone);
      && p.sessions == t.sessions - gone && p.rows == (set r | r in t.rows && r.0 !in gone)
      && p.items == (set r | r in t.items && r.0 !in gone) && p.objects == Spared(t.objects, gone)
    ensures forall id, now :: id !in gone ==> (Held(Purged(t, gone).items, id, now) <==> Held(t.items, id, now))
  {
    hide Spared;
    var p := Purged(t, gone);
    forall id, now | id !in gone ensures Held(p.items, id, now) <==> Held(t.items, id, now) {
      if Held(t.items, id, now) {
        var r :| r in t.items && r.0 == id && r.1 >= now + DAY;
        assert r in p.items;
      }
    }
  }

  lemma PurgedTwice(t: Tables, a: set<string>, b: set<string>)
    ensures Purged(Purged(t, a), b) == Purged(t, a + b)
  {
    hide Spared;
    SparedTwice(t.objects, a, b);
  }

  /** The sessions the walk over the objects comes across. */
  function Walked(objects: set<string>): set<string> {
    set k | k in objects && !("sourcemaps/" <= k) && '/' in k && Head(k) != "" :: Head(k)
  }

  lemma DistinctSlice(ids: seq<string>, i: nat, j: nat)
    requires i <= j <= |ids| && Distinct(ids)
    ensures Distinct(ids[i..j])
  {
  }

  method SeqOf(s: set<string>) returns (r: seq<string>)
    ensures (forall x :: x in r <==> x in s) && |r| == |s|
    ensures Distinct(r)
  {
    r := [];
    var todo := s;
    while todo != {}
      invariant todo <= s && |r| + |todo| == |s|
      invariant forall x :: x in s <==> x in r || x in todo
      invariant forall x :: x in r ==> x !in todo
      invariant Distinct(r)
      decreases |todo|
    {
      var x :| x in todo;
      todo := todo - {x};
      r := r + [x];
    }
  }

  lemma OrphansAreUnder(objects: set<string>, living: set<string>)
    ensures forall k :: k in objects ==> (UnderAny(k, Walked(objects) - living) <==> Orphan(k, living))
  {
    hide Head, SlashFree, SessionPrefix;
    var gone := Walked(objects) - living;
    forall k | k in objects ensures UnderAny(k, gone) <==> Orphan(k, living) {
      SourcemapsHead(k);
      HeadIsSlashFree(k);
      PrefixIsHead(Head(k), k);
      if UnderAny(k, gone) {
        var id :| id in gone && SessionPrefix(id) <= k;
        var other :| other in objects && !("sourcemaps/" <= other) && '/' in other && Head(other) == id;
        SourcemapsHead(other);
        HeadIsSlashFree(other);
        PrefixIsHead(id, k);
      }
      if Orphan(k, living) {
        assert Head(k) in gone;
      }
    }
  }

  lemma SourcemapsHead(k: string)
    ensures "sourcemaps/" <= k <==> Head(k) == "sourcemaps" && '/' in k
  {
    PrefixIsHead("sourcemaps", k);
    assert SessionPrefix("sourcemaps") == "sourcemaps/";
  }

  lemma HeadIsSlashFree(k: string)
    ensures SlashFree(Head(k))
  {
  }

  lemma ExpiredOneMore(sessions: map<string, Session>, projects: seq<Project>, i: nat, defaultDays: int, now: int)
    requires i < |projects|
    ensures Expired(sessions, projects[..i + 1], defaultDays, now) ==
      Expired(sessions, projects[..i], defaultDays, now) + Expired(sessions, [projects[i]], defaultDays, now)
  {
    hide ExpiredFor;
    assert projects[..i + 1] == projects[..i] + [projects[i]];
    assert projects[i] in [projects[i]];
  }

  lemma ExpiredAmongOthers(sessions: map<string, Session>, gone: set<string>, ps: seq<Project>, defaultDays: int,
          now: int)
    ensures Expired(sessions - gone, ps, defaultDays, now) == Expired(sessions, ps, defaultDays, now) - gone
  {
    hide ExpiredFor;
  }

  lemma ExpiredOfEach(sessions: map<string, Session>, projects: seq<Project>, defaultDays: int, now: int, id: string)
    requires id in Expired(sessions, projects, defaultDays, now)
    ensures exists p :: p in projects && id in Expired(sessions, [p], defaultDays, now)
  {
    hide ExpiredFor;
    var p :| p in projects && ExpiredFor(p, sessions[id], defaultDays, now);
    assert p in [p] && id in Expired(sessions, [p], defaultDays, now);
  }

  class FrameStore {
    var sessions: map<string, Session>
    var rows: set<(string, nat)>
    var items: set<(string, int)>
    var objects: set<string>

    constructor ()
      ensures State() == Tables(map[], {}, {}, {})
    {
      sessions, rows, items, objects := map[], {}, {}, {};
    }

    ghost function State(): Tables
      reads this
    {
      Tables(sessions, rows, items, objects)
    }

    method DeletePrefix(prefix: string)
      modifies this`objects
      ensures objects == set k | k in old(objects) && !(prefix <= k)
    {
      objects := set k | k in objects && !(prefix <= k);
    }

    /** Deletes one session's prefix. */
    method DeleteSession(id: string)
      modifies this`objects
      ensures objects == Spared(old(objects), {id})
    {
      DeletePrefix(SessionPrefix(id));
    }

    /** Deletes the prefixes of the sessions of one batch that have no row. */
    method SweepBatch(batch: seq<string>) returns (swept: nat)
      requires Distinct(batch)
      modifies this`objects
      ensures objects == Spared(old(objects), ToSet(batch) - sessions.Keys)
      ensures swept == |ToSet(batch) - sessions.Keys|
    {
      hide Spared, ToSet, Distinct, SessionPrefix;
      swept := 0;
      SparedTwice(objects, {}, {});
      GoneGrows(batch, 0, |batch|, sessions.Keys);
      for i := 0 to |batch|
        invariant swept == |ToSet(batch[..i]) - sessions.Keys|
        invariant objects == Spared(old(objects), ToSet(batch[..i]) - sessions.Keys)
      {
        SweepOne(old(objects), batch, i, sessions.Keys);
        if batch[i] !in sessions {
          DeleteSession(batch[i]);
          swept := swept + 1;
        }
      }
    }

    /** The sweeper's batches over the sessions it came across. */
    method SweepAll(allIDs: seq<string>) returns (swept: nat)
      requires Distinct(allIDs)
      modifies this`objects
      ensures objects == Spared(old(objects), ToSet(allIDs) - sessions.Keys)
      ensures swept == |ToSet(allIDs) - sessions.Keys|
    {
      hide Spared, ToSet, Distinct;
      swept := 0;
      var i := 0;
      SparedTwice(objects, {}, {});
      GoneGrows(allIDs, 0, |allIDs|, sessions.Keys);
      while i < |allIDs|
        invariant 0 <= i <= |allIDs|
        invariant swept == |ToSet(allIDs[..i]) - sessions.Keys|
        invariant objects == Spared(old(objects), ToSet(allIDs[..i]) - sessions.Keys)
      {
        var end := i + BATCH;
        if end > |allIDs| {
          end := |allIDs|;
        }
        DistinctSlice(allIDs, i, end);
        GoneGrows(allIDs, i, end, sessions.Keys);
        SparedTwice(old(objects), ToSet(allIDs[..i]) - sessions.Keys, ToSet(allIDs[i..end]) - sessions.Keys);
        var n := SweepBatch(allIDs[i..end]);
        swept := swept + n;
        i := end;
      }
    }

    /** Walks over the objects and removes those whose session row is gone: exactly the orphans,
        one prefix a session; maps and objects of living sessions stay. */
    method SweepOrphanFrames() returns (swept: nat)
      modifies this`objects
      ensures objects == set k | k in old(objects) && !Orphan(k, sessions.Keys)
      ensures swept == |Walked(old(objects)) - sessions.Keys|
    {
      hide UnderAny, Orphan;
      var allIDs := SeqOf(Walked(objects));
      assert ToSet(allIDs) == Walked(objects);
      OrphansAreUnder(objects, sessions.Keys);
      swept := SweepAll(allIDs);
    }

    /** One transaction for the rows of a batch, then its objects. If an item of the batch is left
        over, the transaction is rolled back and nothing happens. */
    method PurgeBatch(batch: seq<string>, now: int) returns (committed: bool)
      modifies this
      ensures committed <==> NoneHeld(old(items), ToSet(batch), now)
      ensures State() == if committed then Purged(old(State()), ToSet(batch)) else old(State())
    {
      hide Spared, SessionPrefix;
      var tsCutoff := now + DAY;
      var framesLeft := set r | r in rows && r.0 !in batch;
      var itemsLeft := set r | r in items && !(r.0 in batch && r.1 < tsCutoff);
      if exists r :: r in itemsLeft && r.0 in batch {
        assert !NoneHeld(items, ToSet(batch), now) by {
          var r :| r in itemsLeft && r.0 in batch;
          assert Held(items, r.0, now);
        }
        return false;
      }
      assert NoneHeld(items, ToSet(batch), now) by { NothingLeftIsNoneHeld(items, batch, now); }
      rows, items := framesLeft, itemsLeft;
      sessions := map id | id in sessions && id !in batch :: sessions[id];
      DeleteSessions(batch);
      assert itemsLeft == set r | r in old(items) && r.0 !in ToSet(batch);
      return true;
    }

    method DeleteSessions(batch: seq<string>)
      modifies this`objects
      ensures objects == Spared(old(objects), ToSet(batch))
    {
      hide Spared, ToSet, SessionPrefix;
      SliceUpTo(batch, 0, 0);
      SparedTwice(objects, {}, {});
      for i := 0 to |batch|
        invariant objects == Spared(old(objects), ToSet(batch[..i]))
      {
        SliceUpTo(batch, i, i + 1);
        SetOfOne(batch, i);
        SparedTwice(old(objects), ToSet(batch[..i]), {batch[i]});
        DeleteSession(batch[i]);
      }
      SliceUpTo(batch, 0, |batch|);
    }

    /** The batches of one project, up to the first that is rolled back. */
    method PurgeAll(ids: seq<string>, now: int) returns (purged: nat)
      modifies this
      ensures purged <= |ids| && State() == Purged(old(State()), ToSet(ids[..purged]))
      ensures NoneHeld(old(items), ToSet(ids[..purged]), now)
      ensures purged == |ids| <==> NoneHeld(old(items), ToSet(ids), now)
    {
      hide Purged, Held, ToSet;
      SliceUpTo(ids, 0, |ids|);
      NothingPurged(State());
      purged := 0;
      var i := 0;
      while i < |ids|
        invariant 0 <= i <= |ids| && purged == i
        invariant State() == Purged(old(State()), ToSet(ids[..i]))
        invariant NoneHeld(old(items), ToSet(ids[..i]), now)
      {
        var end := i + BATCH;
        if end > |ids| {
          end := |ids|;
        }
        SliceUpTo(ids, i, end);
        SliceUpTo(ids, end, |ids|);
        PurgedTwice(old(State()), ToSet(ids[..i]), ToSet(ids[i..end]));
        HeldAfterPurge(old(State()), ToSet(ids[..i]), ToSet(ids[i..end]), now);
        var committed := PurgeBatch(ids[i..end], now);
        if !committed {
          break;
        }
        purged := purged + (end - i);
        i := end;
      }
    }

    /** The expired sessions of one project: none that is held goes, and all go if and only if none
        is held. */
    method PurgeProject(p: Project, defaultDays: int, now: int) returns (purged: nat, ghost gone: set<string>)
      modifies this
      ensures State() == Purged(old(State()), gone) && purged == |gone|
      ensures gone <= Expired(old(sessions), [p], defaultDays, now) && NoneHeld(old(items), gone, now)
      ensures gone == Expired(old(sessions), [p], defaultDays, now) <==>
        NoneHeld(old(items), Expired(old(sessions), [p], defaultDays, now), now)
    {
      hide Purged, Held;
      purged, gone := 0, {};
      NothingPurged(State());
      var days := p.retentionDays;
      if days <= 0 {
        days := defaultDays;
      }
      if days <= 0 {
        assert Expired(sessions, [p], defaultDays, now) == {};
        return;
      }
      var cutoff := now - days * DAY;
      var found := set id | id in sessions && sessions[id].project == p.id && sessions[id].startedAt < cutoff;
      assert found == Expired(sessions, [p], defaultDays, now) by {
        assert p in [p];
      }
      var ids := SeqOf(found);
      assert ToSet(ids) == found;
      purged := PurgeAll(ids, now);
      gone := ToSet(ids[..purged]);
      DistinctSize(ids[..purged]);
      assert ids[..|ids|] == ids;
    }

    /** Of the expired sessions those go, with rows, items and objects, that are not held and, in
        their project, not behind one that is; then every orphan goes. No held session goes, a
        project without one loses all that is expired, and nothing expired is left at all if and
        only if none is held. */
    method PurgeExpired(projects: seq<Project>, defaultDays: int, now: int)
      returns (totalPurged: nat, ghost gone: set<string>)
      modifies this
      ensures gone <= Expired(old(sessions), projects, defaultDays, now) && totalPurged == |gone|
      ensures NoneHeld(old(items), gone, now)
      ensures forall p :: p in projects ==> GoneUnlessHeld(old(State()), p, defaultDays, now, gone)
      ensures gone == Expired(old(sessions), projects, defaultDays, now) <==>
        NoneHeld(old(items), Expired(old(sessions), projects, defaultDays, now), now)
      ensures State() == Purged(old(State()), gone).(objects :=
        set k | k in Spared(old(objects), gone) && !Orphan(k, sessions.Keys))
      ensures forall id :: id in old(sessions) && WithinItsDays(old(sessions)[id], projects, defaultDays, now) ==>
        IsThere(State(), old(State()), id)
      ensures forall id :: HasToGo(old(State()), id, projects, defaultDays, now) ==> IsGone(State(), id)
    {
      hide Spared, Orphan, Expired, Purged, Held, NoneHeld, GoneUnlessHeld, PurgedUpTo;
      hide WithinItsDays, HasToGo, IsThere, IsGone;
      totalPurged, gone := 0, {};
      NothingPurged(State());
      PurgedUpToNone(State(), projects, defaultDays, now);
      for i := 0 to |projects|
        invariant totalPurged == |gone| && PurgedUpTo(old(State()), projects, i, defaultDays, now, gone)
        invariant State() == Purged(old(State()), gone)
      {
        var n; ghost var more;
        n, more := PurgeProject(projects[i], defaultDays, now);
        PurgedOneMore(old(State()), projects, i, defaultDays, now, gone, more);
        totalPurged := totalPurged + n;
        gone := gone + more;
      }
      PurgedParts(old(State()), gone);
      AllPurged(old(State()), projects, defaultDays, now, gone);
      var swept := SweepOrphanFrames();
      ThereOrGone(old(State()), State(), projects, defaultDays, now, gone);
    }
  }

  // ----- What a purge means for one session -----

  /** The session is no older than the days its project keeps, by the project's own number or else
      the default; 0 or less is for ever. */
  predicate WithinItsDays(s: Session, projects: seq<Project>, defaultDays: int, now: int) {
    forall p :: p in projects && p.id == s.project ==>
      var days := if p.retentionDays > 0 then p.retentionDays else defaultDays;
      days <= 0 || now - s.startedAt <= days * 24 * 60 * 60
  }

  /** The session is of the project, and older. */
  predicate PastItsDays(s: Session, p: Project, defaultDays: int, now: int) {
    var days := if p.retentionDays > 0 then p.retentionDays else defaultDays;
    s.project == p.id && days > 0 && now - s.startedAt > days * 24 * 60 * 60
  }

  /** No older session of the project has an item dated a day ahead or more. */
  ghost predicate NothingAhead(t: Tables, p: Project, defaultDays: int, now: int) {
    forall r :: r in t.items && r.0 in t.sessions && PastItsDays(t.sessions[r.0], p, defaultDays, now)
      ==> r.1 < now + 24 * 60 * 60
  }

  /** The session is past its days, and nothing in its project stands in the way. */
  ghost predicate HasToGo(t: Tables, id: string, projects: seq<Project>, defaultDays: int, now: int) {
    id in t.sessions && exists p ::
      p in projects && PastItsDays(t.sessions[id], p, defaultDays, now) && NothingAhead(t, p, defaultDays, now)
  }

  /** The session is as it was, with its frame rows and items. */
  ghost predicate IsThere(after: Tables, before: Tables, id: string) {
    && id in before.sessions && id in after.sessions && after.sessions[id] == before.sessions[id]
    && (forall r :: r in before.rows && r.0 == id ==> r in after.rows)
    && (forall r :: r in before.items && r.0 == id ==> r in after.items)
  }

  ghost predicate IsGone(after: Tables, id: string) {
    && id !in after.sessions && (forall r :: r in after.rows ==> r.0 != id)
    && (forall r :: r in after.items ==> r.0 != id) && (forall k :: k in after.objects ==> !(SessionPrefix(id) <= k))
  }

  lemma ExpiredIsPast(p: Project, s: Session, defaultDays: int, now: int)
    ensures ExpiredFor(p, s, defaultDays, now) <==> PastItsDays(s, p, defaultDays, now)
  {
  }

  lemma ThereOrGone(
      t: Tables, after: Tables, projects: seq<Project>, defaultDays: int, now: int, gone: set<string>)
    requires gone <= Expired(t.sessions, projects, defaultDays, now)
    requires forall p :: p in projects ==> GoneUnlessHeld(t, p, defaultDays, now, gone)
    requires after.sessions == t.sessions - gone && after.rows == set r | r in t.rows && r.0 !in gone
    requires after.items == (set r | r in t.items && r.0 !in gone) && after.objects <= Spared(t.objects, gone)
    ensures forall id :: id in t.sessions && WithinItsDays(t.sessions[id], projects, defaultDays, now) ==>
      IsThere(after, t, id)
    ensures forall id :: HasToGo(t, id, projects, defaultDays, now) ==> IsGone(after, id)
  {
    hide ExpiredFor, SessionPrefix, Held;
    forall id | id in t.sessions && WithinItsDays(t.sessions[id], projects, defaultDays, now)
      ensures IsThere(after, t, id)
    {
      forall p | p in projects ensures !ExpiredFor(p, t.sessions[id], defaultDays, now) {
        ExpiredIsPast(p, t.sessions[id], defaultDays, now);
      }
    }
    forall id | HasToGo(t, id, projects, defaultDays, now) ensures IsGone(after, id) {
      var p :| p in projects
        && PastItsDays(t.sessions[id], p, defaultDays, now) && NothingAhead(t, p, defaultDays, now);
      ExpiredIsPast(p, t.sessions[id], defaultDays, now);
      NothingAheadIsNoneHeld(t, p, defaultDays, now);
      assert id in Expired(t.sessions, [p], defaultDays, now) by { assert p in [p]; }
      assert GoneUnlessHeld(t, p, defaultDays, now, gone) && id in gone;
    }
  }

  lemma NothingAheadIsNoneHeld(t: Tables, p: Project, defaultDays: int, now: int)
    requires NothingAhead(t, p, defaultDays, now)
    ensures NoneHeld(t.items, Expired(t.sessions, [p], defaultDays, now), now)
  {
    hide ExpiredFor, PastItsDays;
    forall id | id in Expired(t.sessions, [p], defaultDays, now) ensures !Held(t.items, id, now) {
      ExpiredIsPast(p, t.sessions[id], defaultDays, now);
    }
  }

  /** What is gone after the first i projects. */
  ghost predicate PurgedUpTo(t: Tables, projects: seq<Project>, i: nat, defaultDays: int, now: int, gone: set<string>)
    requires i <= |projects|
  {
    && gone <= Expired(t.sessions, projects[..i], defaultDays, now) && NoneHeld(t.items, gone, now)
    && forall j :: 0 <= j < i ==> GoneUnlessHeld(t, projects[j], defaultDays, now, gone)
  }

  lemma PurgedUpToNone(t: Tables, projects: seq<Project>, defaultDays: int, now: int)
    ensures PurgedUpTo(t, projects, 0, defaultDays, now, {})
  {
  }

  lemma PurgedOneMore(
      t: Tables, projects: seq<Project>, i: nat, defaultDays: int, now: int, gone: set<string>, more: set<string>)
    requires i < |projects| && PurgedUpTo(t, projects, i, defaultDays, now, gone)
    requires var left := Purged(t, gone);
      var ids := Expired(left.sessions, [projects[i]], defaultDays, now);
      more <= ids && NoneHeld(left.items, more, now) && (NoneHeld(left.items, ids, now) ==> more == ids)
    ensures gone !! more && PurgedUpTo(t, projects, i + 1, defaultDays, now, gone + more)
    ensures Purged(Purged(t, gone), more) == Purged(t, gone + more)
  {
    hide Spared, ExpiredFor, Expired, Purged, Held;
    var all := Expired(t.sessions, [projects[i]], defaultDays, now);
    ExpiredOneMore(t.sessions, projects, i, defaultDays, now);
    ExpiredAmongOthers(t.sessions, gone, [projects[i]], defaultDays, now);
    PurgedParts(t, gone);
    HeldAfterPurge(t, gone, all - gone, now);
    HeldAfterPurge(t, gone, more, now);
    PurgedTwice(t, gone, more);
  }

  lemma AllPurged(t: Tables, projects: seq<Project>, defaultDays: int, now: int, gone: set<string>)
    requires PurgedUpTo(t, projects, |projects|, defaultDays, now, gone)
    ensures var ids := Expired(t.sessions, projects, defaultDays, now);
      gone <= ids && NoneHeld(t.items, gone, now) && (gone == ids <==> NoneHeld(t.items, ids, now))
    ensures forall p :: p in projects ==> GoneUnlessHeld(t, p, defaultDays, now, gone)
  {
    hide Expired, Held, GoneUnlessHeld;
    assert projects[..|projects|] == projects;
    if NoneHeld(t.items, Expired(t.sessions, projects, defaultDays, now), now) {
      AllOfEach(t, projects, defaultDays, now, gone);
    }
  }

  lemma NothingLeftIsNoneHeld(items: set<(string, int)>, batch: seq<string>, now: int)
    requires forall r :: r in items && r.0 in batch ==> r.1 < now + DAY
    ensures NoneHeld(items, ToSet(batch), now)
  {
  }

  lemma SetOfOne(ids: seq<string>, i: nat)
    requires i < |ids|
    ensures ToSet(ids[i..i + 1]) == {ids[i]}
  {
  }

  /** Purging some sessions lets the items of others be. */
  lemma HeldAfterPurge(t: Tables, gone: set<string>, ids: set<string>, now: int)
    requires NoneHeld(t.items, gone, now)
    ensures NoneHeld(Purged(t, gone).items, ids, now) <==> NoneHeld(t.items, ids, now)
    ensures NoneHeld(t.items, gone + ids, now) <==> NoneHeld(t.items, ids, now)
  {
    hide Purged, Held;
    PurgedParts(t, gone);
    forall id | id in ids ensures Held(Purged(t, gone).items, id, now) <==> Held(t.items, id, now) {
      if id in gone {
        assert !Held(Purged(t, gone).items, id, now) by { NoItemsLeft(t, gone, id, now); }
      }
    }
  }

  lemma NoItemsLeft(t: Tables, gone: set<string>, id: string, now: int)
    requires id in gone
    ensures !Held(Purged(t, gone).items, id, now)
  {
  }

  lemma AllOfEach(t: Tables, projects: seq<Project>, defaultDays: int, now: int, gone: set<string>)
    requires NoneHeld(t.items, Expired(t.sessions, projects, defaultDays, now), now)
    requires forall j :: 0 <= j < |projects| ==> GoneUnlessHeld(t, projects[j], defaultDays, now, gone)
    ensures Expired(t.sessions, projects, defaultDays, now) <= gone
  {
    hide ExpiredFor, Held;
    var sessions := t.sessions;
    forall id | id in Expired(sessions, projects, defaultDays, now) ensures id in gone {
      ExpiredOfEach(sessions, projects, defaultDays, now, id);
      var p :| p in projects && id in Expired(sessions, [p], defaultDays, now);
      var j :| 0 <= j < |projects| && projects[j] == p;
      assert Expired(sessions, [projects[j]], defaultDays, now) <= Expired(sessions, projects, defaultDays, now);
    }
  }

  /** What the sweeper takes a session for: the text before the first slash of its keys. */
  function SweptAs(session: string): string {
    Head(SessionPrefix(session))
  }

  /** Which sessions' frames a sweep removes, for every session id: those taken for an absent
      session that is neither nameless nor the artifacts'. */
  lemma SweptExactly(session: string, n: nat, living: set<string>)
    ensures Orphan(FrameKey(session, n), living) <==>
      SweptAs(session) != "" && SweptAs(session) != "sourcemaps" && SweptAs(session) !in living
    ensures SlashFree(session) ==> SweptAs(session) == session
  {
    hide Pad6, IndexByte;
    var key, rest := FrameKey(session, n), Pad6(n) + ".png";
    var i := IndexByte(SessionPrefix(session), '/');
    assert session[..|session|] == session;
    assert SessionPrefix(session)[|session|] == '/';
    var head := SweptAs(session);
    assert SlashFree(head) && head == SessionPrefix(session)[..i];
    assert key == head + ['/'] + key[i + 1..];
    HeadOfPrefixed(head, key[i + 1..]);
    assert key == SessionPrefix(head) + key[i + 1..];
    SourcemapsHead(key);
    if SlashFree(session) {
      HeadOfPrefixed(session, "");
      assert SessionPrefix(session) + "" == SessionPrefix(session);
    }
  }

  /** After an undisturbed sweep every object under a slash-free session's name has its session.
      A row of a living session keeps its object exactly if its session is not taken for an absent
      one, which a session id without slashes never is. */
  lemma SweepLeavesTheLiving(sessions: set<string>, rows: set<(string, nat)>, objects: set<string>)
    requires forall r :: r in rows ==> r.0 in sessions && FrameKey(r.0, r.1) in objects
    ensures var left := set k | k in objects && !Orphan(k, sessions);
      && (forall r :: r in rows ==> (FrameKey(r.0, r.1) in left <==>
           SweptAs(r.0) == "" || SweptAs(r.0) == "sourcemaps" || SweptAs(r.0) in sessions))
      && (forall r :: r in rows && SlashFree(r.0) ==> FrameKey(r.0, r.1) in left)
      && (forall s: string, n: nat ::
           SlashFree(s) && s != "" && s != "sourcemaps" && FrameKey(s, n) in left ==> s in sessions)
  {
    hide FrameKey, Orphan, SweptAs;
    forall s: string, n: nat
      ensures Orphan(FrameKey(s, n), sessions) <==>
        SweptAs(s) != "" && SweptAs(s) != "sourcemaps" && SweptAs(s) !in sessions
      ensures SlashFree(s) ==> SweptAs(s) == s
    {
      SweptExactly(s, n, sessions);
    }
  }

  /** A session a/b dies with the absent session a. */
  lemma SlashedSessionIsSwept(a: string, b: string, n: nat, living: set<string>)
    requires SlashFree(a) && a != "" && a != "sourcemaps" && a !in living
    ensures Orphan(FrameKey(a + "/" + b, n), living)
  {
    hide Orphan, FrameKey;
    SweptExactly(a + "/" + b, n, living);
    HeadOfPrefixed(a, b + "/");
    assert SessionPrefix(a + "/" + b) == SessionPrefix(a) + (b + "/");
  }

  /** Which frames a purge and the sweep after it leave, for every session id: those that no purged
      session is above and whose session is not taken for an absent one. */
  lemma PurgeSparesFrames(objects: set<string>, ids: set<string>, living: set<string>, session: string, n: nat)
    requires FrameKey(session, n) in objects
    ensures FrameKey(session, n) in (set k | k in Spared(objects, ids) && !Orphan(k, living)) <==>
      && (forall id :: id in ids ==> !Above(id, session))
      && (SweptAs(session) == "" || SweptAs(session) == "sourcemaps" || SweptAs(session) in living)
    ensures SlashFree(session) && session in living && session !in ids ==>
      FrameKey(session, n) in (set k | k in Spared(objects, ids) && !Orphan(k, living))
  {
    hide FrameKey, SessionPrefix, Orphan, SweptAs, Above;
    SweptExactly(session, n, living);
    forall id ensures SessionPrefix(id) <= FrameKey(session, n) <==> Above(id, session) {
      PrefixSelectsFrames(id, session, n);
    }
    if SlashFree(session) {
      forall id ensures Above(id, session) <==> id == session {
        OnlyItselfAbove(id, session);
      }
    }
  }

  /** The sessions whose deletion takes uploaded maps along: they are named like a directory above
      the map. The sweeper spares the maps always. */
  lemma PurgeSparesArtifacts(objects: set<string>, ids: set<string>, living: set<string>, p: int, r: string, f: string)
    requires ArtifactKey(p, r, f) in objects
    ensures ArtifactKey(p, r, f) in (set k | k in Spared(objects, ids) && !Orphan(k, living)) <==>
      && "sourcemaps" !in ids
      && "sourcemaps/" + FormatInt(p) !in ids
      && "sourcemaps/" + FormatInt(p) + "/" + SafeSegment(r) !in ids
  {
    hide SessionPrefix, FormatInt, SafeSegment;
    var key := ArtifactKey(p, r, f);
    assert "sourcemaps/" <= key;
    forall id | id in ids
      ensures SessionPrefix(id) <= key <==>
        || id == "sourcemaps"
        || id == "sourcemaps/" + FormatInt(p)
        || id == "sourcemaps/" + FormatInt(p) + "/" + SafeSegment(r)
    {
      SessionPrefixMeetsArtifact(id, p, r, f);
    }
    hide ArtifactKey;
  }
}
