/** Replay frames live twice, as rows and as objects. Ingest writes the object before the row,
    deletion takes the row before the object, and a sweeper runs beside both
    (internal/store/ingest.go, retention.go). */
module Frames {
  import opened Blob

  /** One envelope on its way in: the frames it brings, and those whose object is stored. */
  datatype Ingest = Ingest(session: string, frames: set<nat>, stored: set<nat>)

  /** Tables and objects, the envelopes in flight, and the sessions whose prefix somebody has
      decided to delete but not deleted yet, once per deleter. */
  datatype State = State(
    sessions: set<string>, rows: set<(string, nat)>, objects: set<string>,
    ingests: map<int, Ingest>, doomed: multiset<string>)

  const EMPTY := State({}, {}, {}, map[], multiset{})

  datatype Step =
    | Begin(t: int, session: string, frames: set<nat>)  // an envelope arrives
    | StoreFrame(t: int, n: nat)                        // one object is written
    | Abandon(t: int)                                   // storing failed, or the transaction
    | Commit(t: int)                                    // rows of all frames, and the session's
    | Purge(ids: set<string>)                           // one transaction: frame rows, then session rows
    | Condemn(session: string)                          // the sweeper finds no row for the session
    | Delete(session: string, gone: set<string>, finished: bool)  // objects under the prefix go, all or some

  predicate Enabled(s: State, step: Step) {
    match step
    case Begin(t, session, frames) => t !in s.ingests && session != ""
    case StoreFrame(t, n) => t in s.ingests && n in s.ingests[t].frames
    case Abandon(t) => t in s.ingests
    case Commit(t) => t in s.ingests && s.ingests[t].stored == s.ingests[t].frames
    case Purge(ids) => ids <= s.sessions
    case Condemn(session) => session !in s.sessions
    case Delete(session, gone, finished) => session in s.doomed && forall k :: k in gone ==> SessionPrefix(session) <= k
  }

  function Apply(s: State, step: Step): State
    requires Enabled(s, step)
  {
    match step
    case Begin(t, session, frames) => s.(ingests := s.ingests[t := Ingest(session, frames, {})])
    case StoreFrame(t, n) =>
      var i := s.ingests[t];
      s.(objects := s.objects + {FrameKey(i.session, n)}, ingests := s.ingests[t := i.(stored := i.stored + {n})])
    case Abandon(t) => s.(ingests := s.ingests - {t})
    case Commit(t) =>
      var i := s.ingests[t];
      s.(sessions := s.sessions + {i.session}, rows := s.rows + (set n | n in i.frames :: (i.session, n)),
         ingests := s.ingests - {t})
    case Purge(ids) =>
      s.(sessions := s.sessions - ids, rows := (set r | r in s.rows && r.0 !in ids), doomed := s.doomed + multiset(ids))
    case Condemn(session) => s.(doomed := s.doomed + multiset{session})
    case Delete(session, gone, finished) =>
      s.(objects := s.objects - gone, doomed := if finished then s.doomed - multiset{session} else s.doomed)
  }

  /** The steps can follow each other, however they interleave. */
  predicate Possible(s: State, steps: seq<Step>)
    decreases |steps|
  {
    steps != [] ==> Enabled(s, steps[0]) && Possible(Apply(s, steps[0]), steps[1..])
  }

  function Run(s: State, steps: seq<Step>): State
    requires Possible(s, steps)
    decreases |steps|
  {
    if steps == [] then s else Run(Apply(s, steps[0]), steps[1..])
  }

  // ----- Exposure -----

  /** A frame row lies under a prefix that is marked for deletion. */
  predicate RowExposed(s: State, r: (string, nat), d: string) {
    r in s.rows && d in s.doomed && Above(d, r.0)
  }

  /** An envelope with frames is in flight under a prefix that is marked for deletion. */
  predicate IngestExposed(s: State, t: int, d: string) {
    t in s.ingests && s.ingests[t].frames != {} && d in s.doomed && Above(d, s.ingests[t].session)
  }

  ghost predicate Exposed(s: State) {
    (exists r, d :: RowExposed(s, r, d)) || (exists t, d :: IngestExposed(s, t, d))
  }

  ghost predicate NeverExposed(s: State, steps: seq<Step>)
    requires Possible(s, steps)
    decreases |steps|
  {
    !Exposed(s) && (steps != [] ==> NeverExposed(Apply(s, steps[0]), steps[1..]))
  }

  /** What the player relies on: every frame row has its object. */
  predicate RowsHaveObjects(s: State) {
    forall r :: r in s.rows ==> FrameKey(r.0, r.1) in s.objects
  }

  /** The discipline that keeps it so. */
  ghost predicate Sound(s: State) {
    && RowsHaveObjects(s)
    && (forall t :: t in s.ingests ==> s.ingests[t].stored <= s.ingests[t].frames)
    && (forall t, n :: t in s.ingests && n in s.ingests[t].stored ==> FrameKey(s.ingests[t].session, n) in s.objects)
  }

  /** A deletion takes the frames of the sessions its prefix is above, and of slash-free sessions
      its own alone. */
  lemma DeletionSpares(session: string, other: string, n: nat)
    ensures SessionPrefix(session) <= FrameKey(other, n) <==> Above(session, other)
    ensures SlashFree(other) ==> (Above(session, other) <==> session == other)
  {
    hide Above, FrameKey;
    PrefixSelectsFrames(session, other, n);
    if SlashFree(other) {
      OnlyItselfAbove(session, other);
    }
  }

  /** Whatever the session ids, a step from an unexposed state keeps every row its object. */
  lemma StepIsSound(s: State, step: Step)
    requires Sound(s) && !Exposed(s) && Enabled(s, step)
    ensures Sound(Apply(s, step))
  {
    hide FrameKey, SessionPrefix, Above;
    if step.Delete? {
      forall r | r in s.rows ensures FrameKey(r.0, r.1) !in step.gone {
        assert !RowExposed(s, r, step.session);
        DeletionSpares(step.session, r.0, r.1);
      }
      forall t, n | t in s.ingests && n in s.ingests[t].stored
        ensures FrameKey(s.ingests[t].session, n) !in step.gone
      {
        assert n in s.ingests[t].frames && !IngestExposed(s, t, step.session);
        DeletionSpares(step.session, s.ingests[t].session, n);
      }
    }
  }

  /** In every run in which nothing with frames, row or envelope, is ever under a prefix marked for
      deletion, every frame row has its object, whatever the session ids, whatever else is
      interleaved and whatever fails. */
  lemma {:induction false} UnexposedRunsAreSafe(s: State, steps: seq<Step>)
    requires Sound(s) && Possible(s, steps) && NeverExposed(s, steps)
    ensures Sound(Run(s, steps)) && RowsHaveObjects(Run(s, steps))
    decreases |steps|
  {
    hide Enabled, Apply, Sound, Exposed, RowsHaveObjects;
    if steps != [] {
      StepIsSound(s, steps[0]);
      UnexposedRunsAreSafe(Apply(s, steps[0]), steps[1..]);
    } else {
      SoundIsSafe(s);
    }
  }

  lemma SoundIsSafe(s: State)
    requires Sound(s)
    ensures RowsHaveObjects(s)
  {
  }

  // ----- What exposure costs -----

  /** The deletion of everything under a prefix, to its end. */
  function DeleteAll(s: State, d: string): Step {
    Delete(d, set k | k in s.objects && SessionPrefix(d) <= k, true)
  }

  /** An exposed row is lost as soon as the deletion comes, even with nothing in flight. */
  lemma ExposedRowIsLost(s: State, r: (string, nat), d: string)
    requires RowExposed(s, r, d)
    ensures Possible(s, [DeleteAll(s, d)]) && !RowsHaveObjects(Run(s, [DeleteAll(s, d)]))
  {
    hide FrameKey, SessionPrefix, Above;
    DeletionSpares(d, r.0, r.1);
    var delete := DeleteAll(s, d);
    var after := Apply(s, delete);
    assert [delete][1..] == [];
    assert Possible(after, []) && Run(after, []) == after;
    assert r in after.rows && FrameKey(r.0, r.1) !in after.objects;
  }

  /** Deletion and commit of an envelope whose frames are all stored, in either order. */
  lemma StoredFramesAreLost(s: State, t: int, d: string, deleteFirst: bool)
    requires IngestExposed(s, t, d) && s.ingests[t].stored == s.ingests[t].frames
    ensures var delete := DeleteAll(s, d);
      var steps := if deleteFirst then [delete, Commit(t)] else [Commit(t), delete];
      Possible(s, steps) && !RowsHaveObjects(Run(s, steps))
  {
    hide FrameKey, SessionPrefix, Above, Possible, Run;
    var session := s.ingests[t].session;
    var n :| n in s.ingests[t].frames;
    var key := FrameKey(session, n);
    DeletionSpares(d, session, n);
    var delete, commit := DeleteAll(s, d), Commit(t);
    if deleteFirst {
      TwoSteps(s, delete, commit);
      var after := Apply(Apply(s, delete), commit);
      assert (session, n) in after.rows && key !in after.objects;
    } else {
      TwoSteps(s, commit, delete);
      var after := Apply(Apply(s, commit), delete);
      assert (session, n) in after.rows && key !in after.objects;
    }
  }

  lemma TwoSteps(s: State, one: Step, two: Step)
    requires Enabled(s, one) && Enabled(Apply(s, one), two)
    ensures Possible(s, [one, two]) && Run(s, [one, two]) == Apply(Apply(s, one), two)
  {
    hide Enabled, Apply;
    assert [one, two][1..] == [two] && [two][1..] == [];
    var s2 := Apply(Apply(s, one), two);
    assert Possible(s2, []) && Run(s2, []) == s2;
    assert Possible(Apply(s, one), [two]) && Run(Apply(s, one), [two]) == s2;
  }

  /** What carries on with work in flight and takes up none. */
  predicate Settles(step: Step) {
    step.StoreFrame? || step.Abandon? || step.Commit? || step.Delete?
  }

  predicate AllSettle(steps: seq<Step>) {
    forall i :: 0 <= i < |steps| ==> Settles(steps[i])
  }

  /** From every state with an envelope exposed, however few of its frames are stored, it can go on
      to its end and leave rows without objects, with the deletion before the commit as well as
      after it. */
  lemma {:induction false} OverlapLosesFrames(s: State, t: int, d: string, deleteFirst: bool) returns (steps: seq<Step>)
    requires IngestExposed(s, t, d) && s.ingests[t].stored <= s.ingests[t].frames
    ensures Possible(s, steps) && AllSettle(steps) && !RowsHaveObjects(Run(s, steps))
    decreases s.ingests[t].frames - s.ingests[t].stored
  {
    hide RowsHaveObjects, Above;
    var i := s.ingests[t];
    if i.stored == i.frames {
      StoredFramesAreLost(s, t, d, deleteFirst);
      var delete := DeleteAll(s, d);
      steps := if deleteFirst then [delete, Commit(t)] else [Commit(t), delete];
    } else {
      var n :| n in i.frames && n !in i.stored;
      var next := Apply(s, StoreFrame(t, n));
      var rest := OverlapLosesFrames(next, t, d, deleteFirst);
      steps := [StoreFrame(t, n)] + rest;
      assert steps[1..] == rest;
    }
  }

  lemma SettlingKeepsUnexposed(s: State, step: Step)
    requires !Exposed(s) && Enabled(s, step) && Settles(step)
    ensures !Exposed(Apply(s, step))
  {
    hide Above;
    var after := Apply(s, step);
    forall r, d ensures !RowExposed(after, r, d) {
      assert !RowExposed(s, r, d);
      if step.Commit? {
        assert !IngestExposed(s, step.t, d);
      }
    }
    forall t, d ensures !IngestExposed(after, t, d) {
      assert !IngestExposed(s, t, d);
    }
  }

  lemma {:induction false} SettlingIsSafe(s: State, steps: seq<Step>)
    requires Sound(s) && !Exposed(s) && Possible(s, steps) && AllSettle(steps)
    ensures RowsHaveObjects(Run(s, steps))
    decreases |steps|
  {
    hide Enabled, Apply, Sound, Exposed, RowsHaveObjects, Settles;
    if steps != [] {
      StepIsSound(s, steps[0]);
      SettlingKeepsUnexposed(s, steps[0]);
      SettlingIsSafe(Apply(s, steps[0]), steps[1..]);
    } else {
      SoundIsSafe(s);
    }
  }

  /** Exposure is exactly what breaks it: whatever is in flight can be carried to its end in every
      order without losing a frame if and only if nothing with frames is under a prefix marked for
      deletion. */
  lemma ExposureIsExact(s: State)
    requires Sound(s)
    ensures !Exposed(s) <==> forall steps :: Possible(s, steps) && AllSettle(steps) ==> RowsHaveObjects(Run(s, steps))
  {
    hide Possible, Run, AllSettle, RowExposed, IngestExposed, RowsHaveObjects, DeleteAll;
    if !Exposed(s) {
      forall steps | Possible(s, steps) && AllSettle(steps) ensures RowsHaveObjects(Run(s, steps)) {
        SettlingIsSafe(s, steps);
      }
    } else if r, d :| RowExposed(s, r, d) {
      ExposedRowIsLost(s, r, d);
      assert AllSettle([DeleteAll(s, d)]) by { DeletionSettles(s, d); }
    } else {
      var t, d :| IngestExposed(s, t, d);
      assert t in s.ingests by { ExposedIsInFlight(s, t, d); }
      var steps := OverlapLosesFrames(s, t, d, true);
    }
  }

  lemma DeletionSettles(s: State, d: string)
    ensures AllSettle([DeleteAll(s, d)])
  {
  }

  lemma ExposedIsInFlight(s: State, t: int, d: string)
    requires IngestExposed(s, t, d)
    ensures t in s.ingests
  {
  }

  // ----- Session ids without slashes -----

  /** Some envelope with frames of a session is in flight while that session's own prefix is marked
      for deletion. */
  ghost predicate Overlap(s: State) {
    exists t :: Overlaps(s, t)
  }

  predicate Overlaps(s: State, t: int) {
    t in s.ingests && s.ingests[t].frames != {} && s.ingests[t].session in s.doomed
  }

  /** A run in which that never happens, with session ids free of slashes. */
  ghost predicate Orderly(s: State, steps: seq<Step>)
    requires Possible(s, steps)
    decreases |steps|
  {
    && !Overlap(s)
    && (steps != [] ==>
         && (steps[0].Begin? ==> SlashFree(steps[0].session))
         && Orderly(Apply(s, steps[0]), steps[1..]))
  }

  /** Sessions with rows are there, not marked, and all ids are free of slashes. */
  predicate Tidy(s: State) {
    && (forall r :: r in s.rows ==> r.0 in s.sessions && r.0 !in s.doomed && SlashFree(r.0))
    && (forall t :: t in s.ingests ==> SlashFree(s.ingests[t].session))
  }

  lemma TidyIsUnexposed(s: State)
    requires Tidy(s) && !Overlap(s)
    ensures !Exposed(s)
  {
    hide SlashFree, Above;
    forall r, d ensures !RowExposed(s, r, d) {
      if r in s.rows {
        OnlyItselfAbove(d, r.0);
      }
    }
    forall t, d ensures !IngestExposed(s, t, d) {
      if t in s.ingests {
        OnlyItselfAbove(d, s.ingests[t].session);
        assert !Overlaps(s, t);
      }
    }
  }

  lemma StepIsTidy(s: State, step: Step)
    requires Tidy(s) && !Overlap(s) && Enabled(s, step) && (step.Begin? ==> SlashFree(step.session))
    ensures Tidy(Apply(s, step))
  {
    hide SlashFree, SessionPrefix;
    var after := Apply(s, step);
    if step.Commit? {
      var i := s.ingests[step.t];
      assert i.frames != {} ==> i.session !in s.doomed by { assert !Overlaps(s, step.t); }
      forall r | r in after.rows ensures r.0 in after.sessions && r.0 !in after.doomed && SlashFree(r.0) {
        if r !in s.rows {
          assert r.1 in i.frames;
        }
      }
    }
  }

  /** Without slashes in session ids, keeping each session's envelopes and deletions apart is
      enough: then nothing is ever exposed. */
  lemma {:induction false} OrderlyRunsAreSafe(s: State, steps: seq<Step>)
    requires Sound(s) && Tidy(s) && Possible(s, steps) && Orderly(s, steps)
    ensures NeverExposed(s, steps) && RowsHaveObjects(Run(s, steps))
    decreases |steps|
  {
    hide Enabled, Apply, Sound, Tidy, Overlap, Exposed;
    TidyIsUnexposed(s);
    if steps != [] {
      StepIsSound(s, steps[0]);
      StepIsTidy(s, steps[0]);
      OrderlyRunsAreSafe(Apply(s, steps[0]), steps[1..]);
    } else {
      assert RowsHaveObjects(s) by { SoundIsSafe(s); }
    }
  }

  lemma OrderlyFromNothing(steps: seq<Step>)
    requires Possible(EMPTY, steps) && Orderly(EMPTY, steps)
    ensures RowsHaveObjects(Run(EMPTY, steps))
  {
    OrderlyRunsAreSafe(EMPTY, steps);
  }

  // ----- Two runs that lose frames -----

  /** With slashes nothing needs to be in flight: sessions a and a/b, a is purged, and its deletion
      takes the frames of a/b, which lives on with its rows. */
  lemma SlashedSessionIsExposed(a: string, b: string, n: nat)
    ensures var session := a + "/" + b;
      var s := State({a, session}, {(session, n)}, {FrameKey(session, n)}, map[], multiset{});
      var purge, delete := Purge({a}), Delete(a, {FrameKey(session, n)}, true);
      && Sound(s) && !Exposed(s) && Possible(s, [purge, delete])
      && !Overlap(s) && !Overlap(Apply(s, purge))
      && Exposed(Apply(s, purge)) && !RowsHaveObjects(Run(s, [purge, delete]))
      && session in Run(s, [purge, delete]).sessions
  {
    hide FrameKey;
    var session := a + "/" + b;
    var s := State({a, session}, {(session, n)}, {FrameKey(session, n)}, map[], multiset{});
    var purge, delete := Purge({a}), Delete(a, {FrameKey(session, n)}, true);
    assert session != a by { assert |session| > |a|; }
    assert SessionPrefix(session) == SessionPrefix(a) + (b + "/");
    DeletionSpares(a, session, n);
    var s1 := Apply(s, purge);
    assert a in multiset({a}) && RowExposed(s1, (session, n), a);
    TwoSteps(s, purge, delete);
    var s2 := Apply(s1, delete);
    assert (session, n) in s2.rows;
  }

  /** The race of sweep and ingest: a new session's first frame is stored, the sweeper finds no
      session row, the envelope commits, and the sweeper deletes what it decided to. */
  lemma SweepRacesIngest()
    ensures var s1 := Apply(EMPTY, Begin(1, "s", {1}));
      var s2 := Apply(s1, StoreFrame(1, 1));
      && Enabled(s2, Condemn("s"))
      && var s3 := Apply(s2, Condemn("s"));
        var s4 := Apply(s3, Commit(1));
        var delete := Delete("s", {FrameKey("s", 1)}, true);
        && Enabled(s4, delete) && Overlap(s3)
        && !RowsHaveObjects(Apply(s4, delete)) && Apply(s4, delete).sessions == {"s"}
  {
    var s3 := Apply(Apply(Apply(EMPTY, Begin(1, "s", {1})), StoreFrame(1, 1)), Condemn("s"));
    assert Overlaps(s3, 1);
    var s4 := Apply(s3, Commit(1));
    assert FrameKey("s", 1) == SessionPrefix("s") + (Pad6(1) + ".png");
    var s5 := Apply(s4, Delete("s", {FrameKey("s", 1)}, true));
    assert ("s", 1) in s5.rows;
  }
}
