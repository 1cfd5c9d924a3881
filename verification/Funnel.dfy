/** Conversion funnels (internal/store/funnels.go): the greedy matcher, its optimality, and the
    two scans that must agree with each other. */
module Funnel {
  import opened Common

  /** A row of the events query, which orders by session and then by time. */
  datatype Row = Row(session: string, name: string, ts: int)

  datatype Event = Event(name: string, ts: int)

  /** How far a session has come: the step it waits for, the time of its first step and of the
      last one it made. */
  datatype Progress = Progress(current: nat, t0: int, last: int)

  function Advance(steps: seq<string>, window: int, p: Progress, ev: Event): Progress {
    if p.current >= |steps| || ev.name != steps[p.current] then p
    else if p.current == 0 then Progress(1, ev.ts, ev.ts)
    else if ev.ts >= p.last && ev.ts - p.t0 <= window then Progress(p.current + 1, p.t0, ev.ts)
    else p
  }

  function Scan(steps: seq<string>, window: int, events: seq<Event>): (p: Progress)
    ensures p.current <= |steps|
  {
    if events == [] then Progress(0, 0, 0)
    else Advance(steps, window, Scan(steps, window, events[..|events| - 1]), events[|events| - 1])
  }

  lemma {:induction false} ScanStaysDone(steps: seq<string>, window: int, events: seq<Event>, i: nat)
    requires i <= |events| && Scan(steps, window, events[..i]).current == |steps|
    ensures Scan(steps, window, events) == Scan(steps, window, events[..i])
  {
    var n := |events|;
    if i < n {
      assert events[..n - 1][..i] == events[..i];
      ScanStaysDone(steps, window, events[..n - 1], i);
    } else {
      assert events[..i] == events;
    }
  }

  lemma ScanSnoc(steps: seq<string>, window: int, events: seq<Event>, i: nat)
    requires i < |events|
    ensures Scan(steps, window, events[..i + 1]) == Advance(steps, window, Scan(steps, window, events[..i]), events[i])
  {
    assert events[..i + 1][..i] == events[..i];
  }

  /** The loop over one session's events, as CalculateFunnelResults has it. */
  method MatchForResults(steps: seq<string>, window: int, events: seq<Event>)
    returns (reachedStep: int, t0: int, lastTime: int)
    ensures reachedStep >= -1 && Progress(reachedStep + 1, t0, lastTime) == Scan(steps, window, events)
  {
    reachedStep := -1;
    t0, lastTime := 0, 0;
    var currentStep := 0;
    assert events[..0] == [];
    var i := 0;
    while i < |events|
      invariant i <= |events| && reachedStep == currentStep - 1
      invariant Progress(currentStep, t0, lastTime) == Scan(steps, window, events[..i])
    {
      if currentStep >= |steps| {
        ScanStaysDone(steps, window, events, i);
        return;
      }
      var ev := events[i];
      ScanSnoc(steps, window, events, i);
      if ev.name == steps[currentStep] {
        if currentStep == 0 {
          t0 := ev.ts;
          lastTime := ev.ts;
          reachedStep := 0;
          currentStep := currentStep + 1;
        } else if (ev.ts > lastTime || ev.ts == lastTime) && ev.ts - t0 <= window {
          lastTime := ev.ts;
          reachedStep := currentStep;
          currentStep := currentStep + 1;
        }
      }
      i := i + 1;
    }
    assert events[..i] == events;
  }

  // ----- Optimality -----

  /** The chosen events walk through the first |chosen| steps of the funnel, from the session's
      first occurrence of step 0 and within the window of that start. */
  predicate Walks(steps: seq<string>, window: int, events: seq<Event>, chosen: seq<nat>) {
    && |chosen| <= |steps|
    && (forall k :: 0 <= k < |chosen| ==> chosen[k] < |events| && events[chosen[k]].name == steps[k])
    && (forall k :: 0 < k < |chosen| ==> chosen[k - 1] < chosen[k])
    && (chosen != [] ==>
         && (forall e :: 0 <= e < chosen[0] ==> events[e].name != steps[0])
         && (forall k :: 0 <= k < |chosen| ==> events[chosen[k]].ts - events[chosen[0]].ts <= window))
  }

  predicate InTimeOrder(events: seq<Event>) {
    forall i, j :: 0 <= i < j < |events| ==> events[i].ts <= events[j].ts
  }

  /** The events the greedy scan stops at. */
  function Stops(steps: seq<string>, window: int, events: seq<Event>): (s: seq<nat>) {
    if events == [] then [] else
      var n := |events| - 1;
      var before := Scan(steps, window, events[..n]);
      var rest := Stops(steps, window, events[..n]);
      if Scan(steps, window, events).current > before.current then rest + [n] else rest
  }

  /** A walk in the events before the last one is a walk in all of them, and the other way round
      if it does not use the last one. */
  lemma WalkIsLocal(steps: seq<string>, window: int, events: seq<Event>, chosen: seq<nat>)
    requires events != []
    ensures Walks(steps, window, events[..|events| - 1], chosen) ==> Walks(steps, window, events, chosen)
    ensures Walks(steps, window, events, chosen) && (forall k :: 0 <= k < |chosen| ==> chosen[k] < |events| - 1)
      ==> Walks(steps, window, events[..|events| - 1], chosen)
  {
    var n := |events| - 1;
    assert forall e :: 0 <= e < n ==> events[..n][e] == events[e];
  }

  /** What the scan has remembered is its stops: when it started and when it last moved. */
  predicate Remembers(steps: seq<string>, events: seq<Event>, s: seq<nat>, p: Progress) {
    && |s| == p.current
    && (s != [] ==>
         && s[0] < |events| && p.t0 == events[s[0]].ts
         && s[|s| - 1] < |events| && p.last == events[s[|s| - 1]].ts)
    && (s == [] && steps != [] ==> forall e :: 0 <= e < |events| ==> events[e].name != steps[0])
  }

  lemma RemembersMore(steps: seq<string>, window: int, events: seq<Event>, rest: seq<nat>, before: Progress)
    requires events != [] && Remembers(steps, events[..|events| - 1], rest, before)
    ensures var n := |events| - 1;
      var p := Advance(steps, window, before, events[n]);
      Remembers(steps, events, if p.current > before.current then rest + [n] else rest, p)
  {
    var n := |events| - 1;
    assert forall e :: 0 <= e < n ==> events[..n][e] == events[e];
  }

  lemma {:induction false} StopsWalk(steps: seq<string>, window: int, events: seq<Event>)
    requires window >= 0
    ensures Walks(steps, window, events, Stops(steps, window, events))
    ensures Remembers(steps, events, Stops(steps, window, events), Scan(steps, window, events))
  {
    if events != [] {
      hide Walks;
      var n := |events| - 1;
      var rest, before := Stops(steps, window, events[..n]), Scan(steps, window, events[..n]);
      StopsWalk(steps, window, events[..n]);
      WalkIsLocal(steps, window, events, rest);
      RemembersMore(steps, window, events, rest, before);
      if Scan(steps, window, events).current > before.current {
        assert rest != [] ==> events[..n][rest[0]] == events[rest[0]];
        WalkOn(steps, window, events, rest);
      }
    }
  }

  /** Making the next step keeps a walk a walk. */
  lemma WalkOn(steps: seq<string>, window: int, events: seq<Event>, rest: seq<nat>)
    requires events != [] && window >= 0
    requires var n := |events| - 1;
      && Walks(steps, window, events[..n], rest) && |rest| < |steps| && events[n].name == steps[|rest|]
      && (rest != [] ==> rest[0] < n && events[n].ts - events[rest[0]].ts <= window)
      && (rest == [] ==> forall e :: 0 <= e < n ==> events[..n][e].name != steps[0])
    ensures Walks(steps, window, events, rest + [|events| - 1])
  {
    var n := |events| - 1;
    assert forall e :: 0 <= e < n ==> events[..n][e] == events[e];
  }

  lemma {:induction false} NoWalkIsLonger(steps: seq<string>, window: int, events: seq<Event>, chosen: seq<nat>)
    requires InTimeOrder(events) && window >= 0 && Walks(steps, window, events, chosen)
    ensures |chosen| <= Scan(steps, window, events).current
  {
    hide Walks, Scan, InTimeOrder;
    if chosen != [] {
      LastChosen(steps, window, events, chosen);
      var n, m := |events| - 1, |chosen| - 1;
      var head := events[..n];
      ChosenIsIncreasing(steps, window, events, chosen, m);
      ScanGrows(steps, window, events);
      HeadInTimeOrder(events, n);
      if chosen[m] < n {
        WalkIsLocal(steps, window, events, chosen);
        NoWalkIsLonger(steps, window, head, chosen);
      } else {
        WalkLess(steps, window, events, chosen, m);
        WalkIsLocal(steps, window, events, chosen[..m]);
        NoWalkIsLonger(steps, window, head, chosen[..m]);
        if Scan(steps, window, head).current == m {
          NextIsTaken(steps, window, events, chosen);
        }
      }
    }
  }

  lemma HeadInTimeOrder(events: seq<Event>, n: nat)
    requires InTimeOrder(events) && n <= |events|
    ensures InTimeOrder(events[..n])
  {
  }

  lemma ScanGrows(steps: seq<string>, window: int, events: seq<Event>)
    requires events != []
    ensures Scan(steps, window, events[..|events| - 1]).current <= Scan(steps, window, events).current
  {
  }

  /** If the last event lets some walk make a step the scan was waiting for, the scan makes it. */
  lemma NextIsTaken(steps: seq<string>, window: int, events: seq<Event>, chosen: seq<nat>)
    requires InTimeOrder(events) && window >= 0 && Walks(steps, window, events, chosen)
    requires chosen != [] && chosen[|chosen| - 1] == |events| - 1
    requires Scan(steps, window, events[..|events| - 1]).current == |chosen| - 1
    requires forall k :: 0 <= k < |chosen| - 1 ==> chosen[k] < |events| - 1
    ensures Scan(steps, window, events).current == |chosen|
  {
    var n, m := |events| - 1, |chosen| - 1;
    var s := Stops(steps, window, events[..n]);
    StopsWalk(steps, window, events[..n]);
    if m > 0 {
      assert events[..n][s[0]] == events[s[0]] && events[..n][chosen[0]] == events[chosen[0]];
      assert s[0] == chosen[0];
      assert events[..n][s[m - 1]] == events[s[m - 1]];
      assert events[s[m - 1]].ts <= events[n].ts;
    }
  }

  lemma WalkLess(steps: seq<string>, window: int, events: seq<Event>, chosen: seq<nat>, m: nat)
    requires Walks(steps, window, events, chosen) && m <= |chosen|
    ensures Walks(steps, window, events, chosen[..m])
  {
  }

  lemma LastChosen(steps: seq<string>, window: int, events: seq<Event>, chosen: seq<nat>)
    requires Walks(steps, window, events, chosen) && chosen != []
    ensures chosen[|chosen| - 1] < |events|
  {
  }

  lemma {:induction false} ChosenIsIncreasing(steps: seq<string>, window: int, events: seq<Event>, chosen: seq<nat>,
          m: nat)
    requires Walks(steps, window, events, chosen) && m < |chosen|
    ensures forall k :: 0 <= k < m ==> chosen[k] < chosen[m]
  {
    if m > 0 {
      ChosenIsIncreasing(steps, window, events, chosen, m - 1);
    }
  }

  /** Greedy is optimal: a session can walk through the first m steps of the funnel if and only if
      the scan reaches that far, repeated step names included. */
  lemma GreedyIsOptimal(steps: seq<string>, window: int, events: seq<Event>, m: nat)
    requires InTimeOrder(events) && window >= 0
    ensures m <= Scan(steps, window, events).current <==>
      exists chosen :: |chosen| == m && Walks(steps, window, events, chosen)
  {
    if m <= Scan(steps, window, events).current {
      StopsWalk(steps, window, events);
      var chosen := Stops(steps, window, events)[..m];
      assert |chosen| == m && Walks(steps, window, events, chosen);
    }
    forall chosen | |chosen| == m && Walks(steps, window, events, chosen)
      ensures m <= Scan(steps, window, events).current
    {
      NoWalkIsLonger(steps, window, events, chosen);
    }
  }

  lemma {:induction false} StopsAt(steps: seq<string>, window: int, events: seq<Event>, k: nat)
    requires k < |Stops(steps, window, events)|
    ensures Stops(steps, window, events)[k] < |events|
    ensures Scan(steps, window, events[..Stops(steps, window, events)[k]]).current == k
  {
    var n := |events| - 1;
    var rest := Stops(steps, window, events[..n]);
    if k < |rest| {
      StopsAt(steps, window, events[..n], k);
      assert events[..n][..rest[k]] == events[..rest[k]];
    } else {
      StopsCount(steps, window, events[..n]);
    }
  }

  lemma {:induction false} StopsCount(steps: seq<string>, window: int, events: seq<Event>)
    ensures |Stops(steps, window, events)| == Scan(steps, window, events).current
  {
    if events != [] {
      StopsCount(steps, window, events[..|events| - 1]);
    }
  }

  /** Of all walks as long as the scan gets, its own starts where they all do and ends first. */
  lemma ScanEndsFirst(steps: seq<string>, window: int, events: seq<Event>, chosen: seq<nat>)
    requires InTimeOrder(events) && window >= 0 && Walks(steps, window, events, chosen)
    requires chosen != [] && |chosen| == Scan(steps, window, events).current
    ensures var s, m := Stops(steps, window, events), |chosen| - 1;
      && |s| == |chosen| && Walks(steps, window, events, s) && s[0] == chosen[0] && s[m] <= chosen[m]
      && Remembers(steps, events, s, Scan(steps, window, events))
  {
    StopsCount(steps, window, events);
    StopsWalk(steps, window, events);
    hide Scan, Stops, Remembers;
    SameStart(steps, window, events, Stops(steps, window, events), chosen);
    NoEarlierEnd(steps, window, events, chosen);
  }

  lemma SameStart(steps: seq<string>, window: int, events: seq<Event>, s: seq<nat>, t: seq<nat>)
    requires Walks(steps, window, events, s) && Walks(steps, window, events, t) && s != [] && t != []
    ensures s[0] == t[0]
  {
    assert events[s[0]].name == steps[0] == events[t[0]].name;
  }

  lemma NoEarlierEnd(steps: seq<string>, window: int, events: seq<Event>, chosen: seq<nat>)
    requires InTimeOrder(events) && window >= 0 && Walks(steps, window, events, chosen) && chosen != []
    requires |Stops(steps, window, events)| == |chosen|
    ensures Stops(steps, window, events)[|chosen| - 1] <= chosen[|chosen| - 1]
  {
    var s, m := Stops(steps, window, events), |chosen| - 1;
    if chosen[m] < s[m] {
      ChosenIsIncreasing(steps, window, events, chosen, m);
      hide Scan, Stops, InTimeOrder;
      StopsAt(steps, window, events, m);
      WalkInFront(steps, window, events, chosen, s[m]);
      HeadInTimeOrder(events, s[m]);
      NoWalkIsLonger(steps, window, events[..s[m]], chosen);
    }
  }

  lemma WalkInFront(steps: seq<string>, window: int, events: seq<Event>, chosen: seq<nat>, n: nat)
    requires Walks(steps, window, events, chosen) && n <= |events| && forall k :: 0 <= k < |chosen| ==> chosen[k] < n
    ensures Walks(steps, window, events[..n], chosen)
  {
    assert forall e :: 0 <= e < n ==> events[..n][e] == events[e];
  }

  // ----- Sessions -----

  /** The events of one session that carry a name of the funnel. */
  function EventsOf(rows: seq<Row>, steps: seq<string>, session: string): seq<Event> {
    if rows == [] then [] else
      var row := rows[|rows| - 1];
      var before := EventsOf(rows[..|rows| - 1], steps, session);
      if row.session == session && row.name in steps then before + [Event(row.name, row.ts)] else before
  }

  /** All events of one session, of the funnel or not. */
  function AllEventsOf(rows: seq<Row>, session: string): seq<Event> {
    if rows == [] then [] else
      var row := rows[|rows| - 1];
      var before := AllEventsOf(rows[..|rows| - 1], session);
      if row.session == session then before + [Event(row.name, row.ts)] else before
  }

  /** Leaving out the names that are no step changes nothing. */
  lemma {:induction false} OtherNamesDoNotMatter(rows: seq<Row>, steps: seq<string>, window: int, session: string)
    ensures Scan(steps, window, EventsOf(rows, steps, session)) == Scan(steps, window, AllEventsOf(rows, session))
  {
    if rows != [] {
      var row := rows[|rows| - 1];
      var head := rows[..|rows| - 1];
      OtherNamesDoNotMatter(head, steps, window, session);
      var few, all := EventsOf(head, steps, session), AllEventsOf(head, session);
      var ev := Event(row.name, row.ts);
      assert (few + [ev])[..|few|] == few && (all + [ev])[..|all|] == all;
    }
  }

  /** ORDER BY session_id, ts ASC, as far as it matters: one session's rows come in time order. */
  predicate Ordered(rows: seq<Row>) {
    forall i, j :: 0 <= i < j < |rows| && rows[i].session == rows[j].session ==> rows[i].ts <= rows[j].ts
  }

  lemma {:induction false} EventsComeFromRows(rows: seq<Row>, session: string)
    ensures forall e :: e in AllEventsOf(rows, session) ==>
      exists i :: 0 <= i < |rows| && rows[i].session == session && rows[i].ts == e.ts
  {
    if rows != [] {
      var head := rows[..|rows| - 1];
      EventsComeFromRows(head, session);
      forall e | e in AllEventsOf(rows, session)
        ensures exists i :: 0 <= i < |rows| && rows[i].session == session && rows[i].ts == e.ts
      {
        if e in AllEventsOf(head, session) {
          var i :| 0 <= i < |head| && head[i].session == session && head[i].ts == e.ts;
          assert rows[i] == head[i];
        } else {
          assert rows[|rows| - 1].session == session && rows[|rows| - 1].ts == e.ts;
        }
      }
    }
  }

  lemma {:induction false} OrderedRowsGiveOrderedEvents(rows: seq<Row>, session: string)
    requires Ordered(rows)
    ensures InTimeOrder(AllEventsOf(rows, session))
  {
    if rows != [] {
      var head := rows[..|rows| - 1];
      OrderedRowsGiveOrderedEvents(head, session);
      EventsComeFromRows(head, session);
      if rows[|rows| - 1].session == session {
        forall e | e in AllEventsOf(head, session) ensures e.ts <= rows[|rows| - 1].ts {
          var i :| 0 <= i < |head| && head[i].session == session && head[i].ts == e.ts;
          assert rows[i] == head[i];
        }
      }
    }
  }

  /** How many steps a session has made. */
  function Made(rows: seq<Row>, steps: seq<string>, window: int, session: string): (m: nat)
    ensures m <= |steps|
  {
    Scan(steps, window, EventsOf(rows, steps, session)).current
  }

  /** A session counts for step i exactly if some of its events, in increasing order, make the
      steps 0..i within the window of its first step 0. */
  lemma MadeIsOptimal(rows: seq<Row>, steps: seq<string>, window: int, session: string, m: nat)
    requires Ordered(rows) && window >= 0
    ensures m <= Made(rows, steps, window, session) <==>
      exists chosen :: |chosen| == m && Walks(steps, window, AllEventsOf(rows, session), chosen)
  {
    OtherNamesDoNotMatter(rows, steps, window, session);
    OrderedRowsGiveOrderedEvents(rows, session);
    GreedyIsOptimal(steps, window, AllEventsOf(rows, session), m);
  }

  // ----- The same over rows -----

  /** Rows of the session, in increasing order, make the first |chosen| steps of the funnel, from its
      first row that carries step 0 and within the window of that start. */
  predicate RowsMake(rows: seq<Row>, steps: seq<string>, window: int, session: string, chosen: seq<nat>) {
    && |chosen| <= |steps|
    && (forall k :: 0 <= k < |chosen| ==>
         chosen[k] < |rows| && rows[chosen[k]].session == session && rows[chosen[k]].name == steps[k])
    && (forall k :: 0 < k < |chosen| ==> chosen[k - 1] < chosen[k])
    && (chosen != [] ==>
         && (forall r :: 0 <= r < chosen[0] && rows[r].session == session ==> rows[r].name != steps[0])
         && (forall k :: 0 <= k < |chosen| ==> rows[chosen[k]].ts - rows[chosen[0]].ts <= window))
  }

  /** The rows of one session. */
  function Places(rows: seq<Row>, session: string): seq<nat> {
    if rows == [] then [] else
      var n := |rows| - 1;
      if rows[n].session == session then Places(rows[..n], session) + [n] else Places(rows[..n], session)
  }

  predicate ArePlaces(rows: seq<Row>, session: string, ps: seq<nat>, es: seq<Event>) {
    && |ps| == |es|
    && (forall k :: 0 <= k < |ps| ==> ps[k] < |rows| && rows[ps[k]].session == session)
    && (forall k :: 0 <= k < |ps| ==> es[k] == Event(rows[ps[k]].name, rows[ps[k]].ts))
    && (forall j, k :: 0 <= j < k < |ps| ==> ps[j] < ps[k])
    && (forall r :: 0 <= r < |rows| && rows[r].session == session ==> r in ps)
  }

  lemma {:induction false} PlacesAre(rows: seq<Row>, session: string)
    ensures ArePlaces(rows, session, Places(rows, session), AllEventsOf(rows, session))
  {
    if rows != [] {
      var n := |rows| - 1;
      PlacesAre(rows[..n], session);
      PlacesSnoc(rows, session, Places(rows[..n], session), AllEventsOf(rows[..n], session));
    }
  }

  lemma PlacesSnoc(rows: seq<Row>, session: string, ps: seq<nat>, es: seq<Event>)
    requires rows != [] && ArePlaces(rows[..|rows| - 1], session, ps, es)
    ensures var n := |rows| - 1;
      if rows[n].session == session then ArePlaces(rows, session, ps + [n], es + [Event(rows[n].name, rows[n].ts)])
      else ArePlaces(rows, session, ps, es)
  {
    assert forall r :: 0 <= r < |rows| - 1 ==> rows[..|rows| - 1][r] == rows[r];
  }

  /** A walk over a session's events, as rows. */
  function Placed(ps: seq<nat>, chosen: seq<nat>): (r: seq<nat>)
    requires forall k :: 0 <= k < |chosen| ==> chosen[k] < |ps|
    ensures |r| == |chosen| && forall k :: 0 <= k < |chosen| ==> r[k] == ps[chosen[k]]
  {
    seq(|chosen|, k requires 0 <= k < |chosen| => ps[chosen[k]])
  }

  lemma WalkOverRows(rows: seq<Row>, steps: seq<string>, window: int, session: string, chosen: seq<nat>)
    requires forall k :: 0 <= k < |chosen| ==> chosen[k] < |Places(rows, session)|
    ensures Walks(steps, window, AllEventsOf(rows, session), chosen) <==>
      RowsMake(rows, steps, window, session, Placed(Places(rows, session), chosen))
  {
    hide Places, AllEventsOf, ArePlaces, Placed, Walks, RowsMake;
    PlacesAre(rows, session);
    WalkOverPlaces(rows, steps, window, session, Places(rows, session), AllEventsOf(rows, session), chosen);
  }

  lemma PlacedMeans(rows: seq<Row>, session: string, ps: seq<nat>, es: seq<Event>, chosen: seq<nat>)
    requires ArePlaces(rows, session, ps, es) && forall k :: 0 <= k < |chosen| ==> chosen[k] < |ps|
    ensures var placed := Placed(ps, chosen);
      && |placed| == |chosen| && |es| == |ps|
      && (forall k :: 0 <= k < |placed| ==> placed[k] < |rows| && rows[placed[k]].session == session)
      && (forall k :: 0 <= k < |placed| ==> es[chosen[k]] == Event(rows[placed[k]].name, rows[placed[k]].ts))
      && (forall k :: 0 < k < |placed| ==> (chosen[k - 1] < chosen[k] <==> placed[k - 1] < placed[k]))
  {
    var placed := Placed(ps, chosen);
    forall k | 0 < k < |placed| ensures chosen[k - 1] < chosen[k] <==> placed[k - 1] < placed[k] {
      assert placed[k - 1] == ps[chosen[k - 1]] && placed[k] == ps[chosen[k]];
    }
  }

  lemma WalkOverPlaces(
      rows: seq<Row>, steps: seq<string>, window: int, session: string, ps: seq<nat>, es: seq<Event>, chosen: seq<nat>)
    requires ArePlaces(rows, session, ps, es) && forall k :: 0 <= k < |chosen| ==> chosen[k] < |ps|
    ensures Walks(steps, window, es, chosen) <==> RowsMake(rows, steps, window, session, Placed(ps, chosen))
  {
    PlacedMeans(rows, session, ps, es, chosen);
    if chosen != [] && steps != [] {
      FirstRow(rows, session, ps, es, chosen[0], steps[0]);
    }
    hide ArePlaces;
    var placed := Placed(ps, chosen);
    assert chosen != [] ==> placed[0] == ps[chosen[0]];
    if |chosen| <= |steps| {
      assert Walks(steps, window, es, chosen) ==> RowsMake(rows, steps, window, session, placed);
      assert RowsMake(rows, steps, window, session, placed) ==> Walks(steps, window, es, chosen);
    }
  }

  /** What is not among the events in front of one is not among the rows in front of its row. */
  lemma FirstRow(rows: seq<Row>, session: string, ps: seq<nat>, es: seq<Event>, i: nat, name: string)
    requires ArePlaces(rows, session, ps, es) && i < |ps|
    ensures (forall e :: 0 <= e < i ==> es[e].name != name) <==>
      (forall r :: 0 <= r < ps[i] && rows[r].session == session ==> rows[r].name != name)
  {
    if forall e :: 0 <= e < i ==> es[e].name != name {
      forall r | 0 <= r < ps[i] && rows[r].session == session ensures rows[r].name != name {
        var e :| 0 <= e < |ps| && ps[e] == r;
        assert es[e].name != name;
      }
    }
    if forall r :: 0 <= r < ps[i] && rows[r].session == session ==> rows[r].name != name {
      forall e | 0 <= e < i ensures es[e].name != name {
        assert ps[e] < ps[i];
      }
    }
  }

  lemma {:induction false} RowsHavePlaces(ps: seq<nat>, chosen: seq<nat>) returns (at: seq<nat>)
    requires forall k :: 0 <= k < |chosen| ==> chosen[k] in ps
    ensures |at| == |chosen| && (forall k :: 0 <= k < |at| ==> at[k] < |ps|) && Placed(ps, at) == chosen
  {
    at := [];
    for i := 0 to |chosen|
      invariant |at| == i && forall k :: 0 <= k < i ==> at[k] < |ps| && ps[at[k]] == chosen[k]
    {
      var j :| 0 <= j < |ps| && ps[j] == chosen[i];
      at := at + [j];
    }
  }

  /** A session counts as having made m steps exactly if some of its rows make them. */
  lemma MadeByRows(rows: seq<Row>, steps: seq<string>, window: int, session: string, m: nat)
    requires Ordered(rows) && window >= 0
    ensures m <= Made(rows, steps, window, session) <==>
      exists chosen :: |chosen| == m && RowsMake(rows, steps, window, session, chosen)
  {
    hide Made, Walks, AllEventsOf, Places, RowsMake;
    MadeIsOptimal(rows, steps, window, session, m);
    PlacesAre(rows, session);
    var ps, es := Places(rows, session), AllEventsOf(rows, session);
    forall chosen | |chosen| == m && Walks(steps, window, es, chosen)
      ensures exists c :: |c| == m && RowsMake(rows, steps, window, session, c)
    {
      WalksInside(steps, window, es, chosen);
      WalkOverRows(rows, steps, window, session, chosen);
      assert |Placed(ps, chosen)| == m;
    }
    forall chosen | |chosen| == m && RowsMake(rows, steps, window, session, chosen)
      ensures exists c :: |c| == m && Walks(steps, window, es, c)
    {
      RowsInside(rows, steps, window, session, chosen);
      var at := RowsHavePlaces(ps, chosen);
      WalkOverRows(rows, steps, window, session, at);
      assert |at| == m;
    }
  }

  lemma WalksInside(steps: seq<string>, window: int, events: seq<Event>, chosen: seq<nat>)
    requires Walks(steps, window, events, chosen)
    ensures forall k :: 0 <= k < |chosen| ==> chosen[k] < |events|
  {
  }

  lemma RowsInside(rows: seq<Row>, steps: seq<string>, window: int, session: string, chosen: seq<nat>)
    requires RowsMake(rows, steps, window, session, chosen)
    ensures forall k :: 0 <= k < |chosen| ==> chosen[k] < |rows| && rows[chosen[k]].session == session
  {
  }

  /** The sessions with at least one event of the funnel. */
  function Sessions(rows: seq<Row>, steps: seq<string>): set<string> {
    set r | r in rows && r.name in steps :: r.session
  }

  lemma OneMoreRow(rows: seq<Row>, i: nat, steps: seq<string>)
    requires i < |rows|
    ensures Sessions(rows[..0], steps) == {}
    ensures Sessions(rows[..i + 1], steps) ==
      Sessions(rows[..i], steps) + if rows[i].name in steps then {rows[i].session} else {}
  {
    assert rows[..i + 1] == rows[..i] + [rows[i]];
  }

  function GroupOf(groups: map<string, seq<Event>>, session: string): seq<Event> {
    if session in groups then groups[session] else []
  }

  /** Groups the rows by session, keeping the names of the funnel. */
  method GroupBySession(rows: seq<Row>, steps: seq<string>) returns (groups: map<string, seq<Event>>)
    ensures groups.Keys == Sessions(rows, steps)
    ensures forall s :: GroupOf(groups, s) == EventsOf(rows, steps, s)
  {
    hide Sessions;
    groups := map[];
    for i := 0 to |rows|
      invariant i > 0 ==> groups.Keys == Sessions(rows[..i], steps)
      invariant i == 0 ==> groups == map[]
      invariant forall s :: GroupOf(groups, s) == EventsOf(rows[..i], steps, s)
    {
      var row := rows[i];
      OneMoreRow(rows, i, steps);
      assert rows[..i + 1][..i] == rows[..i];
      if row.name in steps {
        groups := groups[row.session := GroupOf(groups, row.session) + [Event(row.name, row.ts)]];
      }
    }
    NoSessions(steps);
    assert rows[..|rows|] == rows;
  }

  lemma NoSessions(steps: seq<string>)
    ensures Sessions([], steps) == {}
  {
  }

  // ----- Results -----

  datatype StepResult = StepResult(count: int, conversionRate: real, dropOff: int, dropOffRate: real)

  datatype Result = Result(entered: nat, converted: nat, overallRate: real, median: int, steps: seq<StepResult>)

  /** Times are in nanoseconds. */
  const SECOND := 1000000000

  function Rate(part: int, whole: int): real {
    if whole > 0 then part as real / whole as real else 0.0
  }

  /** The sessions among the given ones that made step i. */
  function Reaching(among: set<string>, rows: seq<Row>, steps: seq<string>, window: int, i: nat): set<string> {
    set s | s in among && Made(rows, steps, window, s) > i
  }

  /** The sessions whose last step is step i. */
  function Leaving(rows: seq<Row>, steps: seq<string>, window: int, i: nat): set<string> {
    set s | s in Sessions(rows, steps) && Made(rows, steps, window, s) == i + 1
  }

  function CountAt(rows: seq<Row>, steps: seq<string>, window: int, i: nat): nat {
    |Reaching(Sessions(rows, steps), rows, steps, window, i)|
  }

  lemma ReachingOneMore(among: set<string>, s: string, rows: seq<Row>, steps: seq<string>, window: int, i: nat)
    requires s !in among
    ensures |Reaching(among + {s}, rows, steps, window, i)|
         == |Reaching(among, rows, steps, window, i)| + if Made(rows, steps, window, s) > i then 1 else 0
  {
    hide Made;
    var before, after := Reaching(among, rows, steps, window, i), Reaching(among + {s}, rows, steps, window, i);
    if Made(rows, steps, window, s) > i {
      assert after == before + {s};
    } else {
      assert after == before;
    }
  }

  /** Adds one session to the counters, as the source's innermost loop does. */
  method CountSession(counts: array<int>, reachedStep: int)
    requires -1 <= reachedStep < counts.Length
    modifies counts
    ensures forall i :: 0 <= i < counts.Length ==>
      counts[i] == old(counts[i]) + if i <= reachedStep then 1 else 0
  {
    var s := 0;
    while s <= reachedStep
      invariant 0 <= s <= reachedStep + 1
      invariant forall i :: 0 <= i < counts.Length ==> counts[i] == old(counts[i]) + if i < s then 1 else 0
    {
      counts[s] := counts[s] + 1;
      s := s + 1;
    }
  }

  function DropOff(counts: seq<int>, i: nat): int
    requires i < |counts|
  {
    if i < |counts| - 1 then counts[i] - counts[i + 1] else 0
  }

  /** The counts per step, with what is lost on the way to the next. */
  method StepResults(counts: seq<int>) returns (results: seq<StepResult>)
    ensures |results| == |counts|
    ensures forall i :: 0 <= i < |counts| ==>
      results[i] ==
        StepResult(counts[i], Rate(counts[i], counts[0]), DropOff(counts, i), Rate(DropOff(counts, i), counts[i]))
  {
    results := [];
    for i := 0 to |counts|
      invariant |results| == i
      invariant forall k :: 0 <= k < i ==>
        results[k] ==
          StepResult(counts[k], Rate(counts[k], counts[0]), DropOff(counts, k), Rate(DropOff(counts, k), counts[k]))
    {
      var count := counts[i];
      var dropOffCount := 0;
      if i < |counts| - 1 {
        dropOffCount := count - counts[i + 1];
      }
      var convRate := 0.0;
      if counts[0] > 0 {
        convRate := count as real / counts[0] as real;
      }
      var dropRate := 0.0;
      if count > 0 {
        dropRate := dropOffCount as real / count as real;
      }
      results := results + [StepResult(count, convRate, dropOffCount, dropRate)];
    }
  }

  // ----- The median conversion time -----

  /** Whole seconds from a session's first step to the last one it made. */
  function Duration(rows: seq<Row>, steps: seq<string>, window: int, session: string): int {
    var p := Scan(steps, window, EventsOf(rows, steps, session));
    (p.last - p.t0) / SECOND
  }

  function RowsTake(rows: seq<Row>, chosen: seq<nat>): int
    requires chosen != [] && forall k :: 0 <= k < |chosen| ==> chosen[k] < |rows|
  {
    (rows[chosen[|chosen| - 1]].ts - rows[chosen[0]].ts) / SECOND
  }

  /** A converted session's duration is the shortest any rows take that make all the steps. */
  lemma DurationIsShortest(rows: seq<Row>, steps: seq<string>, window: int, session: string, chosen: seq<nat>)
    returns (best: seq<nat>)
    requires Ordered(rows) && window >= 0 && steps != []
    requires RowsMake(rows, steps, window, session, chosen) && |chosen| == |steps|
    ensures RowsMake(rows, steps, window, session, best) && |best| == |steps|
    ensures Duration(rows, steps, window, session) == RowsTake(rows, best) <= RowsTake(rows, chosen)
  {
    hide Walks, AllEventsOf, EventsOf, Places, RowsMake, Scan, Remembers, InTimeOrder, Ordered, ArePlaces, Stops;
    RowsInside(rows, steps, window, session, chosen);
    PlacesAre(rows, session);
    PlacesInside(rows, session, Places(rows, session), AllEventsOf(rows, session));
    MadeByRows(rows, steps, window, session, |steps|);
    OtherNamesDoNotMatter(rows, steps, window, session);
    OrderedRowsGiveOrderedEvents(rows, session);
    var ps, es := Places(rows, session), AllEventsOf(rows, session);
    var at := RowsHavePlaces(ps, chosen);
    WalkOverRows(rows, steps, window, session, at);
    ScanEndsFirst(steps, window, es, at);
    var s := Stops(steps, window, es);
    WalksInside(steps, window, es, s);
    WalkOverRows(rows, steps, window, session, s);
    best := Placed(ps, s);
    RowsInside(rows, steps, window, session, best);
    TimesOfStops(rows, steps, window, session, ps, es, s, at);
  }

  lemma PlacesInside(rows: seq<Row>, session: string, ps: seq<nat>, es: seq<Event>)
    requires ArePlaces(rows, session, ps, es)
    ensures |ps| == |es| && forall k :: 0 <= k < |ps| ==> ps[k] < |rows|
    ensures forall r :: 0 <= r < |rows| && rows[r].session == session ==> r in ps
  {
  }

  lemma TimesOfStops(rows: seq<Row>, steps: seq<string>, window: int, session: string, ps: seq<nat>, es: seq<Event>,
          s: seq<nat>, at: seq<nat>)
    requires ArePlaces(rows, session, ps, es) && InTimeOrder(es)
    requires |s| == |at| == |steps| > 0 && forall k :: 0 <= k < |s| ==> s[k] < |ps| && at[k] < |ps|
    requires s[0] == at[0] && s[|s| - 1] <= at[|s| - 1]
    requires Remembers(steps, es, s, Scan(steps, window, EventsOf(rows, steps, session)))
    requires forall k :: 0 <= k < |ps| ==> ps[k] < |rows|
    ensures Duration(rows, steps, window, session) == RowsTake(rows, Placed(ps, s)) <= RowsTake(rows, Placed(ps, at))
  {
    hide Scan, EventsOf;
    var m := |s| - 1;
    assert es[s[m]].ts <= es[at[m]].ts;
    DivIsMonotone(es[s[m]].ts - es[s[0]].ts, es[at[m]].ts - es[at[0]].ts);
  }

  lemma DivIsMonotone(a: int, b: int)
    requires a <= b
    ensures a / SECOND <= b / SECOND
  {
  }

  /** Those of the sessions that took less than x seconds. */
  function Faster(among: set<string>, rows: seq<Row>, steps: seq<string>, window: int, x: int): set<string> {
    set s | s in among && Duration(rows, steps, window, s) < x
  }

  /** m is the conversion time of which half the converted sessions, rounded down, stay below and
      more than half do not exceed it; 0 if none converted. */
  predicate IsMedian(rows: seq<Row>, steps: seq<string>, window: int, m: int)
    requires steps != []
  {
    var all := Reaching(Sessions(rows, steps), rows, steps, window, |steps| - 1);
    if all == {} then m == 0
    else |Faster(all, rows, steps, window, m)| <= |all| / 2 < |Faster(all, rows, steps, window, m + 1)|
  }

  function CountBelow(ds: seq<int>, x: int): nat {
    if ds == [] then 0 else CountBelow(ds[..|ds| - 1], x) + if ds[|ds| - 1] < x then 1 else 0
  }

  /** The durations are those of the converted sessions, in some order. */
  ghost predicate Timed(ds: seq<int>, among: set<string>, rows: seq<Row>, steps: seq<string>, window: int) {
    |ds| == |among| && forall x :: CountBelow(ds, x) == |Faster(among, rows, steps, window, x)|
  }

  lemma TimedOneMore(
      ds: seq<int>, among: set<string>, s: string, rows: seq<Row>, steps: seq<string>, window: int)
    requires Timed(ds, among, rows, steps, window) && s !in among
    ensures Timed(ds + [Duration(rows, steps, window, s)], among + {s}, rows, steps, window)
  {
    hide Duration;
    var d := Duration(rows, steps, window, s);
    assert (ds + [d])[..|ds|] == ds;
    forall x
      ensures CountBelow(ds + [d], x) == |Faster(among + {s}, rows, steps, window, x)|
    {
      var before, after := Faster(among, rows, steps, window, x), Faster(among + {s}, rows, steps, window, x);
      assert after == if d < x then before + {s} else before;
    }
  }

  predicate Sorted(s: seq<int>) {
    forall i, j :: 0 <= i < j < |s| ==> s[i] <= s[j]
  }

  lemma {:induction false} CountBelowOfSum(a: seq<int>, b: seq<int>, x: int)
    ensures CountBelow(a + b, x) == CountBelow(a, x) + CountBelow(b, x)
  {
    if b == [] {
      assert a + b == a;
    } else {
      assert (a + b)[..|a + b| - 1] == a + b[..|b| - 1];
      CountBelowOfSum(a, b[..|b| - 1], x);
    }
  }

  lemma NothingIsSorted()
    ensures Sorted([])
  {
  }

  lemma InsertKeepsSorted(r: seq<int>, k: nat, v: int)
    requires Sorted(r) && k <= |r| && (k > 0 ==> r[k - 1] <= v) && forall j :: k <= j < |r| ==> r[j] > v
    ensures Sorted(r[..k] + [v] + r[k..])
  {
    assert forall j :: 0 <= j < k ==> r[j] <= v;
  }

  /** sort.Ints. */
  method SortInts(ds: seq<int>) returns (r: seq<int>)
    ensures Sorted(r) && |r| == |ds| && forall x :: CountBelow(r, x) == CountBelow(ds, x)
  {
    hide CountBelow, Sorted;
    r := [];
    assert Sorted(r) by { NothingIsSorted(); }
    for i := 0 to |ds|
      invariant Sorted(r) && |r| == i && forall x :: CountBelow(r, x) == CountBelow(ds[..i], x)
    {
      var k := i;
      while k > 0 && r[k - 1] > ds[i]
        invariant k <= i && forall j :: k <= j < i ==> r[j] > ds[i]
      {
        k := k - 1;
      }
      ghost var before := r;
      assert before == before[..k] + before[k..] && ds[..i + 1] == ds[..i] + [ds[i]];
      InsertKeepsSorted(r, k, ds[i]);
      r := r[..k] + [ds[i]] + r[k..];
      forall x ensures CountBelow(r, x) == CountBelow(ds[..i + 1], x) {
        CountBelowOfSum(before[..k], before[k..], x);
        CountBelowOfSum(before[..k] + [ds[i]], before[k..], x);
        CountBelowOfSum(before[..k], [ds[i]], x);
        CountBelowOfSum(ds[..i], [ds[i]], x);
      }
    }
    assert ds[..|ds|] == ds;
  }

  lemma {:induction false} CountBelowOfSmall(s: seq<int>, x: int)
    ensures (forall i :: 0 <= i < |s| ==> s[i] < x) ==> CountBelow(s, x) == |s|
    ensures (forall i :: 0 <= i < |s| ==> s[i] >= x) ==> CountBelow(s, x) == 0
    ensures CountBelow(s, x) <= |s|
  {
    if s != [] {
      CountBelowOfSmall(s[..|s| - 1], x);
    }
  }

  /** In a sorted list at most k elements are below the one at k, and more than k do not exceed it. */
  lemma SortedSplits(s: seq<int>, k: nat)
    requires Sorted(s) && k < |s|
    ensures CountBelow(s, s[k]) <= k < CountBelow(s, s[k] + 1)
  {
    hide CountBelow;
    FewBelow(s, k);
    ManyUpTo(s, k);
  }

  lemma FewBelow(s: seq<int>, k: nat)
    requires Sorted(s) && k < |s|
    ensures CountBelow(s, s[k]) <= k
  {
    hide CountBelow;
    assert forall j :: k <= j < |s| ==> s[j] >= s[k];
    hide Sorted;
    var a, b := s[..k], s[k..];
    assert s == a + b;
    forall i | 0 <= i < |b| ensures b[i] >= s[k] { assert b[i] == s[k + i]; }
    CountBelowOfSum(a, b, s[k]);
    CountBelowOfSmall(a, s[k]);
    CountBelowOfSmall(b, s[k]);
  }

  lemma ManyUpTo(s: seq<int>, k: nat)
    requires Sorted(s) && k < |s|
    ensures k < CountBelow(s, s[k] + 1)
  {
    hide CountBelow;
    var a, b := s[..k + 1], s[k + 1..];
    assert s == a + b;
    forall i | 0 <= i < |a| ensures a[i] < s[k] + 1 { assert a[i] == s[i]; }
    CountBelowOfSum(a, b, s[k] + 1);
    CountBelowOfSmall(a, s[k] + 1);
  }

  /** The source's median of the collected durations. */
  method MedianOf(ds: seq<int>, rows: seq<Row>, steps: seq<string>, window: int) returns (m: int)
    requires steps != []
    requires Timed(ds, Reaching(Sessions(rows, steps), rows, steps, window, |steps| - 1), rows, steps, window)
    ensures IsMedian(rows, steps, window, m)
  {
    hide CountBelow, Faster, Sessions, Reaching, Sorted;
    m := 0;
    if |ds| > 0 {
      var sorted := SortInts(ds);
      SortedSplits(sorted, |sorted| / 2);
      m := sorted[|sorted| / 2];
    }
  }

  lemma NobodyTimed(rows: seq<Row>, steps: seq<string>, window: int)
    ensures Timed([], {}, rows, steps, window)
  {
    forall x ensures Faster({}, rows, steps, window, x) == {} {}
  }

  lemma NobodyReaches(rows: seq<Row>, steps: seq<string>, window: int)
    ensures forall i: nat :: Reaching({}, rows, steps, window, i) == {}
  {
  }

  lemma ReachingGrows(among: set<string>, s: string, rows: seq<Row>, steps: seq<string>, window: int, i: nat)
    ensures var before := Reaching(among, rows, steps, window, i);
      Reaching(among + {s}, rows, steps, window, i) == if Made(rows, steps, window, s) > i then before + {s} else before
    ensures s !in among ==> s !in Reaching(among, rows, steps, window, i)
  {
    hide Made;
  }

  lemma TimedWithSession(ds: seq<int>, done: set<string>, s: string, rows: seq<Row>, steps: seq<string>, window: int)
    requires steps != [] && s !in done
    requires Timed(ds, Reaching(done, rows, steps, window, |steps| - 1), rows, steps, window)
    ensures var p := Scan(steps, window, EventsOf(rows, steps, s));
      var after := Reaching(done + {s}, rows, steps, window, |steps| - 1);
      && (p.current == |steps| ==> Timed(ds + [(p.last - p.t0) / SECOND], after, rows, steps, window))
      && (p.current != |steps| ==> Timed(ds, after, rows, steps, window))
  {
    hide Scan, EventsOf, Reaching, Timed;
    ReachingGrows(done, s, rows, steps, window, |steps| - 1);
    if Made(rows, steps, window, s) == |steps| {
      TimedOneMore(ds, Reaching(done, rows, steps, window, |steps| - 1), s, rows, steps, window);
    }
  }

  /** The counters are those of the given sessions. */
  ghost predicate Counted(cs: seq<int>, among: set<string>, rows: seq<Row>, steps: seq<string>, window: int) {
    |cs| == |steps| && forall i :: 0 <= i < |steps| ==> cs[i] == |Reaching(among, rows, steps, window, i)|
  }

  lemma CountedOneMore(
      cs: seq<int>, cs': seq<int>, among: set<string>, s: string, rows: seq<Row>, steps: seq<string>, window: int)
    requires Counted(cs, among, rows, steps, window) && s !in among && |cs'| == |cs|
    requires forall i :: 0 <= i < |cs| ==> cs'[i] == cs[i] + if i < Made(rows, steps, window, s) then 1 else 0
    ensures Counted(cs', among + {s}, rows, steps, window)
  {
    hide Made, Reaching;
    forall i: nat | i < |steps| {
      ReachingOneMore(among, s, rows, steps, window, i);
    }
  }

  lemma NobodyCounted(cs: seq<int>, rows: seq<Row>, steps: seq<string>, window: int)
    requires |cs| == |steps| && forall i :: 0 <= i < |cs| ==> cs[i] == 0
    ensures Counted(cs, {}, rows, steps, window)
  {
    hide Reaching;
    NobodyReaches(rows, steps, window);
  }

  /** One session's turn in the source's loop. */
  method CountOne(counts: array<int>, collected: seq<int>, ghost done: set<string>, ghost session: string,
                  events: seq<Event>, ghost rows: seq<Row>, steps: seq<string>, window: int)
    returns (durations: seq<int>)
    requires steps != [] && session !in done && events == EventsOf(rows, steps, session)
    requires Counted(counts[..], done, rows, steps, window)
    requires Timed(collected, Reaching(done, rows, steps, window, |steps| - 1), rows, steps, window)
    modifies counts
    ensures Counted(counts[..], done + {session}, rows, steps, window)
    ensures Timed(durations, Reaching(done + {session}, rows, steps, window, |steps| - 1), rows, steps, window)
  {
    hide Scan, EventsOf, Reaching, Timed, Counted, Made;
    CountedMeans(counts[..], done, rows, steps, window);
    var reachedStep, t0, lastTime := MatchForResults(steps, window, events);
    MadeIsScan(rows, steps, window, session);
    ghost var before := counts[..];
    CountSession(counts, reachedStep);
    CountedOneMore(before, counts[..], done, session, rows, steps, window);
    TimedWithSession(collected, done, session, rows, steps, window);
    durations := collected;
    if reachedStep == |steps| - 1 {
      durations := durations + [(lastTime - t0) / SECOND];
    }
  }

  /** The source's loop over the sessions: the counters, and the durations of those that converted. */
  method CountSteps(rows: seq<Row>, steps: seq<string>, window: int)
    returns (counts: array<int>, durations: seq<int>)
    requires steps != []
    ensures fresh(counts) && counts.Length == |steps|
    ensures forall i :: 0 <= i < |steps| ==> counts[i] == CountAt(rows, steps, window, i)
    ensures Timed(durations, Reaching(Sessions(rows, steps), rows, steps, window, |steps| - 1), rows, steps, window)
  {
    hide EventsOf, Sessions, Reaching, Timed, Counted;
    var groups := GroupBySession(rows, steps);
    counts := new int[|steps|](_ => 0);
    durations := [];
    var todo := groups.Keys;
    ghost var done: set<string> := {};
    NobodyCounted(counts[..], rows, steps, window);
    NobodyReaches(rows, steps, window);
    NobodyTimed(rows, steps, window);
    while todo != {}
      invariant todo !! done && todo + done == groups.Keys
      invariant Counted(counts[..], done, rows, steps, window)
      invariant Timed(durations, Reaching(done, rows, steps, window, |steps| - 1), rows, steps, window)
      decreases |todo|
    {
      var session :| session in todo;
      durations := CountOne(counts, durations, done, session, GroupOf(groups, session), rows, steps, window);
      todo := todo - {session};
      done := done + {session};
    }
    assert done == Sessions(rows, steps);
    CountedMeans(counts[..], done, rows, steps, window);
  }

  lemma MadeIsScan(rows: seq<Row>, steps: seq<string>, window: int, s: string)
    ensures Made(rows, steps, window, s) == Scan(steps, window, EventsOf(rows, steps, s)).current
  {
  }

  lemma CountedMeans(cs: seq<int>, among: set<string>, rows: seq<Row>, steps: seq<string>, window: int)
    requires Counted(cs, among, rows, steps, window)
    ensures |cs| == |steps|
    ensures forall i :: 0 <= i < |steps| ==> cs[i] == |Reaching(among, rows, steps, window, i)|
  {
  }

  /** What is reported of step i. */
  function ResultAt(rows: seq<Row>, steps: seq<string>, window: int, i: nat): StepResult {
    var count, next := CountAt(rows, steps, window, i), CountAt(rows, steps, window, i + 1);
    var lost := if i < |steps| - 1 then count - next else 0;
    StepResult(count, Rate(count, CountAt(rows, steps, window, 0)), lost, Rate(lost, count))
  }

  method CalculateFunnelResults(rows: seq<Row>, steps: seq<string>, window: int) returns (r: Result)
    ensures steps == [] ==> r == Result(0, 0, 0.0, 0, [])
    ensures steps != [] ==>
      && r.entered == CountAt(rows, steps, window, 0)
      && r.converted == CountAt(rows, steps, window, |steps| - 1)
      && r.overallRate == Rate(r.converted, r.entered)
      && IsMedian(rows, steps, window, r.median)
      && |r.steps| == |steps|
      && forall i :: 0 <= i < |steps| ==> r.steps[i] == ResultAt(rows, steps, window, i)
    ensures RatesAreShares(r)
  {
    hide CountAt, IsMedian, Timed, RatesAreShares;
    if |steps| == 0 {
      NothingIsShared();
      return Result(0, 0, 0.0, 0, []);
    }
    var counts, durations := CountSteps(rows, steps, window);
    var totalEntered, totalConverted := counts[0], counts[|steps| - 1];
    var overallRate := 0.0;
    if totalEntered > 0 {
      overallRate := totalConverted as real / totalEntered as real;
    }
    var medianDuration := MedianOf(durations, rows, steps, window);
    var cs := counts[..];
    assert |cs| == |steps| && forall i :: 0 <= i < |steps| ==> cs[i] == CountAt(rows, steps, window, i);
    var results := StepResults(cs);
    forall i | 0 <= i < |steps|
      ensures results[i] == ResultAt(rows, steps, window, i)
    {
      assert results[i].count == cs[i] && results[i].dropOff == DropOff(cs, i);
    }
    r := Result(totalEntered, totalConverted, overallRate, medianDuration, results);
    ResultFits(rows, steps, window, r);
  }

  lemma ResultFits(rows: seq<Row>, steps: seq<string>, window: int, r: Result)
    requires steps != [] && r.entered == CountAt(rows, steps, window, 0)
    requires r.converted == CountAt(rows, steps, window, |steps| - 1) && r.overallRate == Rate(r.converted, r.entered)
    requires |r.steps| == |steps| && forall i :: 0 <= i < |steps| ==> r.steps[i] == ResultAt(rows, steps, window, i)
    ensures RatesAreShares(r)
  {
    hide CountAt, ResultAt, RatesFit, Rate;
    NobodyIsLost(rows, steps, window, |steps| - 1);
    RateTimes(r.converted, r.entered);
    forall i | 0 <= i < |steps| ensures RatesFit(r.steps[i], r.entered) {
      StepRatesFit(rows, steps, window, i);
    }
  }

  /** Both rates are shares: of those who entered, and of those who made the step. */
  predicate RatesFit(s: StepResult, entered: nat) {
    && s.conversionRate * entered as real == s.count as real && s.dropOffRate * s.count as real == s.dropOff as real
    && (entered == 0 ==> s.conversionRate == 0.0) && (s.count == 0 ==> s.dropOffRate == 0.0)
  }

  predicate RatesAreShares(r: Result) {
    && r.overallRate * r.entered as real == r.converted as real && (r.entered == 0 ==> r.overallRate == 0.0)
    && forall i :: 0 <= i < |r.steps| ==> RatesFit(r.steps[i], r.entered)
  }

  lemma NothingIsShared()
    ensures RatesAreShares(Result(0, 0, 0.0, 0, []))
  {
  }

  lemma RateTimes(part: int, whole: nat)
    requires 0 <= part <= whole
    ensures Rate(part, whole) * whole as real == part as real && (whole == 0 ==> Rate(part, whole) == 0.0)
  {
  }

  lemma StepRatesFit(rows: seq<Row>, steps: seq<string>, window: int, i: nat)
    requires i < |steps|
    ensures RatesFit(ResultAt(rows, steps, window, i), CountAt(rows, steps, window, 0))
  {
    hide CountAt, Rate, RatesFit;
    NobodyIsLost(rows, steps, window, i);
    var all, count := CountAt(rows, steps, window, 0), CountAt(rows, steps, window, i);
    if i < |steps| - 1 {
      CountsDropByLeavers(rows, steps, window, i);
      SharesFit(all, count, count - CountAt(rows, steps, window, i + 1));
    } else {
      SharesFit(all, count, 0);
    }
  }

  lemma SharesFit(all: nat, count: nat, lost: int)
    requires count <= all && 0 <= lost <= count
    ensures RatesFit(StepResult(count, Rate(count, all), lost, Rate(lost, count)), all)
  {
    RateTimes(count, all);
    RateTimes(lost, count);
    hide Rate;
  }

  /** The loop over one session's events, as GetFunnelDropoffs has it. */
  method MatchForDropoffs(steps: seq<string>, window: int, events: seq<Event>) returns (reachedStep: int)
    ensures reachedStep == Scan(steps, window, events).current - 1
  {
    reachedStep := -1;
    var t0, lastTime, currentStep := 0, 0, 0;
    assert events[..0] == [];
    for i := 0 to |events|
      invariant reachedStep == currentStep - 1
      invariant Progress(currentStep, t0, lastTime) == Scan(steps, window, events[..i])
    {
      if currentStep >= |steps| {
        ScanStaysDone(steps, window, events, i);
        return;
      }
      var ev := events[i];
      ScanSnoc(steps, window, events, i);
      if ev.name == steps[currentStep] {
        if currentStep == 0 {
          t0, lastTime, reachedStep, currentStep := ev.ts, ev.ts, 0, 1;
        } else if (ev.ts > lastTime || ev.ts == lastTime) && ev.ts - t0 <= window {
          lastTime, reachedStep, currentStep := ev.ts, currentStep, currentStep + 1;
        }
      }
    }
    assert events[..|events|] == events;
  }

  method GetFunnelDropoffs(rows: seq<Row>, steps: seq<string>, window: int, stepIndex: int, limit: int)
    returns (ids: seq<string>)
    ensures !(0 <= stepIndex < |steps| - 1) ==> ids == []
    ensures 0 <= stepIndex < |steps| - 1 ==>
      var most, leaving := if limit <= 0 then 20 else limit, Leaving(rows, steps, window, stepIndex);
      && Distinct(ids) && (forall s :: s in ids ==> s in leaving)
      && |ids| == (if |leaving| < most then |leaving| else most)
      && (|leaving| <= most ==> (set s | s in ids) == leaving)
  {
    hide Scan, EventsOf;
    if stepIndex < 0 || stepIndex >= |steps| - 1 {
      return [];
    }
    var most := if limit <= 0 then 20 else limit;
    var groups := GroupBySession(rows, steps);
    ghost var leaving := Leaving(rows, steps, window, stepIndex);
    ids := [];
    var todo := groups.Keys;
    while todo != {}
      invariant todo <= groups.Keys && Distinct(ids) && |ids| < most
      invariant forall s :: s in ids ==> s in leaving && s !in todo
      invariant forall s :: s in leaving ==> s in ids || s in todo
      decreases |todo|
    {
      var session :| session in todo;
      var reachedStep := MatchForDropoffs(steps, window, GroupOf(groups, session));
      assert reachedStep + 1 == Made(rows, steps, window, session);
      todo := todo - {session};
      if reachedStep == stepIndex {
        ids := ids + [session];
        if |ids| >= most {
          break;
        }
      }
    }
    FoundSome(ids, todo, leaving, most);
  }

  lemma FoundSome(ids: seq<string>, todo: set<string>, leaving: set<string>, most: nat)
    requires Distinct(ids) && (forall s :: s in ids ==> s in leaving && s !in todo) && |ids| <= most
    requires (forall s :: s in leaving ==> s in ids || s in todo) && (todo == {} || |ids| == most)
    ensures |ids| == if |leaving| < most then |leaving| else most
    ensures |leaving| <= most ==> (set s | s in ids) == leaving
  {
    var found := set s | s in ids;
    DistinctSize(ids);
    assert found <= leaving;
    assert |leaving| == |found| + |leaving - found|;
    if |leaving| <= most {
      assert leaving - found == {};
    }
  }

  // ----- The two scans agree -----

  /** From one step to the next, exactly the sessions that stop there are lost. */
  lemma CountsDropByLeavers(rows: seq<Row>, steps: seq<string>, window: int, i: nat)
    ensures CountAt(rows, steps, window, i) == CountAt(rows, steps, window, i + 1) + |Leaving(rows, steps, window, i)|
  {
    hide Made, Sessions;
    var all := Sessions(rows, steps);
    var here, next := Reaching(all, rows, steps, window, i), Reaching(all, rows, steps, window, i + 1);
    var leaving := Leaving(rows, steps, window, i);
    assert here == next + leaving && next !! leaving;
  }

  function SumOfLeavers(rows: seq<Row>, steps: seq<string>, window: int, n: nat): nat {
    if n == 0 then 0 else SumOfLeavers(rows, steps, window, n - 1) + |Leaving(rows, steps, window, n - 1)|
  }

  /** Everyone who entered converted or dropped off at exactly one step: entered = converted + the
      sum of the drop-offs, each of them the number of sessions GetFunnelDropoffs lists for it. */
  lemma {:induction false} NobodyIsLost(rows: seq<Row>, steps: seq<string>, window: int, n: nat)
    ensures CountAt(rows, steps, window, 0) == CountAt(rows, steps, window, n) + SumOfLeavers(rows, steps, window, n)
  {
    hide CountAt;
    if n > 0 {
      NobodyIsLost(rows, steps, window, n - 1);
      CountsDropByLeavers(rows, steps, window, n - 1);
    }
  }

  /** The rates fit together: whoever makes the next step made this one and did not drop off. */
  lemma RatesMultiply(rows: seq<Row>, steps: seq<string>, window: int, i: nat)
    requires i < |steps| - 1
    ensures var here, next := ResultAt(rows, steps, window, i), ResultAt(rows, steps, window, i + 1);
      && next.conversionRate == here.conversionRate * (1.0 - here.dropOffRate)
      && 0.0 <= here.dropOffRate <= 1.0
  {
    hide CountAt;
    CountsDropByLeavers(rows, steps, window, i);
    NobodyIsLost(rows, steps, window, i);
    RatesOf(CountAt(rows, steps, window, 0), CountAt(rows, steps, window, i), CountAt(rows, steps, window, i + 1));
  }

  lemma SameTimes(x: real, y: real, z: real, p: real)
    requires z > 0.0 && x * z == p && y * z == p
    ensures x == y
  {
    assert (x - y) * z == 0.0;
  }

  lemma RatesOf(all: nat, count: nat, next: nat)
    requires next <= count <= all
    ensures Rate(next, all) == Rate(count, all) * (1.0 - Rate(count - next, count))
    ensures 0.0 <= Rate(count - next, count) <= 1.0
  {
    if count > 0 {
      var a, c, n := all as real, count as real, next as real;
      var y := Quotient(c, a);
      var x := Quotient(n, c);
      var w := Quotient(c - n, c);
      var z := Quotient(n, a);
      QuotientsMultiply(a, c, n, y, x, w, z);
      assert Rate(count - next, count) == w && Rate(next, all) == z && Rate(count, all) == y;
    }
  }

  lemma Quotient(x: real, z: real) returns (q: real)
    requires z > 0.0
    ensures q == x / z && q * z == x
  {
    q := x / z;
  }

  lemma QuotientsMultiply(a: real, c: real, n: real, y: real, x: real, w: real, z: real)
    requires 0.0 < c <= a && 0.0 <= n <= c
    requires y * a == c && x * c == n && w * c == c - n && z * a == n
    ensures z == y * (1.0 - w) && 0.0 <= w <= 1.0
  {
    var v := Remainder(x, c, n);
    SameTimes(w, v, c, c - n);
    var u := Product(y, x, a, c, n);
    SameTimes(z, u, a, n);
    NotBelow(w, c);
    NotBelow(1.0 - w, c);
  }

  lemma NotBelow(w: real, c: real)
    requires c > 0.0 && w * c >= 0.0
    ensures w >= 0.0
  {
    if w < 0.0 {
      NegativeTimes(w, c);
    }
  }

  lemma NegativeTimes(w: real, c: real)
    requires w < 0.0 < c
    ensures w * c < 0.0
  {
  }

  lemma Remainder(x: real, c: real, n: real) returns (v: real)
    requires x * c == n
    ensures v == 1.0 - x && v * c == c - n
  {
    v := 1.0 - x;
    assert (1.0 - x) * c == c - x * c;
  }

  lemma Product(y: real, x: real, a: real, c: real, n: real) returns (u: real)
    requires y * a == c && x * c == n
    ensures u == y * x && u * a == n
  {
    u := y * x;
    assert u * a == y * a * x;
  }
}
