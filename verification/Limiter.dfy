/** The per-project token bucket in front of ingest (internal/server/limiter.go). Time is a
    parameter, in seconds, and arithmetic is exact. */
module Limiter {

  datatype Bucket = Bucket(tokens: real, lastUpdate: real)

  datatype Call = Call(pid: int, quotaPerMinute: int, n: int, now: real)

  datatype Answer = Answer(allowed: bool, retryAfter: int)

  /** The limit in force: the project's quota, or the default without one. 0 or less: no limit. */
  function LimitOf(quota: int, defaultLimit: int): int {
    if quota <= 0 then defaultLimit else quota
  }

  function Cost(n: int): real {
    if n < 1 then 1.0 else n as real
  }

  function Rate(limit: int): real {
    limit as real / 60.0
  }

  /** What drips into a bucket in t seconds. */
  function Drip(t: real, limit: int): real {
    t * Rate(limit)
  }

  function Ceil(x: real): int {
    -((-x).Floor)
  }

  function Min(x: real, y: real): real {
    if x < y then x else y
  }

  /** What project pid has to spend at the given moment. */
  function Available(buckets: map<int, Bucket>, pid: int, limit: int, now: real): real {
    if pid !in buckets then limit as real
    else Min(limit as real, buckets[pid].tokens + Drip(now - buckets[pid].lastUpdate, limit))
  }

  /** Whole seconds until the given amount has dripped in. */
  function Seconds(amount: real, limit: int): int
    requires limit > 0
  {
    Ceil(amount / Rate(limit))
  }

  function Wait(missing: real, limit: int): int
    requires limit > 0
  {
    var w := Seconds(missing, limit);
    if w < 1 then 1 else if w > 60 then 60 else w
  }

  function AnswerTo(buckets: map<int, Bucket>, defaultLimit: int, c: Call): Answer {
    var limit := LimitOf(c.quotaPerMinute, defaultLimit);
    if limit <= 0 then Answer(true, 0) else
      var available := Available(buckets, c.pid, limit, c.now);
      if available >= Cost(c.n) then Answer(true, 0)
      else Answer(false, Wait(Cost(c.n) - available, limit))
  }

  function After(buckets: map<int, Bucket>, defaultLimit: int, c: Call): map<int, Bucket> {
    var limit := LimitOf(c.quotaPerMinute, defaultLimit);
    if limit <= 0 then buckets else
      var available := Available(buckets, c.pid, limit, c.now);
      buckets[c.pid := Bucket(if available >= Cost(c.n) then available - Cost(c.n) else available, c.now)]
  }

  class IngestLimiter {
    var buckets: map<int, Bucket>
    const defaultLimit: int

    constructor (defaultLimit: int)
      ensures buckets == map[] && this.defaultLimit == defaultLimit
    {
      this.buckets := map[];
      this.defaultLimit := defaultLimit;
    }

    method Allow(pid: int, quotaPerMinute: int, n: int, now: real) returns (allowed: bool, retryAfter: int)
      modifies this
      ensures var c := Call(pid, quotaPerMinute, n, now);
        && Answer(allowed, retryAfter) == AnswerTo(old(buckets), defaultLimit, c)
        && buckets == After(old(buckets), defaultLimit, c)
    {
      hide Drip, Seconds;
      var limit := quotaPerMinute;
      if limit <= 0 {
        limit := defaultLimit;
      }
      if limit <= 0 {
        return true, 0;
      }
      var needed := if n < 1 then 1.0 else n as real;
      var b;
      if pid !in buckets {
        b := Bucket(limit as real, now);
      } else {
        b := buckets[pid];
        var elapsed := now - b.lastUpdate;
        b := Bucket(Min(limit as real, b.tokens + Drip(elapsed, limit)), now);
      }
      buckets := buckets[pid := b];
      if b.tokens >= needed {
        buckets := buckets[pid := b.(tokens := b.tokens - needed)];
        return true, 0;
      }
      var missing := needed - b.tokens;
      retryAfter := Seconds(missing, limit);
      if retryAfter < 1 {
        retryAfter := 1;
      }
      if retryAfter > 60 {
        retryAfter := 60;
      }
      return false, retryAfter;
    }
  }

  // ----- Runs -----

  function Run(buckets: map<int, Bucket>, defaultLimit: int, calls: seq<Call>): map<int, Bucket>
    decreases |calls|
  {
    if calls == [] then buckets else Run(After(buckets, defaultLimit, calls[0]), defaultLimit, calls[1..])
  }

  /** The items a run admits for one project; a call with none counts as one. */
  function Items(buckets: map<int, Bucket>, defaultLimit: int, calls: seq<Call>, pid: int): int
    decreases |calls|
  {
    if calls == [] then 0 else
      var c := calls[0];
      (if c.pid != pid || !AnswerTo(buckets, defaultLimit, c).allowed then 0 else if c.n < 1 then 1 else c.n)
        + Items(After(buckets, defaultLimit, c), defaultLimit, calls[1..], pid)
  }

  /** The clock of the run goes from start to end without going back. */
  predicate Timed(calls: seq<Call>, start: real, end: real) {
    if calls == [] then start <= end
    else start <= calls[0].now && Timed(calls[1..], calls[0].now, end)
  }

  predicate LimitIs(calls: seq<Call>, defaultLimit: int, pid: int, limit: int) {
    forall c :: c in calls && c.pid == pid ==> LimitOf(c.quotaPerMinute, defaultLimit) == limit
  }

  /** The bucket of one project is between empty and full and not ahead of the clock. */
  predicate InRange(buckets: map<int, Bucket>, pid: int, limit: int, now: real) {
    pid in buckets ==> 0.0 <= buckets[pid].tokens <= limit as real && buckets[pid].lastUpdate <= now
  }

  lemma DripAdds(s: real, t: real, limit: int)
    requires limit > 0
    ensures Drip(s + t, limit) == Drip(s, limit) + Drip(t, limit)
    ensures Drip(0.0, limit) == 0.0 && Drip(60.0, limit) == limit as real
    ensures s <= t <==> Drip(s, limit) <= Drip(t, limit)
  {
    var r := Rate(limit);
    assert r > 0.0;
    assert (s + t) * r == s * r + t * r;
    ScaleIsMonotone(s, t, r);
  }

  lemma ScaleIsMonotone(x: real, y: real, r: real)
    requires r > 0.0
    ensures x <= y <==> x * r <= y * r
  {
  }

  lemma SecondsIsLeast(amount: real, limit: int, k: int)
    requires limit > 0
    ensures Seconds(amount, limit) <= k <==> amount <= Drip(k as real, limit)
  {
    var q := amount / Rate(limit);
    assert amount == q * Rate(limit);
    ScaleIsMonotone(q, k as real, Rate(limit));
  }

  lemma AvailableInRange(buckets: map<int, Bucket>, pid: int, limit: int, now: real)
    requires limit > 0 && InRange(buckets, pid, limit, now)
    ensures 0.0 <= Available(buckets, pid, limit, now) <= limit as real
  {
    hide Drip;
    if pid in buckets {
      DripAdds(0.0, now - buckets[pid].lastUpdate, limit);
    }
  }

  /** Waiting adds at most what drips in meanwhile. */
  lemma AvailableGrows(buckets: map<int, Bucket>, pid: int, limit: int, t0: real, t1: real)
    requires limit > 0 && t0 <= t1
    ensures Available(buckets, pid, limit, t1) <= Available(buckets, pid, limit, t0) + Drip(t1 - t0, limit)
  {
    hide Drip;
    DripAdds(0.0, t1 - t0, limit);
    if pid in buckets {
      var last := buckets[pid].lastUpdate;
      DripAdds(t0 - last, t1 - t0, limit);
      assert t0 - last + (t1 - t0) == t1 - last;
    }
  }

  lemma StepKeepsRange(buckets: map<int, Bucket>, defaultLimit: int, c: Call, pid: int, limit: int, now: real)
    requires limit > 0 && InRange(buckets, pid, limit, now) && now <= c.now
    requires c.pid == pid ==> LimitOf(c.quotaPerMinute, defaultLimit) == limit
    ensures InRange(After(buckets, defaultLimit, c), pid, limit, c.now)
  {
    AvailableInRange(buckets, pid, limit, c.now);
  }

  /** In every run, whatever the other projects do, tokens stay between 0 and the limit. */
  lemma {:induction false} RunKeepsRange(buckets: map<int, Bucket>, defaultLimit: int, calls: seq<Call>, pid: int,
          limit: int, start: real, end: real)
    requires limit > 0 && InRange(buckets, pid, limit, start)
    requires Timed(calls, start, end) && LimitIs(calls, defaultLimit, pid, limit)
    ensures InRange(Run(buckets, defaultLimit, calls), pid, limit, end)
    decreases |calls|
  {
    hide After;
    if calls != [] {
      var c := calls[0];
      assert c in calls;
      StepKeepsRange(buckets, defaultLimit, c, pid, limit, start);
      RunKeepsRange(After(buckets, defaultLimit, c), defaultLimit, calls[1..], pid, limit, c.now, end);
    }
  }

  /** A call takes from its own project's bucket what it is admitted for, and nothing else. */
  lemma StepPays(buckets: map<int, Bucket>, defaultLimit: int, c: Call, pid: int, limit: int)
    requires limit > 0 && InRange(buckets, pid, limit, c.now)
    requires c.pid == pid ==> LimitOf(c.quotaPerMinute, defaultLimit) == limit
    ensures Available(After(buckets, defaultLimit, c), pid, limit, c.now)
         == Available(buckets, pid, limit, c.now)
          - (if c.pid != pid || !AnswerTo(buckets, defaultLimit, c).allowed then 0
             else if c.n < 1 then 1 else c.n) as real
  {
    hide Drip;
    AvailableInRange(buckets, pid, limit, c.now);
    DripAdds(0.0, 0.0, limit);
  }

  /** From any moment on, no more items are admitted than are available then plus what drips in. */
  lemma {:induction false} AdmittedIsBounded(buckets: map<int, Bucket>, defaultLimit: int, calls: seq<Call>, pid: int,
          limit: int, start: real, end: real)
    requires limit > 0 && InRange(buckets, pid, limit, start)
    requires Timed(calls, start, end) && LimitIs(calls, defaultLimit, pid, limit)
    ensures Items(buckets, defaultLimit, calls, pid) as real
         <= Available(buckets, pid, limit, start) + Drip(end - start, limit)
    decreases |calls|
  {
    hide Drip, After, Available, AnswerTo;
    AvailableInRange(buckets, pid, limit, start);
    if calls == [] {
      DripAdds(0.0, end - start, limit);
    } else {
      var c := calls[0];
      assert c in calls;
      StepPays(buckets, defaultLimit, c, pid, limit);
      StepKeepsRange(buckets, defaultLimit, c, pid, limit, start);
      AdmittedIsBounded(After(buckets, defaultLimit, c), defaultLimit, calls[1..], pid, limit, c.now, end);
      AvailableGrows(buckets, pid, limit, start, c.now);
      DripAdds(c.now - start, end - c.now, limit);
      assert c.now - start + (end - c.now) == end - start;
    }
  }

  /** The window bound: cut any stretch out of any run from an empty limiter; if it lasts at most
      d seconds it admits at most limit + d * limit / 60 items of one project. */
  lemma WindowBound(defaultLimit: int, calls: seq<Call>, i: nat, j: nat, pid: int, limit: int, start: real,
          from: real, end: real, d: real)
    requires i <= j <= |calls| && limit > 0 && LimitIs(calls, defaultLimit, pid, limit)
    requires Timed(calls[..i], start, from) && Timed(calls[i..j], from, end) && end - from <= d
    ensures Items(Run(map[], defaultLimit, calls[..i]), defaultLimit, calls[i..j], pid) as real
         <= limit as real + d * limit as real / 60.0
  {
    hide Items, Run, Available, Timed;
    RunKeepsRange(map[], defaultLimit, calls[..i], pid, limit, start, from);
    var buckets := Run(map[], defaultLimit, calls[..i]);
    AdmittedIsBounded(buckets, defaultLimit, calls[i..j], pid, limit, from, end);
    AvailableInRange(buckets, pid, limit, from);
    DripAdds(end - from, d, limit);
    assert Drip(d, limit) == d * limit as real / 60.0;
  }

  // ----- One call -----

  /** Without a limit everything is admitted, and no bucket is touched. */
  lemma NoLimitAdmitsAll(buckets: map<int, Bucket>, defaultLimit: int, c: Call)
    requires c.quotaPerMinute <= 0 && defaultLimit <= 0
    ensures AnswerTo(buckets, defaultLimit, c) == Answer(true, 0) && After(buckets, defaultLimit, c) == buckets
  {
  }

  /** A bucket of x tokens at moment u is filled up by limit / 60 a second, at most to the limit; a
      call is admitted if and only if all its items, at least one, can be taken out. */
  lemma CallIsExact(buckets: map<int, Bucket>, defaultLimit: int, c: Call, limit: int, items: int, x: real, u: real)
    requires limit > 0 && limit == if c.quotaPerMinute > 0 then c.quotaPerMinute else defaultLimit
    requires items == if c.n < 1 then 1 else c.n
    requires if c.pid in buckets then buckets[c.pid] == Bucket(x, u) else x == limit as real && u == c.now
    ensures var filled := x + (c.now - u) * (limit as real / 60.0);
      var full := limit as real;
      var a, left := AnswerTo(buckets, defaultLimit, c), if filled < full then filled else full;
      && (a.allowed <==> items as real <= left)
      && After(buckets, defaultLimit, c) ==
           buckets[c.pid := Bucket(if a.allowed then left - items as real else left, c.now)]
  {
    hide Seconds, Available, Drip;
    AvailableIsFilled(buckets, c.pid, limit, c.now, x, u);
  }

  lemma AvailableIsFilled(buckets: map<int, Bucket>, pid: int, limit: int, now: real, x: real, u: real)
    requires if pid in buckets then buckets[pid] == Bucket(x, u) else x == limit as real && u == now
    ensures Available(buckets, pid, limit, now) == Min(limit as real, x + (now - u) * (limit as real / 60.0))
  {
    var rate := limit as real / 60.0;
    assert Drip(now - u, limit) == (now - u) * rate;
    hide Drip;
    if pid !in buckets {
      NoTimeNoDrip(now - u, rate);
    }
  }

  lemma NoTimeNoDrip(t: real, rate: real)
    requires t == 0.0
    ensures t * rate == 0.0
  {
  }

  /** A full bucket, of a project not seen before or not seen for a minute, admits a call if and
      only if it has no more items than the limit. */
  lemma FullBucketAdmits(buckets: map<int, Bucket>, defaultLimit: int, c: Call, limit: int)
    requires limit > 0 && limit == if c.quotaPerMinute > 0 then c.quotaPerMinute else defaultLimit
    requires InRange(buckets, c.pid, limit, c.now)
    requires c.pid in buckets ==> c.now >= buckets[c.pid].lastUpdate + 60.0
    ensures AnswerTo(buckets, defaultLimit, c).allowed <==> c.n <= limit
  {
    hide Drip, Seconds;
    if c.pid in buckets {
      DripAdds(60.0, c.now - buckets[c.pid].lastUpdate, limit);
    }
  }

  // ----- Retry-After -----

  /** No call of the run is admitted for the project. */
  predicate AllRefused(buckets: map<int, Bucket>, defaultLimit: int, calls: seq<Call>, pid: int)
    decreases |calls|
  {
    calls != [] ==>
      && (calls[0].pid == pid ==> !AnswerTo(buckets, defaultLimit, calls[0]).allowed)
      && AllRefused(After(buckets, defaultLimit, calls[0]), defaultLimit, calls[1..], pid)
  }

  /** A refused attempt costs nothing: what is available later does not depend on it. */
  lemma RefusalIsFree(buckets: map<int, Bucket>, defaultLimit: int, c: Call, pid: int, limit: int, later: real)
    requires limit > 0 && c.now <= later
    requires c.pid == pid ==>
      LimitOf(c.quotaPerMinute, defaultLimit) == limit && !AnswerTo(buckets, defaultLimit, c).allowed
    ensures Available(After(buckets, defaultLimit, c), pid, limit, later) == Available(buckets, pid, limit, later)
  {
    hide Drip;
    if c.pid == pid {
      DripAdds(0.0, later - c.now, limit);
      if pid in buckets {
        var last := buckets[pid].lastUpdate;
        DripAdds(c.now - last, later - c.now, limit);
        assert c.now - last + (later - c.now) == later - last;
      }
    }
  }

  lemma {:induction false} TimedEndsLate(calls: seq<Call>, start: real, end: real)
    requires Timed(calls, start, end)
    ensures start <= end
  {
    if calls != [] {
      TimedEndsLate(calls[1..], calls[0].now, end);
    }
  }

  lemma {:induction false} RefusalsAreFree(buckets: map<int, Bucket>, defaultLimit: int, calls: seq<Call>, pid: int,
          limit: int, start: real, later: real)
    requires limit > 0 && LimitIs(calls, defaultLimit, pid, limit)
    requires Timed(calls, start, later) && AllRefused(buckets, defaultLimit, calls, pid)
    ensures Available(Run(buckets, defaultLimit, calls), pid, limit, later) == Available(buckets, pid, limit, later)
    decreases |calls|
  {
    hide After, Available, AnswerTo;
    if calls != [] {
      var c := calls[0];
      assert c in calls;
      TimedEndsLate(calls[1..], c.now, later);
      RefusalIsFree(buckets, defaultLimit, c, pid, limit, later);
      RefusalsAreFree(After(buckets, defaultLimit, c), defaultLimit, calls[1..], pid, limit, c.now, later);
    }
  }

  /** When a refused call that a full bucket could pay for comes back t seconds later, any real
      number of them, without admissions in between: it is admitted exactly from the moment on when
      what was missing has dripped in. Attempts refused meanwhile, and other projects, do not
      matter. */
  lemma RetryIsExact(
      buckets: map<int, Bucket>, defaultLimit: int, c: Call, waiting: seq<Call>, limit: int, t: real)
    requires limit == LimitOf(c.quotaPerMinute, defaultLimit) && limit > 0
    requires InRange(buckets, c.pid, limit, c.now) && c.n <= limit
    requires !AnswerTo(buckets, defaultLimit, c).allowed
    requires Timed(waiting, c.now, c.now + t) && LimitIs(waiting, defaultLimit, c.pid, limit)
    requires AllRefused(After(buckets, defaultLimit, c), defaultLimit, waiting, c.pid)
    ensures var later := Run(After(buckets, defaultLimit, c), defaultLimit, waiting);
      var retried := AnswerTo(later, defaultLimit, c.(now := c.now + t));
      retried.allowed <==> Cost(c.n) - Available(buckets, c.pid, limit, c.now) <= Drip(t, limit)
  {
    hide Drip, Seconds, Run, Timed, LimitIs, AllRefused;
    var next := After(buckets, defaultLimit, c);
    var now := Available(buckets, c.pid, limit, c.now);
    var at := c.now + t;
    RefusalsAreFree(next, defaultLimit, waiting, c.pid, limit, c.now, at);
    AvailableInRange(buckets, c.pid, limit, c.now);
    assert next[c.pid] == Bucket(now, c.now);
    assert at - c.now == t;
    assert Available(next, c.pid, limit, at) == Min(limit as real, now + Drip(t, limit));
  }

  /** The advice is the least number of whole seconds that is enough, and the cap of 60 never
      shortens the wait. */
  lemma AdviceIsLeast(missing: real, limit: int, t: real)
    requires limit > 0 && 0.0 < missing <= limit as real
    ensures t >= Wait(missing, limit) as real ==> missing <= Drip(t, limit)
    ensures t <= Wait(missing, limit) as real - 1.0 ==> missing > Drip(t, limit)
    ensures 1 <= Wait(missing, limit) <= 60
  {
    hide Drip, Seconds;
    var w := Wait(missing, limit);
    SecondsIsLeast(missing, limit, 0);
    SecondsIsLeast(missing, limit, 60);
    SecondsIsLeast(missing, limit, w);
    SecondsIsLeast(missing, limit, w - 1);
    DripAdds(0.0, 60.0, limit);
    DripAdds(w as real, t, limit);
    DripAdds(t, (w - 1) as real, limit);
  }

  /** The advice is sound and as short as whole seconds allow: the refused call is admitted when it
      comes back at any moment from its Retry-After on, and refused up to a second before. */
  lemma RetryAfterIsExact(
      buckets: map<int, Bucket>, defaultLimit: int, c: Call, waiting: seq<Call>, limit: int, t: real)
    requires limit == LimitOf(c.quotaPerMinute, defaultLimit) && limit > 0
    requires InRange(buckets, c.pid, limit, c.now) && c.n <= limit
    requires !AnswerTo(buckets, defaultLimit, c).allowed
    requires Timed(waiting, c.now, c.now + t) && LimitIs(waiting, defaultLimit, c.pid, limit)
    requires AllRefused(After(buckets, defaultLimit, c), defaultLimit, waiting, c.pid)
    ensures var later := Run(After(buckets, defaultLimit, c), defaultLimit, waiting);
      var retried := AnswerTo(later, defaultLimit, c.(now := c.now + t));
      var advice := AnswerTo(buckets, defaultLimit, c).retryAfter;
      && (t >= advice as real ==> retried.allowed)
      && (t <= advice as real - 1.0 ==> !retried.allowed)
  {
    hide Drip, Run, Timed, LimitIs, AllRefused, Wait;
    AvailableInRange(buckets, c.pid, limit, c.now);
    RetryIsExact(buckets, defaultLimit, c, waiting, limit, t);
    AdviceIsLeast(Cost(c.n) - Available(buckets, c.pid, limit, c.now), limit, t);
  }

  /** At whole seconds: admitted if and only if they are at least the Retry-After. */
  lemma RetryAtWholeSeconds(
      buckets: map<int, Bucket>, defaultLimit: int, c: Call, waiting: seq<Call>, limit: int, s: int)
    requires limit == LimitOf(c.quotaPerMinute, defaultLimit) && limit > 0
    requires InRange(buckets, c.pid, limit, c.now) && c.n <= limit
    requires !AnswerTo(buckets, defaultLimit, c).allowed
    requires Timed(waiting, c.now, c.now + s as real) && LimitIs(waiting, defaultLimit, c.pid, limit)
    requires AllRefused(After(buckets, defaultLimit, c), defaultLimit, waiting, c.pid)
    ensures var later := Run(After(buckets, defaultLimit, c), defaultLimit, waiting);
      var retried := AnswerTo(later, defaultLimit, c.(now := c.now + s as real));
      retried.allowed <==> AnswerTo(buckets, defaultLimit, c).retryAfter <= s
  {
    hide Drip, Run, Timed, LimitIs, AllRefused, AnswerTo;
    RetryAfterIsExact(buckets, defaultLimit, c, waiting, limit, s as real);
  }

  /** A call that costs more than a full bucket is refused in every run, though it too is told
      to try again. */
  lemma TooBigIsNeverAdmitted(defaultLimit: int, calls: seq<Call>, c: Call, limit: int, start: real)
    requires limit == LimitOf(c.quotaPerMinute, defaultLimit) && limit > 0 && c.n > limit
    requires Timed(calls, start, c.now) && LimitIs(calls, defaultLimit, c.pid, limit)
    ensures var a := AnswerTo(Run(map[], defaultLimit, calls), defaultLimit, c);
      !a.allowed && 1 <= a.retryAfter <= 60
    ensures var buckets := Run(map[], defaultLimit, calls);
      c.n as real - Available(buckets, c.pid, limit, c.now) > limit as real ==>
        AnswerTo(buckets, defaultLimit, c).retryAfter == 60
  {
    hide Drip, Seconds;
    SecondsIsLeast(c.n as real - Available(Run(map[], defaultLimit, calls), c.pid, limit, c.now), limit, 59);
    DripAdds(59.0, 60.0, limit);
    RunKeepsRange(map[], defaultLimit, calls, c.pid, limit, start, c.now);
    AvailableInRange(Run(map[], defaultLimit, calls), c.pid, limit, c.now);
  }
}
