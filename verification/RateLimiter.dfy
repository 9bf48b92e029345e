/** The token-bucket rate limiter: lazy refill on each call, background eviction of idle buckets. */
module RateLimiting {
  /** Seconds without a call after which cleanup drops a bucket. */
  const IDLE_LIMIT := 300.0

  datatype Config = Config(rate: real, capacity: real)
  datatype Bucket = Bucket(tokens: real, lastSeen: real)

  /** What happens to a limiter: a request of one client, or a sweep of the cleaner. */
  datatype Event = Call(key: string, at: real) | Cleanup(at: real)

  /** The state and the answers so far; a sweep occupies an answer slot holding false. */
  datatype Trace = Trace(buckets: map<string, Bucket>, answers: seq<bool>)

  /** The tokens that accrue over a span of time. */
  function Earned(c: Config, span: real): real {
    span * c.rate
  }

  function Refilled(c: Config, b: Bucket, now: real): real {
    var t := b.tokens + Earned(c, now - b.lastSeen);
    if t > c.capacity then c.capacity else t
  }

  /** The bucket and the answer after one request. */
  function Spend(c: Config, b: Bucket, now: real): (Bucket, bool) {
    var t := Refilled(c, b, now);
    if t < 1.0 then (Bucket(t, now), false) else (Bucket(t - 1.0, now), true)
  }

  function AllowStep(c: Config, buckets: map<string, Bucket>, key: string, now: real): (map<string, Bucket>, bool) {
    var (b, ok) := Spend(c, if key in buckets then buckets[key] else Bucket(c.capacity, now), now);
    (buckets[key := b], ok)
  }

  predicate Idle(b: Bucket, now: real) {
    now - b.lastSeen > IDLE_LIMIT
  }

  function Evict(buckets: map<string, Bucket>, now: real): map<string, Bucket> {
    map k | k in buckets && !Idle(buckets[k], now) :: buckets[k]
  }

  class RateLimiter {
    const config: Config
    var buckets: map<string, Bucket>

    constructor (rate: real, capacity: real)
      ensures config == Config(rate, capacity) && buckets == map[]
    {
      config := Config(rate, capacity);
      buckets := map[];
    }

    /** Go's Allow, with the clock reading as a parameter. */
    method Allow(key: string, now: real) returns (ok: bool)
      modifies this
      ensures (buckets, ok) == AllowStep(config, old(buckets), key, now)
    {
      ghost var before := if key in buckets then buckets[key] else Bucket(config.capacity, now);
      if key !in buckets {
        buckets := buckets[key := Bucket(config.capacity, now)];
      }
      var b := buckets[key];
      var elapsed := now - b.lastSeen;
      assert elapsed * config.rate == Earned(config, now - before.lastSeen);
      b := b.(tokens := b.tokens + elapsed * config.rate);
      if b.tokens > config.capacity {
        b := b.(tokens := config.capacity);
      }
      b := b.(lastSeen := now);
      buckets := buckets[key := b];
      assert b == Bucket(Refilled(config, before, now), now);
      assert buckets == old(buckets)[key := b];
      if b.tokens < 1.0 {
        return false;
      }
      b := b.(tokens := b.tokens - 1.0);
      buckets := buckets[key := b];
      assert buckets == old(buckets)[key := b];
      return true;
    }

    /** Go's cleanup: a pass over the keys in any order. */
    method Cleanup(now: real)
      modifies this
      ensures buckets == Evict(old(buckets), now)
    {
      var todo := buckets.Keys;
      while todo != {}
        invariant todo <= old(buckets).Keys && buckets.Keys <= old(buckets).Keys
        invariant forall k :: k in todo ==> k in buckets
        invariant forall k :: k in buckets ==> buckets[k] == old(buckets)[k]
        invariant forall k :: k in old(buckets) && k !in todo ==> (k in buckets <==> !Idle(old(buckets)[k], now))
        decreases |todo|
      {
        var k :| k in todo;
        todo := todo - {k};
        if Idle(buckets[k], now) {
          buckets := buckets - {k};
        }
      }
    }
  }

  /** The limiter started empty and driven by the events; without eviction a sweep does nothing. */
  function Run(c: Config, events: seq<Event>, evict: bool): (r: Trace)
    ensures |r.answers| == |events|
  {
    if events == [] then Trace(map[], [])
    else
      var before := Run(c, events[..|events| - 1], evict);
      match events[|events| - 1]
      case Call(k, t) =>
        var (b, ok) := AllowStep(c, before.buckets, k, t);
        Trace(b, before.answers + [ok])
      case Cleanup(t) =>
        Trace(if evict then Evict(before.buckets, t) else before.buckets, before.answers + [false])
  }

  function Answers(c: Config, events: seq<Event>, evict: bool): (r: seq<bool>)
    ensures |r| == |events|
  {
    Run(c, events, evict).answers
  }

  predicate IsCallOf(e: Event, key: string) {
    e.Call? && e.key == key
  }

  /** How many calls of the key were let through among events j, ..., n - 1. */
  function Admitted(events: seq<Event>, answers: seq<bool>, key: string, j: nat, n: nat): nat
    requires j <= n <= |events| == |answers|
  {
    if j == n then 0
    else Admitted(events, answers, key, j, n - 1) + if IsCallOf(events[n - 1], key) && answers[n - 1] then 1 else 0
  }

  /** The budget that the window opening at call j leaves to call n. */
  ghost predicate FitsWindow(c: Config, events: seq<Event>, answers: seq<bool>, j: nat, n: nat)
    requires j <= n < |events| == |answers| && events[n].Call?
  {
    Admitted(events, answers, events[n].key, j, n) as real + 1.0
      <= c.capacity + Earned(c, events[n].at - events[j].at)
  }

  ghost predicate Law(c: Config, events: seq<Event>, answers: seq<bool>, n: nat)
    requires n < |events| == |answers| && events[n].Call?
  {
    answers[n] <==>
    forall j {:trigger FitsWindow(c, events, answers, j, n)} ::
      0 <= j <= n && IsCallOf(events[j], events[n].key) ==> FitsWindow(c, events, answers, j, n)
  }

  ghost predicate Ordered(events: seq<Event>) {
    forall i, j :: 0 <= i <= j < |events| ==> events[i].at <= events[j].at
  }

  lemma {:induction false} PrefixAnswers(c: Config, events: seq<Event>, evict: bool, n: nat)
    requires n <= |events|
    ensures Answers(c, events[..n], evict) == Answers(c, events, evict)[..n]
    decreases |events|
  {
    if n < |events| {
      var p := events[..|events| - 1];
      assert p[..n] == events[..n];
      PrefixAnswers(c, p, evict, n);
    } else {
      assert events[..n] == events;
    }
  }

  lemma {:induction false} AdmittedPrefix(events: seq<Event>, answers: seq<bool>, key: string, j: nat, n: nat, m: nat)
    requires j <= n <= m <= |events| == |answers|
    ensures Admitted(events[..m], answers[..m], key, j, n) == Admitted(events, answers, key, j, n)
  {
    if j < n {
      AdmittedPrefix(events, answers, key, j, n - 1, m);
    }
  }

  // ---- The only facts about the product of time and rate; the proofs below use nothing else of it ----

  lemma {:induction false} EarnedAdds(c: Config, a: real, b: real)
    ensures Earned(c, a + b) == Earned(c, a) + Earned(c, b)
  {
  }

  lemma {:induction false} EarnedNothing(c: Config)
    ensures Earned(c, 0.0) == 0.0
  {
  }

  lemma {:induction false} EarnedGrows(c: Config, a: real, b: real)
    requires c.rate >= 0.0 && a <= b
    ensures Earned(c, a) <= Earned(c, b)
  {
    assert (b - a) * c.rate >= 0.0;
  }

  // ---- The exact law, first without eviction ----

  /** What the window opening at call j still leaves to the key at a later moment. */
  ghost function Budget(c: Config, events: seq<Event>, answers: seq<bool>, key: string, now: real, j: nat): real
    requires j < |events| == |answers|
  {
    c.capacity + Earned(c, now - events[j].at) - Admitted(events, answers, key, j, |events|) as real
  }

  ghost predicate AtMostBudgets(c: Config, events: seq<Event>, answers: seq<bool>, key: string, b: Bucket)
    requires |events| == |answers|
  {
    forall j :: 0 <= j < |events| && IsCallOf(events[j], key) ==>
      b.tokens <= Budget(c, events, answers, key, b.lastSeen, j)
  }

  ghost predicate IsBudgetOf(c: Config, events: seq<Event>, answers: seq<bool>, key: string, b: Bucket, j: int)
    requires |events| == |answers|
  {
    0 <= j < |events| && IsCallOf(events[j], key) && b.tokens == Budget(c, events, answers, key, b.lastSeen, j)
  }

  /** A bucket holds the tightest budget over all calls of its key. */
  ghost predicate Tightest(c: Config, events: seq<Event>, answers: seq<bool>, key: string, b: Bucket)
    requires |events| == |answers|
  {
    && AtMostBudgets(c, events, answers, key, b)
    && exists j :: IsBudgetOf(c, events, answers, key, b, j)
  }

  ghost predicate BucketsAreTight(c: Config, events: seq<Event>, r: Trace)
    requires |events| == |r.answers|
  {
    && (forall k :: k in r.buckets ==> Tightest(c, events, r.answers, k, r.buckets[k]))
    && (forall k, j :: 0 <= j < |events| && IsCallOf(events[j], k) ==> k in r.buckets)
  }

  lemma {:induction false} BudgetAfter(c: Config, events: seq<Event>, answers: seq<bool>, e: Event, ok: bool, k: string,
                                       now: real, j: nat)
    requires j < |events| == |answers|
    ensures Budget(c, events + [e], answers + [ok], k, now, j)
         == Budget(c, events, answers, k, now, j) - (if IsCallOf(e, k) && ok then 1.0 else 0.0)
  {
    hide Earned;
    var es, ans := events + [e], answers + [ok];
    assert es[..|events|] == events && ans[..|events|] == answers;
    AdmittedPrefix(es, ans, k, j, |events|, |events|);
  }

  lemma {:induction false} BudgetLater(c: Config, events: seq<Event>, answers: seq<bool>, k: string, a: real, b: real,
                                       j: nat)
    requires j < |events| == |answers|
    ensures Budget(c, events, answers, k, b, j) == Budget(c, events, answers, k, a, j) + Earned(c, b - a)
  {
    hide Earned;
    EarnedAdds(c, b - a, a - events[j].at);
    assert (b - a) + (a - events[j].at) == b - events[j].at;
  }

  /** The window test at a fresh call reads off the budget. */
  lemma {:induction false} FitsBudget(c: Config, events: seq<Event>, answers: seq<bool>, key: string, now: real,
                                      ok: bool, j: nat)
    requires j < |events| == |answers|
    ensures FitsWindow(c, events + [Call(key, now)], answers + [ok], j, |events|)
       <==> 1.0 <= Budget(c, events, answers, key, now, j)
  {
    hide Earned;
    var es, ans := events + [Call(key, now)], answers + [ok];
    assert es[..|events|] == events && ans[..|events|] == answers;
    AdmittedPrefix(es, ans, key, j, |events|, |events|);
  }

  /** An event that is no call of the key leaves the bucket of the key tight. */
  lemma {:induction false} TightFrame(c: Config, events: seq<Event>, answers: seq<bool>, e: Event, ok: bool, k: string,
                                      b: Bucket)
    requires |events| == |answers| && !IsCallOf(e, k)
    requires Tightest(c, events, answers, k, b)
    ensures Tightest(c, events + [e], answers + [ok], k, b)
  {
    hide Earned;
    forall j | 0 <= j < |events|
      ensures Budget(c, events + [e], answers + [ok], k, b.lastSeen, j) == Budget(c, events, answers, k, b.lastSeen, j)
    {
      BudgetAfter(c, events, answers, e, ok, k, b.lastSeen, j);
    }
    var j :| IsBudgetOf(c, events, answers, k, b, j);
    assert IsBudgetOf(c, events + [e], answers + [ok], k, b, j);
  }

  /** The refilled level at a new call: below every budget, and equal to one unless the bucket is full. */
  lemma {:induction false} RefillIsTight(c: Config, events: seq<Event>, answers: seq<bool>, key: string, b: Bucket,
                                         now: real)
    requires |events| == |answers| && Tightest(c, events, answers, key, b)
    ensures var t := Refilled(c, b, now);
            && t <= c.capacity
            && AtMostBudgets(c, events, answers, key, Bucket(t, now))
            && (t == c.capacity || exists j :: IsBudgetOf(c, events, answers, key, Bucket(t, now), j))
  {
    hide Earned;
    var t := Refilled(c, b, now);
    forall j | 0 <= j < |events|
      ensures Budget(c, events, answers, key, now, j)
           == Budget(c, events, answers, key, b.lastSeen, j) + Earned(c, now - b.lastSeen)
    {
      BudgetLater(c, events, answers, key, b.lastSeen, now, j);
    }
    var j :| IsBudgetOf(c, events, answers, key, b, j);
    if t != c.capacity {
      assert IsBudgetOf(c, events, answers, key, Bucket(t, now), j);
    }
  }

  /** Spending from a level that is tight before the call keeps it tight after, and obeys the law. */
  lemma {:induction false} SpendIsTight(c: Config, events: seq<Event>, answers: seq<bool>, key: string, t: real,
                                        now: real)
    requires |events| == |answers| && t <= c.capacity
    requires AtMostBudgets(c, events, answers, key, Bucket(t, now))
    requires t == c.capacity || exists j :: IsBudgetOf(c, events, answers, key, Bucket(t, now), j)
    ensures var ok := t >= 1.0;
            && Tightest(c, events + [Call(key, now)], answers + [ok], key, Bucket(if ok then t - 1.0 else t, now))
            && Law(c, events + [Call(key, now)], answers + [ok], |events|)
  {
    hide Earned;
    var ok, n := t >= 1.0, |events|;
    var es, ans, b := events + [Call(key, now)], answers + [ok], Bucket(if ok then t - 1.0 else t, now);
    forall j | 0 <= j < n
      ensures Budget(c, es, ans, key, now, j) == Budget(c, events, answers, key, now, j) - (if ok then 1.0 else 0.0)
      ensures FitsWindow(c, es, ans, j, n) <==> 1.0 <= Budget(c, events, answers, key, now, j)
    {
      BudgetAfter(c, events, answers, Call(key, now), ok, key, now, j);
      FitsBudget(c, events, answers, key, now, ok, j);
    }
    assert Admitted(es, ans, key, n, n) == 0;
    EarnedNothing(c);
    assert Budget(c, es, ans, key, now, n) == c.capacity - (if ok then 1.0 else 0.0);
    assert FitsWindow(c, es, ans, n, n) <==> 1.0 <= c.capacity;
    if t == c.capacity {
      assert IsBudgetOf(c, es, ans, key, b, n);
    } else {
      var j :| IsBudgetOf(c, events, answers, key, Bucket(t, now), j);
      assert IsBudgetOf(c, es, ans, key, b, j);
      assert !ok ==> !FitsWindow(c, es, ans, j, n);
    }
  }

  lemma {:induction false} FreshIsFull(c: Config, now: real)
    ensures Refilled(c, Bucket(c.capacity, now), now) == c.capacity
  {
    hide Earned;
    EarnedNothing(c);
  }

  lemma {:induction false} CallStep(c: Config, events: seq<Event>, r: Trace, key: string, now: real)
    requires |events| == |r.answers| && BucketsAreTight(c, events, r)
    ensures var (buckets, ok) := AllowStep(c, r.buckets, key, now);
            && Tightest(c, events + [Call(key, now)], r.answers + [ok], key, buckets[key])
            && Law(c, events + [Call(key, now)], r.answers + [ok], |events|)
  {
    hide Earned;
    if key in r.buckets {
      RefillIsTight(c, events, r.answers, key, r.buckets[key], now);
      SpendIsTight(c, events, r.answers, key, Refilled(c, r.buckets[key], now), now);
    } else {
      FreshIsFull(c, now);
      SpendIsTight(c, events, r.answers, key, c.capacity, now);
    }
  }

  lemma {:induction false} RunIsTight(c: Config, events: seq<Event>)
    ensures BucketsAreTight(c, events, Run(c, events, false))
  {
    hide Earned;
    if events != [] {
      var p, e := events[..|events| - 1], events[|events| - 1];
      var before, r := Run(c, p, false), Run(c, events, false);
      RunIsTight(c, p);
      var ok := r.answers[|p|];
      assert events == p + [e] && r.answers == before.answers + [ok];
      if e.Call? {
        CallStep(c, p, before, e.key, e.at);
      }
      forall k | k in r.buckets
        ensures Tightest(c, events, r.answers, k, r.buckets[k])
      {
        if !IsCallOf(e, k) {
          TightFrame(c, p, before.answers, e, ok, k, before.buckets[k]);
        }
      }
      forall k, j | 0 <= j < |events| && IsCallOf(events[j], k)
        ensures k in r.buckets
      {
        if j < |p| {
          assert IsCallOf(p[j], k);
        }
      }
    }
  }

  /** Whether the law holds at an event is settled by the events up to it. */
  lemma {:induction false} LawOfPrefix(c: Config, events: seq<Event>, answers: seq<bool>, n: nat)
    requires n < |events| == |answers| && events[n].Call?
    requires Law(c, events[..n + 1], answers[..n + 1], n)
    ensures Law(c, events, answers, n)
  {
    hide Earned;
    var es, ans := events[..n + 1], answers[..n + 1];
    forall j | 0 <= j <= n && IsCallOf(events[j], events[n].key)
      ensures FitsWindow(c, es, ans, j, n) <==> FitsWindow(c, events, answers, j, n)
    {
      AdmittedPrefix(events, answers, events[n].key, j, n, n + 1);
    }
    if answers[n] {
      forall j | 0 <= j <= n && IsCallOf(events[j], events[n].key)
        ensures FitsWindow(c, events, answers, j, n)
      {
        assert IsCallOf(es[j], es[n].key) && FitsWindow(c, es, ans, j, n);
      }
    } else {
      var j :| 0 <= j <= n && IsCallOf(es[j], es[n].key) && !FitsWindow(c, es, ans, j, n);
      assert !FitsWindow(c, events, answers, j, n);
    }
  }

  lemma {:induction false} LawWithoutEviction(c: Config, events: seq<Event>, n: nat)
    requires n < |events| && events[n].Call?
    ensures Law(c, events, Answers(c, events, false), n)
  {
    hide Earned;
    var p, q := events[..n], events[..n + 1];
    RunIsTight(c, p);
    CallStep(c, p, Run(c, p, false), events[n].key, events[n].at);
    assert q == p + [events[n]] && q[..n] == p;
    PrefixAnswers(c, events, false, n + 1);
    LawOfPrefix(c, events, Answers(c, events, false), n);
  }

  // ---- Eviction is invisible exactly when an idle bucket has time to fill up ----

  /** Enough idle time to refill any bucket before it may be evicted. */
  ghost predicate FillsBeforeEviction(c: Config) {
    Earned(c, IDLE_LIMIT) >= c.capacity
  }

  ghost predicate WellFormed(c: Config) {
    c.rate >= 0.0 && c.capacity >= 0.0
  }

  ghost predicate Sees(kept: map<string, Bucket>, evicted: map<string, Bucket>, now: real) {
    && evicted.Keys <= kept.Keys
    && (forall k :: k in evicted ==> evicted[k] == kept[k])
    && (forall k :: k in kept ==> kept[k].tokens >= 0.0 && kept[k].lastSeen <= now)
    && (forall k :: k in kept && k !in evicted ==> Idle(kept[k], now))
  }

  /** A bucket idle long enough to be evicted answers like a fresh one. */
  lemma {:induction false} LongIdleIsFull(c: Config, b: Bucket, now: real)
    requires WellFormed(c) && FillsBeforeEviction(c) && b.tokens >= 0.0 && Idle(b, now)
    ensures Spend(c, b, now) == Spend(c, Bucket(c.capacity, now), now)
  {
    hide Earned;
    EarnedGrows(c, IDLE_LIMIT, now - b.lastSeen);
    FreshIsFull(c, now);
  }

  lemma {:induction false} NeverInDebt(c: Config, b: Bucket, now: real)
    requires WellFormed(c) && b.tokens >= 0.0 && b.lastSeen <= now
    ensures var after := Spend(c, b, now).0; after.tokens >= 0.0 && after.lastSeen == now
  {
    hide Earned;
    EarnedGrows(c, 0.0, now - b.lastSeen);
    EarnedNothing(c);
  }

  /** One event answered by a limiter that has evicted as by one that has not. */
  lemma {:induction false} SimulationStep(c: Config, kept: map<string, Bucket>, evicted: map<string, Bucket>,
                                          key: string, now: real)
    requires WellFormed(c) && FillsBeforeEviction(c) && Sees(kept, evicted, now)
    ensures var (k, okK) := AllowStep(c, kept, key, now);
            var (e, okE) := AllowStep(c, evicted, key, now);
            okK == okE && Sees(k, e, now)
  {
    hide Earned;
    var full := Bucket(c.capacity, now);
    NeverInDebt(c, if key in kept then kept[key] else full, now);
    if key in kept && key !in evicted {
      LongIdleIsFull(c, kept[key], now);
    }
  }

  lemma {:induction false} EvictionSimulation(c: Config, events: seq<Event>, now: real)
    requires WellFormed(c) && FillsBeforeEviction(c) && Ordered(events)
    requires events != [] ==> events[|events| - 1].at <= now
    ensures Sees(Run(c, events, false).buckets, Run(c, events, true).buckets, now)
    ensures Answers(c, events, false) == Answers(c, events, true)
  {
    hide Earned;
    if events != [] {
      var p, e := events[..|events| - 1], events[|events| - 1];
      EvictionSimulation(c, p, e.at);
      if e.Call? {
        SimulationStep(c, Run(c, p, false).buckets, Run(c, p, true).buckets, e.key, e.at);
      }
    }
  }

  /** The law of the limiter as it is run, sweeps at any moment included. */
  lemma {:induction false} ExactLaw(c: Config, events: seq<Event>, n: nat)
    requires WellFormed(c) && FillsBeforeEviction(c) && Ordered(events)
    requires n < |events| && events[n].Call?
    ensures Law(c, events, Answers(c, events, true), n)
  {
    hide Earned;
    EvictionSimulation(c, events, events[|events| - 1].at);
    LawWithoutEviction(c, events, n);
  }

  /** No stretch of events lets a client through more often than the burst plus the refill of its duration. */
  lemma {:induction false} WindowBound(c: Config, events: seq<Event>, key: string, i: nat, n: nat)
    requires WellFormed(c) && FillsBeforeEviction(c) && Ordered(events)
    requires i < n <= |events| && IsCallOf(events[i], key)
    ensures Admitted(events, Answers(c, events, true), key, i, n) as real
         <= c.capacity + Earned(c, events[n - 1].at - events[i].at)
  {
    hide Earned;
    var ans := Answers(c, events, true);
    var e := events[n - 1];
    if IsCallOf(e, key) && ans[n - 1] {
      ExactLaw(c, events, n - 1);
      assert FitsWindow(c, events, ans, i, n - 1);
    } else if i + 1 < n {
      WindowBound(c, events, key, i, n - 1);
      EarnedGrows(c, events[n - 2].at - events[i].at, e.at - events[i].at);
      assert Admitted(events, ans, key, i, n) == Admitted(events, ans, key, i, n - 1);
    } else {
      EarnedNothing(c);
      assert Admitted(events, ans, key, i, n) == Admitted(events, ans, key, i, i) == 0;
    }
  }

  // ---- A client is answered from its own calls alone ----

  function OwnCalls(events: seq<Event>, key: string): seq<Event> {
    if events == [] then []
    else
      var e := events[|events| - 1];
      OwnCalls(events[..|events| - 1], key) + if IsCallOf(e, key) then [e] else []
  }

  function OwnAnswers(events: seq<Event>, answers: seq<bool>, key: string): seq<bool>
    requires |events| == |answers|
  {
    if events == [] then []
    else
      var n := |events| - 1;
      OwnAnswers(events[..n], answers[..n], key) + if IsCallOf(events[n], key) then [answers[n]] else []
  }

  lemma {:induction false} AloneWithoutEviction(c: Config, events: seq<Event>, key: string)
    ensures var all, alone := Run(c, events, false), Run(c, OwnCalls(events, key), false);
            && OwnAnswers(events, all.answers, key) == alone.answers
            && (key in all.buckets <==> key in alone.buckets)
            && (key in all.buckets ==> all.buckets[key] == alone.buckets[key])
  {
    hide Earned;
    if events != [] {
      var n := |events| - 1;
      AloneWithoutEviction(c, events[..n], key);
      assert Run(c, events, false).answers[..n] == Run(c, events[..n], false).answers;
      var own := OwnCalls(events[..n], key);
      if IsCallOf(events[n], key) {
        var alone := OwnCalls(events, key);
        assert alone == own + [events[n]] && alone[..|alone| - 1] == own;
      } else {
        assert OwnCalls(events, key) == own;
      }
    }
  }

  /** Other clients' calls and the cleaner change no answer: a client is served as if it were alone. */
  lemma {:induction false} Isolation(c: Config, events: seq<Event>, key: string)
    requires WellFormed(c) && FillsBeforeEviction(c) && Ordered(events)
    ensures OwnAnswers(events, Answers(c, events, true), key) == Answers(c, OwnCalls(events, key), false)
  {
    hide Earned;
    if events != [] {
      EvictionSimulation(c, events, events[|events| - 1].at);
    }
    AloneWithoutEviction(c, events, key);
  }

  // ---- The refill condition is needed ----

  ghost predicate EvictionInvisible(c: Config) {
    forall events: seq<Event> :: Ordered(events) ==> Answers(c, events, true) == Answers(c, events, false)
  }

  lemma {:induction false} SmallBurstAdmitsNobody(c: Config, events: seq<Event>, evict: bool)
    requires c.capacity < 1.0
    ensures forall i :: 0 <= i < |events| ==> !Answers(c, events, evict)[i]
  {
    hide Earned;
    if events != [] {
      var p, e := events[..|events| - 1], events[|events| - 1];
      SmallBurstAdmitsNobody(c, p, evict);
      if e.Call? {
        var b := if e.key in Run(c, p, evict).buckets then Run(c, p, evict).buckets[e.key]
          else Bucket(c.capacity, e.at);
        assert Refilled(c, b, e.at) < 1.0;
      }
      assert Answers(c, events, evict)[..|p|] == Answers(c, p, evict);
      assert !Answers(c, events, evict)[|p|];
    }
  }

  /** The burst size in whole tokens, and the wait that turns the rest of the bucket into one token. */
  function Whole(c: Config): nat
    requires c.capacity >= 1.0
  {
    c.capacity.Floor
  }

  function Wait(c: Config): real
    requires c.rate > 0.0 && c.capacity >= 1.0
  {
    (Whole(c) as real + 1.0 - c.capacity) / c.rate
  }

  /** Empty the bucket to the last token, let it be evicted at moment s, empty it again. */
  function DrainTwice(c: Config, s: real): (events: seq<Event>)
    requires c.rate > 0.0 && c.capacity >= 1.0
    ensures |events| == 2 * Whole(c) + 3
  {
    var k := Whole(c);
    seq(2 * k + 3, i =>
      if i < k then Call("a", 0.0)
      else if i == k then Call("a", Wait(c))
      else if i == k + 1 then Cleanup(s)
      else if i < 2 * k + 2 then Call("a", s)
      else Call("a", s + Wait(c)))
  }

  lemma {:induction false} WaitEarns(c: Config)
    requires c.rate > 0.0 && c.capacity >= 1.0
    ensures Earned(c, Wait(c)) == Whole(c) as real + 1.0 - c.capacity && Wait(c) >= 0.0
  {
  }

  lemma {:induction false} WaitFillsOne(c: Config, from: real)
    requires c.rate > 0.0 && c.capacity >= 1.0
    ensures Spend(c, Bucket(c.capacity - Whole(c) as real, from), from + Wait(c)) == (Bucket(0.0, from + Wait(c)), true)
  {
    hide Earned, Wait;
    WaitEarns(c);
    assert from + Wait(c) - from == Wait(c);
  }

  /** Where the evicting limiter stands after m events of the schedule. */
  function DrainLevel(c: Config, s: real, m: nat): map<string, Bucket>
    requires c.rate > 0.0 && c.capacity >= 1.0
  {
    var k := Whole(c);
    if m == 0 || m == k + 2 then map[]
    else if m <= k then map["a" := Bucket(c.capacity - m as real, 0.0)]
    else if m == k + 1 then map["a" := Bucket(0.0, Wait(c))]
    else if m <= 2 * k + 2 then map["a" := Bucket(c.capacity - (m - k - 2) as real, s)]
    else map["a" := Bucket(0.0, s + Wait(c))]
  }

  lemma {:induction false} CallInBurst(c: Config, x: real, now: real)
    requires 1.0 <= x <= c.capacity
    ensures AllowStep(c, map["a" := Bucket(x, now)], "a", now) == (map["a" := Bucket(x - 1.0, now)], true)
    ensures x == c.capacity ==> AllowStep(c, map[], "a", now) == (map["a" := Bucket(x - 1.0, now)], true)
  {
    hide Earned;
    EarnedNothing(c);
    assert Spend(c, Bucket(x, now), now) == (Bucket(x - 1.0, now), true);
    assert map["a" := Bucket(x, now)]["a" := Bucket(x - 1.0, now)] == map["a" := Bucket(x - 1.0, now)];
  }

  lemma {:induction false} CallAfterWait(c: Config, from: real)
    requires c.rate > 0.0 && c.capacity >= 1.0
    ensures AllowStep(c, map["a" := Bucket(c.capacity - Whole(c) as real, from)], "a", from + Wait(c))
         == (map["a" := Bucket(0.0, from + Wait(c))], true)
  {
    hide Earned, Wait, Spend;
    WaitFillsOne(c, from);
    var b := Bucket(c.capacity - Whole(c) as real, from);
    assert map["a" := b]["a" := Bucket(0.0, from + Wait(c))] == map["a" := Bucket(0.0, from + Wait(c))];
  }

  lemma {:induction false} DrainStep(c: Config, s: real, m: nat)
    requires c.rate > 0.0 && c.capacity >= 1.0 && s - Wait(c) > IDLE_LIMIT && m < 2 * Whole(c) + 3
    ensures var e := DrainTwice(c, s)[m];
            match e
            case Call(key, now) => AllowStep(c, DrainLevel(c, s, m), key, now) == (DrainLevel(c, s, m + 1), true)
            case Cleanup(now) => Evict(DrainLevel(c, s, m), now) == DrainLevel(c, s, m + 1)
  {
    hide AllowStep, Wait;
    var k := Whole(c);
    if m < k {
      CallInBurst(c, c.capacity - m as real, 0.0);
    } else if m == k {
      CallAfterWait(c, 0.0);
    } else if k + 2 <= m < 2 * k + 2 {
      CallInBurst(c, c.capacity - (m - k - 2) as real, s);
    } else if m == 2 * k + 2 {
      CallAfterWait(c, s);
    }
  }

  lemma {:induction false} EvictingLimiterAdmitsAll(c: Config, s: real, m: nat)
    requires c.rate > 0.0 && c.capacity >= 1.0 && s - Wait(c) > IDLE_LIMIT && m <= 2 * Whole(c) + 3
    ensures var r := Run(c, DrainTwice(c, s)[..m], true);
            && r.buckets == DrainLevel(c, s, m)
            && forall i :: 0 <= i < m ==> r.answers[i] == (i != Whole(c) + 1)
  {
    hide Earned, AllowStep, Evict;
    if m > 0 {
      var es := DrainTwice(c, s);
      EvictingLimiterAdmitsAll(c, s, m - 1);
      assert es[..m][..m - 1] == es[..m - 1];
      DrainStep(c, s, m - 1);
    }
  }

  /** When every call is let through, the count of a stretch is its length less the sweep in it. */
  lemma {:induction false} CountAll(events: seq<Event>, answers: seq<bool>, p: nat, n: nat)
    requires n <= |events| == |answers|
    requires forall i :: 0 <= i < n ==> if i == p then events[i].Cleanup? else IsCallOf(events[i], "a") && answers[i]
    ensures Admitted(events, answers, "a", 0, n) == if n <= p then n else n - 1
  {
    if n > 0 {
      CountAll(events, answers, p, n - 1);
    }
  }

  /** Two full drains need more than the budget of the whole stretch. */
  lemma {:induction false} DrainsTooMuch(c: Config, s: real)
    requires c.rate > 0.0 && c.capacity >= 1.0 && Earned(c, s - Wait(c)) < c.capacity
    ensures c.capacity + Earned(c, s + Wait(c)) < 2.0 * Whole(c) as real + 2.0
  {
    hide Earned, Wait;
    WaitEarns(c);
    EarnedAdds(c, s - Wait(c), Wait(c));
    EarnedAdds(c, s, Wait(c));
    assert s - Wait(c) + Wait(c) == s;
  }

  lemma {:induction false} DrainTwiceDiffers(c: Config, s: real)
    requires c.rate > 0.0 && c.capacity >= 1.0 && s - Wait(c) > IDLE_LIMIT && Earned(c, s - Wait(c)) < c.capacity
    ensures Ordered(DrainTwice(c, s))
    ensures Answers(c, DrainTwice(c, s), true) != Answers(c, DrainTwice(c, s), false)
  {
    hide Earned;
    var es, k := DrainTwice(c, s), Whole(c);
    var n := 2 * k + 2;
    var kept := Answers(c, es, false);
    WaitEarns(c);
    assert es[..|es|] == es;
    EvictingLimiterAdmitsAll(c, s, |es|);
    if Answers(c, es, true) == kept {
      LawWithoutEviction(c, es, n);
      assert IsCallOf(es[0], "a") && FitsWindow(c, es, kept, 0, n);
      CountAll(es, kept, k + 1, n);
      DrainsTooMuch(c, s);
      assert false;
    }
  }

  /** With no refill at all: a spent bucket that is evicted comes back full. */
  function DrainOnce(c: Config): (events: seq<Event>)
    requires c.capacity >= 1.0
    ensures |events| == Whole(c) + 2
  {
    var k := Whole(c);
    seq(k + 2, i => if i < k then Call("a", 0.0) else if i == k then Cleanup(301.0) else Call("a", 301.0))
  }

  lemma {:induction false} DrainOnceRuns(c: Config, m: nat)
    requires c.rate == 0.0 && c.capacity >= 1.0 && m <= Whole(c) + 1
    ensures var r := Run(c, DrainOnce(c)[..m], true);
            && r.buckets == (if m == 0 || m == Whole(c) + 1 then map[]
                             else map["a" := Bucket(c.capacity - m as real, 0.0)])
            && forall i :: 0 <= i < m ==> r.answers[i] == (i != Whole(c))
  {
    hide Earned;
    if m > 0 {
      var es := DrainOnce(c);
      DrainOnceRuns(c, m - 1);
      assert es[..m][..m - 1] == es[..m - 1];
      if m <= Whole(c) {
        CallInBurst(c, c.capacity - (m - 1) as real, 0.0);
      }
    }
  }

  lemma {:induction false} DrainOnceDiffers(c: Config)
    requires c.rate == 0.0 && c.capacity >= 1.0
    ensures Ordered(DrainOnce(c))
    ensures Answers(c, DrainOnce(c), true) != Answers(c, DrainOnce(c), false)
  {
    var es, k := DrainOnce(c), Whole(c);
    var kept := Answers(c, es, false);
    DrainOnceRuns(c, k + 1);
    FreshIsFull(c, 301.0);
    assert es[..|es| - 1] == es[..k + 1];
    assert Answers(c, es, true)[k + 1];
    PrefixAnswers(c, es, true, k + 1);
    if Answers(c, es, true) == kept {
      LawWithoutEviction(c, es, k + 1);
      assert IsCallOf(es[0], "a") && FitsWindow(c, es, kept, 0, k + 1);
      forall i | 0 <= i < k
        ensures kept[i]
      {
        assert kept[i] == kept[..k + 1][i];
      }
      CountAll(es, kept, k, k + 1);
      assert false;
    }
  }

  /** An idle time just beyond the limit that still does not fill the bucket. */
  lemma {:induction false} ShortGap(c: Config) returns (gap: real)
    requires c.rate > 0.0 && !FillsBeforeEviction(c)
    ensures gap > IDLE_LIMIT && Earned(c, gap) < c.capacity
  {
    var q := (c.capacity - Earned(c, IDLE_LIMIT)) / c.rate;
    assert q * c.rate == c.capacity - Earned(c, IDLE_LIMIT) > 0.0;
    assert q > 0.0 by {
      if q <= 0.0 {
        EarnedGrows(c, q, 0.0);
      }
    }
    gap := IDLE_LIMIT + q / 2.0;
    EarnedAdds(c, q / 2.0, q / 2.0);
    EarnedAdds(c, IDLE_LIMIT, q / 2.0);
  }

  /**
   * Eviction changes no answer of any run exactly when an idle bucket refills in time, or nobody is ever let through.
   */
  lemma {:induction false} EvictionInvisibleExactly(c: Config)
    requires WellFormed(c)
    ensures EvictionInvisible(c) <==> FillsBeforeEviction(c) || c.capacity < 1.0
  {
    hide Earned;
    if FillsBeforeEviction(c) {
      forall events: seq<Event> | Ordered(events)
        ensures Answers(c, events, true) == Answers(c, events, false)
      {
        if events != [] {
          EvictionSimulation(c, events, events[|events| - 1].at);
        }
      }
    } else if c.capacity < 1.0 {
      forall events: seq<Event>
        ensures Answers(c, events, true) == Answers(c, events, false)
      {
        SmallBurstAdmitsNobody(c, events, true);
        SmallBurstAdmitsNobody(c, events, false);
      }
    } else if c.rate == 0.0 {
      DrainOnceDiffers(c);
    } else {
      var gap := ShortGap(c);
      DrainTwiceDiffers(c, Wait(c) + gap);
    }
  }

  /** The limiters the service configures: 2 tokens a second up to 100, and 1 in 10 seconds up to 5. */
  const GENERAL := Config(2.0, 100.0)
  const AUTH := Config(0.1, 5.0)

  /** Both are immune to eviction, so both obey the window bound. */
  lemma {:induction false} ConfiguredLimiters(events: seq<Event>, key: string, i: nat, n: nat)
    requires Ordered(events) && i < n <= |events| && IsCallOf(events[i], key)
    ensures EvictionInvisible(GENERAL) && EvictionInvisible(AUTH)
    ensures Admitted(events, Answers(GENERAL, events, true), key, i, n) as real
         <= 100.0 + (events[n - 1].at - events[i].at) * 2.0
    ensures Admitted(events, Answers(AUTH, events, true), key, i, n) as real
         <= 5.0 + (events[n - 1].at - events[i].at) * 0.1
  {
    EvictionInvisibleExactly(GENERAL);
    EvictionInvisibleExactly(AUTH);
    WindowBound(GENERAL, events, key, i, n);
    WindowBound(AUTH, events, key, i, n);
  }

  // ---- The laws in numbers ----

  /** A sweep keeps a bucket, unchanged, if and only if its last call is at most 300 seconds ago. */
  lemma {:induction false} SweepExactly(buckets: map<string, Bucket>, now: real, key: string)
    ensures var after := Evict(buckets, now);
            && (key in after <==> key in buckets && now - buckets[key].lastSeen <= 300.0)
            && (key in after ==> after[key] == buckets[key])
  {
  }

  lemma {:induction false} FillsInNumbers(c: Config)
    ensures FillsBeforeEviction(c) <==> 300.0 * c.rate >= c.capacity
  {
  }

  /** How many calls of the key among events j, ..., n - 1 were let through, and one more, against burst and refill. */
  ghost predicate WithinBudget(rate: real, capacity: real, events: seq<Event>, answers: seq<bool>, j: nat, n: nat)
    requires j <= n < |events| == |answers| && events[n].Call?
  {
    Admitted(events, answers, events[n].key, j, n) as real + 1.0 <= capacity + rate * (events[n].at - events[j].at)
  }

  lemma {:induction false} EarnedIs(c: Config, span: real)
    ensures Earned(c, span) == c.rate * span
  {
  }

  /**
   * The limiter as it is run, in numbers: if 300 times the rate is at least the burst, a call is let through if and
   * only if, from each call of its client up to and including itself, the calls let through since and it are at most
   * the burst and the rate times the time since.
   */
  lemma {:induction false} ExactLawInNumbers(rate: real, capacity: real, events: seq<Event>, n: nat)
    requires rate >= 0.0 && capacity >= 0.0 && 300.0 * rate >= capacity && Ordered(events)
    requires n < |events| && events[n].Call?
    ensures var answers := Answers(Config(rate, capacity), events, true);
            answers[n] <==>
            forall j :: 0 <= j <= n && events[j].Call? && events[j].key == events[n].key ==>
              WithinBudget(rate, capacity, events, answers, j, n)
  {
    hide Admitted, Answers, Earned;
    var c := Config(rate, capacity);
    var answers := Answers(c, events, true);
    FillsInNumbers(c);
    ExactLaw(c, events, n);
    forall j | 0 <= j <= n
      ensures FitsWindow(c, events, answers, j, n) <==> WithinBudget(rate, capacity, events, answers, j, n)
    {
      EarnedIs(c, events[n].at - events[j].at);
    }
    if answers[n] {
      forall j | 0 <= j <= n && events[j].Call? && events[j].key == events[n].key
        ensures WithinBudget(rate, capacity, events, answers, j, n)
      {
        assert IsCallOf(events[j], events[n].key) && FitsWindow(c, events, answers, j, n);
      }
    }
  }

  /** The two limiters of the service: 2 tokens a second up to 100, and 0.1 a second up to 5, exactly. */
  lemma {:induction false} ConfiguredExactly(events: seq<Event>, n: nat)
    requires Ordered(events) && n < |events| && events[n].Call?
    ensures var general, auth := Answers(GENERAL, events, true), Answers(AUTH, events, true);
            && (general[n] <==>
                forall j :: 0 <= j <= n && events[j].Call? && events[j].key == events[n].key ==>
                  WithinBudget(2.0, 100.0, events, general, j, n))
            && (auth[n] <==>
                forall j :: 0 <= j <= n && events[j].Call? && events[j].key == events[n].key ==>
                  WithinBudget(0.1, 5.0, events, auth, j, n))
  {
    ExactLawInNumbers(2.0, 100.0, events, n);
    ExactLawInNumbers(0.1, 5.0, events, n);
  }

  /**
   * Eviction changes no answer of any run exactly if 300 times the rate is at least the burst, or the burst below 1.
   */
  lemma {:induction false} EvictionInNumbers(rate: real, capacity: real)
    requires rate >= 0.0 && capacity >= 0.0
    ensures (forall events: seq<Event> :: Ordered(events) ==>
               Answers(Config(rate, capacity), events, true) == Answers(Config(rate, capacity), events, false)) <==>
            300.0 * rate >= capacity || capacity < 1.0
  {
    hide Answers, Ordered;
    EvictionInvisibleExactly(Config(rate, capacity));
    FillsInNumbers(Config(rate, capacity));
  }
}
