/** Two fixed-window rate limiters: the per-endpoint `RateLimiter` and the gateway plugin
    `RateLimitByUser`. Times are passed in and never decrease. */
module Limiters {
  import opened Basics

  // ------------------------------------------------------------------ RateLimiter

  /** Start of the window and requests admitted in it. */
  datatype Bucket = Bucket(start: int, count: nat)

  /** The bucket a request at `now` is judged by. */
  function Current(b: Option<Bucket>, now: int, window: nat): Bucket {
    if b.None? || now - b.value.start >= window then Bucket(now, 0) else b.value
  }

  predicate Allows(b: Option<Bucket>, now: int, limit: nat, window: nat) {
    limit == 0 || Current(b, now, window).count < limit
  }

  function After(b: Option<Bucket>, now: int, limit: nat, window: nat): Option<Bucket> {
    if limit == 0 then b
    else
      var c := Current(b, now, window);
      Some(if c.count < limit then c.(count := c.count + 1) else c)
  }

  type Buckets = map<string, Bucket>

  function At(m: Buckets, key: string): Option<Bucket> {
    if key in m then Some(m[key]) else None
  }

  function Put(m: Buckets, key: string, b: Option<Bucket>): Buckets {
    if b.Some? then m[key := b.value] else m
  }

  class RateLimiter {
    const limit: nat
    const window: nat
    var buckets: Buckets

    constructor (limit: nat, window: nat)
      ensures this.limit == limit && this.window == window && buckets == map[]
    {
      this.limit, this.window, buckets := limit, window, map[];
    }

    method Check(key: string, now: int) returns (ok: bool)
      modifies this
      ensures ok == Allows(At(old(buckets), key), now, limit, window)
      ensures buckets == Put(old(buckets), key, After(At(old(buckets), key), now, limit, window))
      ensures limit == 0 ==> ok && buckets == old(buckets)
      ensures limit > 0 && (key in old(buckets) ==> now - old(buckets)[key].start >= window) ==>
                ok && buckets == old(buckets)[key := Bucket(now, 1)]
      ensures limit > 0 && key in old(buckets) && now - old(buckets)[key].start < window ==>
                var b := old(buckets)[key];
                && ok == (b.count < limit)
                && buckets == if ok then old(buckets)[key := Bucket(b.start, b.count + 1)] else old(buckets)
    {
      if limit == 0 {
        return true;
      }
      var entry := if key in buckets then buckets[key] else Bucket(now, 0);
      if now - entry.start >= window {
        entry := Bucket(now, 0);
      }
      ok := entry.count < limit;
      if ok {
        entry := entry.(count := entry.count + 1);
      }
      buckets := buckets[key := entry];
    }

    method Gc(now: int)
      modifies this
      ensures buckets == Reaped(old(buckets), now, window)
      ensures forall k :: k in buckets <==> k in old(buckets) && now - old(buckets)[k].start < 2 * window
      ensures forall k :: k in buckets ==> buckets[k] == old(buckets)[k]
    {
      var todo := buckets.Keys;
      while todo != {}
        invariant todo <= old(buckets).Keys
        invariant forall k :: k in buckets <==>
                    k in old(buckets) && (k in todo || now - old(buckets)[k].start < 2 * window)
        invariant forall k :: k in buckets ==> buckets[k] == old(buckets)[k]
        decreases todo
      {
        var k :| k in todo;
        if now - buckets[k].start >= 2 * window {
          buckets := buckets - {k};
        }
        todo := todo - {k};
      }
      assert buckets == Reaped(old(buckets), now, window);
    }
  }

  function Reaped(m: Buckets, now: int, window: nat): Buckets {
    map k | k in m && now - m[k].start < 2 * window :: m[k]
  }

  // -------------------------------------------------------------- RateLimitByUser

  /** Requests seen (admitted or not) and the start of the window. */
  datatype Usage = Usage(count: nat, start: int)

  /** The clock is read to open an entry, to test its window and to restart it. */
  function Opened(u: Option<Usage>, created: int): Usage {
    if u.Some? then u.value else Usage(0, created)
  }

  predicate Accepts(u: Option<Usage>, created: int, tested: int, limit: nat, window: nat) {
    var e := Opened(u, created);
    tested - e.start >= window || e.count + 1 <= limit
  }

  function Counted(u: Option<Usage>, created: int, tested: int, restarted: int, window: nat): Usage {
    var e := Opened(u, created);
    if tested - e.start >= window then Usage(1, restarted) else e.(count := e.count + 1)
  }

  class RateLimitByUser {
    const maxRequests: nat
    const windowSecs: nat
    var state: map<string, Usage>

    constructor (maxRequests: nat, windowSecs: nat)
      ensures this.maxRequests == maxRequests && this.windowSecs == windowSecs && state == map[]
    {
      this.maxRequests, this.windowSecs, state := maxRequests, windowSecs, map[];
    }

    /** A request without a user id passes and leaves no trace. */
    method OnRequest(user: Option<string>, created: int, tested: int, restarted: int) returns (rejected: bool)
      modifies this
      ensures user.None? ==> !rejected && state == old(state)
      ensures user.Some? ==>
                var u := if user.value in old(state) then Some(old(state)[user.value]) else None;
                && rejected == !Accepts(u, created, tested, maxRequests, windowSecs)
                && state == old(state)[user.value := Counted(u, created, tested, restarted, windowSecs)]
      ensures user.Some? ==>
                var e := if user.value in old(state) then old(state)[user.value] else Usage(0, created);
                if tested - e.start >= windowSecs then
                  !rejected && state == old(state)[user.value := Usage(1, restarted)]
                else
                  && rejected == (e.count >= maxRequests)
                  && state == old(state)[user.value := Usage(e.count + 1, e.start)]
    {
      if user.None? {
        return false;
      }
      rejected := false;
      var entry := if user.value in state then state[user.value] else Usage(0, created);
      if tested - entry.start >= windowSecs {
        entry := Usage(1, restarted);
      } else {
        entry := entry.(count := entry.count + 1);
        if entry.count > maxRequests {
          rejected := true;
        }
      }
      state := state[user.value := entry];
    }
  }

  // ---------------------------------------------------------- decisions on a trace

  /** The decisions for one key, request by request. */
  function Decisions(b: Option<Bucket>, times: seq<int>, limit: nat, window: nat): seq<bool>
    decreases |times|
  {
    if times == [] then []
    else [Allows(b, times[0], limit, window)]
         + Decisions(After(b, times[0], limit, window), times[1..], limit, window)
  }

  /** Likewise for the second limiter, all readings within a request being equal. */
  function UserDecisions(u: Option<Usage>, times: seq<int>, limit: nat, window: nat): seq<bool>
    decreases |times|
  {
    if times == [] then []
    else [Accepts(u, times[0], times[0], limit, window)]
         + UserDecisions(Some(Counted(u, times[0], times[0], times[0], window)), times[1..], limit, window)
  }

  ghost predicate Monotone(times: seq<int>) {
    forall i, j :: 0 <= i < j < |times| ==> times[i] <= times[j]
  }

  // ------------------------------------------------------------------ equivalence

  /** The first counts admissions, the second requests. */
  ghost predicate Simulates(b: Option<Bucket>, u: Option<Usage>, limit: nat) {
    (b.None? <==> u.None?)
    && (b.Some? ==>
         && b.value.start == u.value.start
         && b.value.count == if u.value.count <= limit then u.value.count else limit)
  }

  lemma {:induction false} SameDecisions(b: Option<Bucket>, u: Option<Usage>, times: seq<int>, limit: nat, window: nat)
    requires limit >= 1 && Simulates(b, u, limit)
    ensures Decisions(b, times, limit, window) == UserDecisions(u, times, limit, window)
    decreases |times|
  {
    if times != [] {
      SameDecisions(After(b, times[0], limit, window), Some(Counted(u, times[0], times[0], times[0], window)), times[1..], limit, window);
    }
  }

  lemma {:induction false} NoWindow(b: Option<Bucket>, u: Option<Usage>, times: seq<int>, limit: nat)
    requires Monotone(times)
    requires b.Some? && times != [] ==> b.value.start <= times[0]
    requires u.Some? && times != [] ==> u.value.start <= times[0]
    requires limit == 0
    ensures Decisions(b, times, limit, 0) == UserDecisions(u, times, limit, 0)
    decreases |times|
  {
    if times != [] {
      NoWindow(After(b, times[0], limit, 0), Some(Counted(u, times[0], times[0], times[0], 0)), times[1..], limit);
    }
  }

  /** The two limiters make the same decisions on every trace exactly when the limit is
      positive or the window is empty (a limit of zero disables the first one only). */
  lemma {:induction false} LimitersAgree(limit: nat, window: nat)
    ensures (forall times :: Monotone(times) ==>
              Decisions(None, times, limit, window) == UserDecisions(None, times, limit, window))
            <==> limit >= 1 || window == 0
  {
    if limit >= 1 {
      forall times: seq<int> ensures Decisions(None, times, limit, window) == UserDecisions(None, times, limit, window) {
        SameDecisions(None, None, times, limit, window);
      }
    } else if window == 0 {
      forall times: seq<int> | Monotone(times)
        ensures Decisions(None, times, limit, window) == UserDecisions(None, times, limit, window)
      {
        NoWindow(None, None, times, limit);
      }
    } else {
      assert Monotone([0]);
      assert Decisions(None, [0], limit, window)[0] != UserDecisions(None, [0], limit, window)[0];
    }
  }

  // ------------------------------------------------------------------ the bound

  /** Admissions at times in `[lo, hi)`. */
  function Admitted(b: Option<Bucket>, times: seq<int>, limit: nat, window: nat, lo: int, hi: int): nat
    decreases |times|
  {
    if times == [] then 0
    else (if Allows(b, times[0], limit, window) && lo <= times[0] < hi then 1 else 0)
         + Admitted(After(b, times[0], limit, window), times[1..], limit, window, lo, hi)
  }

  /** What a reachable bucket looks like: at least the request that opened it was admitted. */
  ghost predicate Reachable(b: Option<Bucket>, limit: nat) {
    b.Some? ==> 1 <= b.value.count <= limit
  }

  /** Nothing is admitted in an interval that is over. */
  lemma {:induction false} Over(b: Option<Bucket>, times: seq<int>, limit: nat, window: nat, lo: int, hi: int)
    requires forall i :: 0 <= i < |times| ==> times[i] >= hi
    ensures Admitted(b, times, limit, window, lo, hi) == 0
    decreases |times|
  {
    if times != [] { Over(After(b, times[0], limit, window), times[1..], limit, window, lo, hi); }
  }

  lemma {:induction false} AdmittedBound(b: Option<Bucket>, times: seq<int>, limit: nat, window: nat, lo: int)
    requires limit >= 1 && Reachable(b, limit) && Monotone(times)
    ensures b.Some? && lo <= b.value.start ==>
              Admitted(b, times, limit, window, lo, lo + window) <= limit - b.value.count
    ensures b.Some? && times != [] && lo <= times[0] ==>
              Admitted(b, times, limit, window, lo, lo + window) <= 2 * limit - b.value.count
    ensures Admitted(b, times, limit, window, lo, lo + window) <= 2 * limit - 1
    decreases |times|
  {
    if times != [] {
      var b' := After(b, times[0], limit, window);
      AdmittedBound(b', times[1..], limit, window, lo);
      if times[0] >= lo + window { Over(b', times[1..], limit, window, lo, lo + window); }
    }
  }

  /** No half-open interval one window long contains more than 2·limit − 1 admissions of a
      key. */
  lemma {:induction false} SlidingBound(times: seq<int>, limit: nat, window: nat, lo: int)
    requires limit >= 1 && Monotone(times)
    ensures Admitted(None, times, limit, window, lo, lo + window) <= 2 * limit - 1
  {
    AdmittedBound(None, times, limit, window, lo);
  }

  function Repeat(t: int, n: nat): seq<int> {
    if n == 0 then [] else [t] + Repeat(t, n - 1)
  }

  lemma {:induction false} Repeated(t: int, n: nat)
    ensures |Repeat(t, n)| == n && forall i :: 0 <= i < n ==> Repeat(t, n)[i] == t
  {
    if n > 0 { Repeated(t, n - 1); }
  }

  lemma {:induction false} MonotoneConcat(x: seq<int>, y: seq<int>, m: int)
    requires Monotone(x) && Monotone(y)
    requires (forall i :: 0 <= i < |x| ==> x[i] <= m) && (forall i :: 0 <= i < |y| ==> m <= y[i])
    ensures Monotone(x + y)
  {}

  lemma {:induction false} BurstsMonotone(a: int, b: int, n: nat)
    requires 0 <= a <= b
    ensures Monotone([0] + (Repeat(a, n) + ([b] + (Repeat(b, n) + []))))
  {
    Repeated(a, n);
    Repeated(b, n);
    assert Repeat(b, n) + [] == Repeat(b, n);
    MonotoneConcat([b], Repeat(b, n), b);
    MonotoneConcat(Repeat(a, n), [b] + Repeat(b, n), a);
    MonotoneConcat([0], Repeat(a, n) + ([b] + Repeat(b, n)), 0);
  }

  /** A burst inside the window of `b`: as many are admitted as are left. */
  lemma {:induction false} Burst(b: Option<Bucket>, t: int, n: nat, rest: seq<int>, limit: nat, window: nat, lo: int, hi: int)
    requires b.Some? && t - b.value.start < window && b.value.count + n <= limit
    requires lo <= t < hi
    ensures Admitted(b, Repeat(t, n) + rest, limit, window, lo, hi)
            == n + Admitted(Some(b.value.(count := b.value.count + n)), rest, limit, window, lo, hi)
    decreases n
  {
    if n == 0 {
      assert Repeat(t, 0) + rest == rest;
    } else {
      assert (Repeat(t, n) + rest)[1..] == Repeat(t, n - 1) + rest;
      Burst(Some(b.value.(count := b.value.count + 1)), t, n - 1, rest, limit, window, lo, hi);
    }
  }

  /** The bound is reached: one request, then bursts on both sides of the rollover. */
  lemma {:induction false} SlidingBoundTight(limit: nat, window: nat) returns (times: seq<int>, lo: int)
    requires limit >= 1 && window >= 2
    ensures Monotone(times) && Admitted(None, times, limit, window, lo, lo + window) == 2 * limit - 1
  {
    lo := window - 1;
    var hi := lo + window;
    var tail := [window] + (Repeat(window, limit - 1) + []);
    times := [0] + (Repeat(lo, limit - 1) + tail);
    assert times[1..] == Repeat(lo, limit - 1) + tail;
    Burst(Some(Bucket(0, 1)), lo, limit - 1, tail, limit, window, lo, hi);
    assert tail[1..] == Repeat(window, limit - 1) + [];
    Burst(Some(Bucket(window, 1)), window, limit - 1, [], limit, window, lo, hi);
    assert Admitted(Some(Bucket(window, limit)), [], limit, window, lo, hi) == 0;
    BurstsMonotone(lo, window, limit - 1);
  }

  /** Within the window of a bucket exactly the first `limit` requests are admitted. */
  lemma {:induction false} FirstInWindow(b: Bucket, times: seq<int>, limit: nat, window: nat, i: nat)
    requires limit >= 1 && b.count <= limit && i < |times|
    requires forall j :: 0 <= j <= i ==> times[j] - b.start < window
    ensures |Decisions(Some(b), times, limit, window)| == |times|
    ensures Decisions(Some(b), times, limit, window)[i] <==> b.count + i < limit
    decreases |times|
  {
    var b' := After(Some(b), times[0], limit, window);
    DecisionsLength(b', times[1..], limit, window);
    if i > 0 { FirstInWindow(b'.value, times[1..], limit, window, i - 1); }
  }

  lemma {:induction false} DecisionsLength(b: Option<Bucket>, times: seq<int>, limit: nat, window: nat)
    ensures |Decisions(b, times, limit, window)| == |times|
    decreases |times|
  {
    if times != [] { DecisionsLength(After(b, times[0], limit, window), times[1..], limit, window); }
  }

  // --------------------------------------------------- several keys, and gc anywhere

  datatype Call = Check(key: string, now: int) | Gc(now: int)

  function Step(m: Buckets, c: Call, limit: nat, window: nat): Buckets {
    match c
    case Check(key, now) => Put(m, key, After(At(m, key), now, limit, window))
    case Gc(now) => Reaped(m, now, window)
  }

  /** The decisions of a run, in order. */
  function Run(m: Buckets, calls: seq<Call>, limit: nat, window: nat): seq<(string, bool)>
    decreases |calls|
  {
    if calls == [] then []
    else
      var c := calls[0];
      (if c.Check? then [(c.key, Allows(At(m, c.key), c.now, limit, window))] else [])
      + Run(Step(m, c, limit, window), calls[1..], limit, window)
  }

  function Times(calls: seq<Call>, key: string): seq<int> {
    if calls == [] then []
    else (if calls[0].Check? && calls[0].key == key then [calls[0].now] else []) + Times(calls[1..], key)
  }

  function Verdict(d: (string, bool), key: string): seq<bool> {
    if d.0 == key then [d.1] else []
  }

  function Verdicts(ds: seq<(string, bool)>, key: string): seq<bool> {
    if ds == [] then [] else Verdict(ds[0], key) + Verdicts(ds[1..], key)
  }

  ghost predicate Chronological(calls: seq<Call>) {
    forall i, j :: 0 <= i < j < |calls| ==> calls[i].now <= calls[j].now
  }

  /** A bucket that is as good as the other for every request from `now` on. */
  ghost predicate Equivalent(b: Option<Bucket>, c: Option<Bucket>, now: int, window: nat) {
    b == c || (b.None? && c.Some? && now - c.value.start >= window)
  }

  lemma {:induction false} VerdictsConcat(a: seq<(string, bool)>, b: seq<(string, bool)>, key: string)
    ensures Verdicts(a + b, key) == Verdicts(a, key) + Verdicts(b, key)
  {
    if a == [] {
      assert a + b == b;
    } else {
      assert (a + b)[1..] == a[1..] + b;
      VerdictsConcat(a[1..], b, key);
      Assoc(Verdict(a[0], key), Verdicts(a[1..], key), Verdicts(b, key));
    }
  }

  /** One call moves the bucket of `key` only as the calls for `key` alone would. */
  lemma {:induction false} StepOf(m: Buckets, c: Call, key: string, b: Option<Bucket>, limit: nat, window: nat)
    requires Equivalent(At(m, key), b, c.now, window)
    ensures var b' := if c.Check? && c.key == key then After(b, c.now, limit, window) else b;
            Equivalent(At(Step(m, c, limit, window), key), b', c.now, window)
    ensures c.Check? && c.key == key ==>
              Allows(At(m, key), c.now, limit, window) == Allows(b, c.now, limit, window)
  {}

  lemma {:induction false} EquivalentLater(b: Option<Bucket>, c: Option<Bucket>, now: int, later: int, window: nat)
    requires Equivalent(b, c, now, window) && now <= later
    ensures Equivalent(b, c, later, window)
  {}

  lemma {:induction false} RunProjects(m: Buckets, calls: seq<Call>, key: string, b: Option<Bucket>, limit: nat, window: nat)
    requires Chronological(calls)
    requires calls != [] ==> Equivalent(At(m, key), b, calls[0].now, window)
    ensures Verdicts(Run(m, calls, limit, window), key) == Decisions(b, Times(calls, key), limit, window)
    decreases |calls|
  {
    if calls != [] {
      var c := calls[0];
      var mine := c.Check? && c.key == key;
      var b' := if mine then After(b, c.now, limit, window) else b;
      StepOf(m, c, key, b, limit, window);
      if |calls| > 1 {
        EquivalentLater(At(Step(m, c, limit, window), key), b', c.now, calls[1].now, window);
      }
      RunProjects(Step(m, c, limit, window), calls[1..], key, b', limit, window);
      FirstVerdict(m, calls, key, limit, window);
      if mine {
        assert Times(calls, key) == [c.now] + Times(calls[1..], key);
        assert Times(calls, key)[1..] == Times(calls[1..], key);
      } else {
        assert Times(calls, key) == Times(calls[1..], key);
      }
    }
  }

  /** The verdicts for a key: that of the first call, if it is for the key, and the rest. */
  lemma {:induction false} FirstVerdict(m: Buckets, calls: seq<Call>, key: string, limit: nat, window: nat)
    requires calls != []
    ensures var c := calls[0];
            var rest := Verdicts(Run(Step(m, c, limit, window), calls[1..], limit, window), key);
            Verdicts(Run(m, calls, limit, window), key)
            == if c.Check? && c.key == key then [Allows(At(m, key), c.now, limit, window)] + rest else rest
  {
    var c := calls[0];
    var here := if c.Check? then [(c.key, Allows(At(m, c.key), c.now, limit, window))] else [];
    var rest := Run(Step(m, c, limit, window), calls[1..], limit, window);
    VerdictsConcat(here, rest, key);
    assert here != [] ==> here[1..] == [];
    assert [] + Verdicts(rest, key) == Verdicts(rest, key);
  }

  /** Whatever other keys do and wherever `gc` runs, the decisions for a key are those of its
      own requests alone. */
  lemma {:induction false} KeysAndGcDoNotMatter(calls: seq<Call>, key: string, limit: nat, window: nat)
    requires Chronological(calls)
    ensures Verdicts(Run(map[], calls, limit, window), key) == Decisions(None, Times(calls, key), limit, window)
  {
    RunProjects(map[], calls, key, None, limit, window);
  }

  /** Admissions of a key at times in `[lo, hi)`, in a run with other keys and `gc`. */
  function AdmittedInRun(m: Buckets, calls: seq<Call>, key: string, limit: nat, window: nat, lo: int, hi: int): nat
    decreases |calls|
  {
    if calls == [] then 0
    else
      var c := calls[0];
      (if c.Check? && c.key == key && Allows(At(m, key), c.now, limit, window) && lo <= c.now < hi then 1 else 0)
      + AdmittedInRun(Step(m, c, limit, window), calls[1..], key, limit, window, lo, hi)
  }

  lemma {:induction false} AdmittedProjects(m: Buckets, calls: seq<Call>, key: string, b: Option<Bucket>,
                                            limit: nat, window: nat, lo: int, hi: int)
    requires Chronological(calls)
    requires calls != [] ==> Equivalent(At(m, key), b, calls[0].now, window)
    ensures AdmittedInRun(m, calls, key, limit, window, lo, hi)
            == Admitted(b, Times(calls, key), limit, window, lo, hi)
    decreases |calls|
  {
    if calls != [] {
      var c := calls[0];
      var b' := if c.Check? && c.key == key then After(b, c.now, limit, window) else b;
      StepOf(m, c, key, b, limit, window);
      if |calls| > 1 {
        EquivalentLater(At(Step(m, c, limit, window), key), b', c.now, calls[1].now, window);
      }
      AdmittedProjects(Step(m, c, limit, window), calls[1..], key, b', limit, window, lo, hi);
      if c.Check? && c.key == key {
        assert Times(calls, key)[1..] == Times(calls[1..], key);
      } else {
        assert Times(calls, key) == Times(calls[1..], key);
      }
    }
  }

  lemma {:induction false} TimesFrom(calls: seq<Call>, key: string, now: int)
    requires forall i :: 0 <= i < |calls| ==> now <= calls[i].now
    ensures forall i :: 0 <= i < |Times(calls, key)| ==> now <= Times(calls, key)[i]
  {
    if calls != [] { TimesFrom(calls[1..], key, now); }
  }

  lemma {:induction false} ChronologicalTail(calls: seq<Call>)
    requires Chronological(calls) && calls != []
    ensures Chronological(calls[1..])
    ensures forall i :: 0 <= i < |calls[1..]| ==> calls[0].now <= calls[1..][i].now
  {}

  lemma {:induction false} TimesMonotone(calls: seq<Call>, key: string)
    requires Chronological(calls)
    ensures Monotone(Times(calls, key))
  {
    if calls != [] {
      var now, rest := calls[0].now, Times(calls[1..], key);
      ChronologicalTail(calls);
      TimesMonotone(calls[1..], key);
      TimesFrom(calls[1..], key, now);
      MonotoneConcat([now], rest, now);
      assert [] + rest == rest;
    }
  }

  /** The bound for the limiter as it runs: with any other keys and `gc` at any time, no
      half-open interval one window long contains more than 2·limit − 1 admissions of a key. */
  lemma {:induction false} RunBound(calls: seq<Call>, key: string, limit: nat, window: nat, lo: int)
    requires limit >= 1 && Chronological(calls)
    ensures AdmittedInRun(map[], calls, key, limit, window, lo, lo + window) <= 2 * limit - 1
  {
    AdmittedProjects(map[], calls, key, None, limit, window, lo, lo + window);
    TimesMonotone(calls, key);
    SlidingBound(Times(calls, key), limit, window, lo);
  }
}
