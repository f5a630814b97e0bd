/** The fixed-window request limiter of the preview server, with its size-triggered sweep. */
module RateLimiter {
  import opened Numbers

  datatype Policy = Auth | Mutation

  /** A limited request: who asks for what, and the clock when it arrives. */
  datatype Request = Request(policy: Policy, address: string, route: string, now: int)

  datatype Bucket = Bucket(count: int, resetAt: int)

  type Buckets = map<string, Bucket>

  datatype Settings = Settings(windowMs: int, authLimit: int, mutationLimit: int)

  /** The three response headers, and whether the request goes through or gets a 429. */
  datatype Verdict = Verdict(admitted: bool, limit: int, remaining: int, resetSeconds: int)

  const SWEEP_ABOVE := 10_000

  function Limit(cfg: Settings, policy: Policy): int {
    match policy
    case Auth => cfg.authLimit
    case Mutation => cfg.mutationLimit
  }

  function PolicyName(policy: Policy): string {
    match policy
    case Auth => "auth"
    case Mutation => "mutation"
  }

  /** `clientRateLimitKey` */
  function Key(req: Request): string {
    PolicyName(req.policy) + ":" + req.address + ":" + req.route
  }

  /** Whatever the address and the route contain, a key tells its policy, hence its limit. */
  lemma KeyTellsPolicy(a: Request, b: Request)
    requires Key(a) == Key(b)
    ensures a.policy == b.policy
  {
    assert Key(a)[0] == PolicyName(a.policy)[0];
    assert Key(b)[0] == PolicyName(b.policy)[0];
  }

  function CeilDiv(a: int, b: int): int
    requires b > 0
  {
    -((-a) / b)
  }

  /** The bucket of `key` after a request at `now` is charged to it. */
  function ChargedUnder(cfg: Settings, buckets: Buckets, key: string, now: int): Bucket {
    if key in buckets && buckets[key].resetAt > now
    then Bucket(buckets[key].count + 1, buckets[key].resetAt)
    else Bucket(1, now + cfg.windowMs)
  }

  function Charged(cfg: Settings, buckets: Buckets, req: Request): Bucket {
    ChargedUnder(cfg, buckets, Key(req), req.now)
  }

  function VerdictOn(cfg: Settings, policy: Policy, bucket: Bucket): Verdict {
    var limit := Limit(cfg, policy);
    Verdict(bucket.count <= limit, limit, Max(0, limit - bucket.count), CeilDiv(bucket.resetAt, 1000))
  }

  function Sweep(buckets: Buckets, now: int): Buckets {
    map key | key in buckets && buckets[key].resetAt > now :: buckets[key]
  }

  /** The table after a request; `sweeping` tells the real limiter from one that never
      forgets a bucket.  A rejected request returns before the sweep. */
  function After(cfg: Settings, sweeping: bool, buckets: Buckets, req: Request): Buckets {
    var bucket := Charged(cfg, buckets, req);
    var charged := buckets[Key(req) := bucket];
    if sweeping && bucket.count <= Limit(cfg, req.policy) && |charged| > SWEEP_ABOVE
    then Sweep(charged, req.now)
    else charged
  }

  /** `enforceRateLimit` and the table it keeps. */
  class Limiter {
    const cfg: Settings
    var buckets: Buckets

    constructor (cfg: Settings)
      ensures this.cfg == cfg && buckets == map[]
    {
      this.cfg := cfg;
      buckets := map[];
    }

    method Enforce(req: Request) returns (verdict: Verdict)
      modifies this
      ensures buckets == After(cfg, true, old(buckets), req)
      ensures verdict == VerdictOn(cfg, req.policy, Charged(cfg, old(buckets), req))
    {
      var key := Key(req);
      var bucket := Bucket(0, req.now + cfg.windowMs);
      if key in buckets && buckets[key].resetAt > req.now {
        bucket := buckets[key];
      }
      bucket := bucket.(count := bucket.count + 1);
      buckets := buckets[key := bucket];
      var limit := Limit(cfg, req.policy);
      verdict := Verdict(true, limit, Max(0, limit - bucket.count), CeilDiv(bucket.resetAt, 1000));
      if bucket.count > limit {
        return verdict.(admitted := false);
      }
      if |buckets| > SWEEP_ABOVE {
        DeleteExpired(req.now);
      }
    }

    method DeleteExpired(now: int)
      modifies this
      ensures buckets == Sweep(old(buckets), now)
    {
      var keys := buckets.Keys;
      while keys != {}
        invariant keys <= buckets.Keys <= old(buckets).Keys
        invariant forall key :: key in buckets ==> buckets[key] == old(buckets)[key]
        invariant forall key :: key in old(buckets) && key !in keys ==>
                    (key in buckets <==> old(buckets)[key].resetAt > now)
        decreases keys
      {
        var key :| key in keys;
        if buckets[key].resetAt <= now {
          buckets := buckets - {key};
        }
        keys := keys - {key};
      }
    }
  }

  // ------------------------------------------------------------------- runs

  ghost predicate ClockRuns(reqs: seq<Request>) {
    forall i, j :: 0 <= i < j < |reqs| ==> reqs[i].now <= reqs[j].now
  }

  /** The table after a whole run from the empty table. */
  ghost function Table(cfg: Settings, sweeping: bool, reqs: seq<Request>): Buckets {
    if reqs == [] then map[]
    else After(cfg, sweeping, Table(cfg, sweeping, reqs[..|reqs|-1]), reqs[|reqs|-1])
  }

  /** The bucket that the last request of a run is charged to. */
  ghost function LastBucket(cfg: Settings, sweeping: bool, reqs: seq<Request>): Bucket
    requires reqs != []
  {
    Charged(cfg, Table(cfg, sweeping, reqs[..|reqs|-1]), reqs[|reqs|-1])
  }

  /** The verdict on the last request of a run. */
  ghost function LastVerdict(cfg: Settings, sweeping: bool, reqs: seq<Request>): Verdict
    requires reqs != []
  {
    VerdictOn(cfg, reqs[|reqs|-1].policy, LastBucket(cfg, sweeping, reqs))
  }

  /** How many requests under `key` a run admitted at times in [lo, hi). */
  ghost function Admitted(cfg: Settings, sweeping: bool, reqs: seq<Request>, key: string, lo: int, hi: int): nat {
    if reqs == [] then 0
    else
      var last := reqs[|reqs|-1];
      Admitted(cfg, sweeping, reqs[..|reqs|-1], key, lo, hi)
      + (if Key(last) == key && lo <= last.now < hi && LastVerdict(cfg, sweeping, reqs).admitted then 1 else 0)
  }

  // ------------------------------------------------- the sweep is invisible

  /** What the sweep may have removed by time `now`. */
  ghost predicate OnlyExpiredGone(swept: Buckets, kept: Buckets, now: int) {
    && (forall key :: key in swept ==> key in kept && swept[key] == kept[key])
    && (forall key :: key in kept && key !in swept ==> kept[key].resetAt <= now)
  }

  lemma {:induction false} TablesAgree(cfg: Settings, reqs: seq<Request>, now: int)
    requires ClockRuns(reqs)
    requires forall i :: 0 <= i < |reqs| ==> reqs[i].now <= now
    ensures OnlyExpiredGone(Table(cfg, true, reqs), Table(cfg, false, reqs), now)
  {
    if reqs != [] {
      TablesAgree(cfg, reqs[..|reqs|-1], reqs[|reqs|-1].now);
    }
  }

  /** On every run the limiter answers exactly as one that never deletes a bucket. */
  lemma SweepIsInvisible(cfg: Settings, reqs: seq<Request>)
    requires ClockRuns(reqs) && reqs != []
    ensures LastBucket(cfg, true, reqs) == LastBucket(cfg, false, reqs)
    ensures LastVerdict(cfg, true, reqs) == LastVerdict(cfg, false, reqs)
  {
    TablesAgree(cfg, reqs[..|reqs|-1], reqs[|reqs|-1].now);
  }

  lemma {:induction false} SameAdmissions(cfg: Settings, reqs: seq<Request>, key: string, lo: int, hi: int)
    requires ClockRuns(reqs)
    ensures Admitted(cfg, true, reqs, key, lo, hi) == Admitted(cfg, false, reqs, key, lo, hi)
  {
    if reqs != [] {
      SameAdmissions(cfg, reqs[..|reqs|-1], key, lo, hi);
      SweepIsInvisible(cfg, reqs);
    }
  }

  // ------------------------------------------------------------- the bounds

  /** `limit` is what the policy named by `key` allows. */
  ghost predicate KeyHasLimit(cfg: Settings, key: string, limit: int) {
    forall req: Request :: Key(req) == key ==> Limit(cfg, req.policy) == limit
  }

  lemma LimitOfKey(cfg: Settings, req: Request)
    ensures KeyHasLimit(cfg, Key(req), Limit(cfg, req.policy))
  {
    forall other: Request | Key(other) == Key(req) ensures other.policy == req.policy {
      KeyTellsPolicy(other, req);
    }
  }

  /** A run seen as what came before and its last request. */
  lemma Snoc(cfg: Settings, init: seq<Request>, last: Request)
    ensures var reqs, table := init + [last], Table(cfg, false, init);
            && Table(cfg, false, reqs) == table[Key(last) := Charged(cfg, table, last)]
            && LastBucket(cfg, false, reqs) == Charged(cfg, table, last)
            && LastVerdict(cfg, false, reqs) == VerdictOn(cfg, last.policy, Charged(cfg, table, last))
  {
    assert (init + [last])[..|init|] == init;
  }

  /** How one more request changes the number admitted under `key` in [lo, hi). */
  lemma OneMore(cfg: Settings, init: seq<Request>, last: Request, key: string, limit: int, lo: int, hi: int)
    requires KeyHasLimit(cfg, key, limit)
    ensures Admitted(cfg, false, init + [last], key, lo, hi)
            == Admitted(cfg, false, init, key, lo, hi)
               + (if && Key(last) == key && lo <= last.now < hi
                     && Charged(cfg, Table(cfg, false, init), last).count <= limit
                  then 1 else 0)
  {
    assert (init + [last])[..|init|] == init;
  }

  ghost predicate CountsPositive(table: Buckets) {
    forall k :: k in table ==> table[k].count >= 1
  }

  lemma {:induction false} EveryCountPositive(cfg: Settings, reqs: seq<Request>)
    ensures CountsPositive(Table(cfg, false, reqs))
  {
    if reqs != [] {
      EveryCountPositive(cfg, reqs[..|reqs|-1]);
    }
  }

  lemma {:induction false} OpenedInThePast(cfg: Settings, reqs: seq<Request>, now: int)
    requires ClockRuns(reqs) && forall i :: 0 <= i < |reqs| ==> reqs[i].now <= now
    ensures forall k :: k in Table(cfg, false, reqs) ==> Table(cfg, false, reqs)[k].resetAt - cfg.windowMs <= now
  {
    if reqs != [] {
      OpenedInThePast(cfg, reqs[..|reqs|-1], now);
    }
  }

  lemma ClockGoesOn(reqs: seq<Request>, last: Request)
    requires ClockRuns(reqs) && forall r :: r in reqs ==> r.now <= last.now
    ensures ClockRuns(reqs + [last])
  {
  }

  lemma ClockBefore(init: seq<Request>, last: Request)
    requires ClockRuns(init + [last])
    ensures ClockRuns(init) && forall i :: 0 <= i < |init| ==> init[i].now <= last.now
  {
    var run := init + [last];
    assert run[|init|] == last;
    forall i | 0 <= i < |init| ensures init[i].now <= last.now { assert run[i].now <= run[|init|].now; }
    forall i, j | 0 <= i < j < |init| ensures init[i].now <= init[j].now { assert run[i].now <= run[j].now; }
  }

  /** In a window of one millisecond or none, every request resets one window later. */
  lemma ShortWindowReset(cfg: Settings, init: seq<Request>, last: Request)
    requires cfg.windowMs <= 1 && ClockRuns(init + [last])
    ensures Charged(cfg, Table(cfg, false, init), last).resetAt == last.now + cfg.windowMs
  {
    ClockBefore(init, last);
    OpenedInThePast(cfg, init, last.now);
  }

  lemma FirstInBucket(cfg: Settings, init: seq<Request>, last: Request)
    requires cfg.windowMs <= 0 && ClockRuns(init + [last])
    ensures Charged(cfg, Table(cfg, false, init), last) == Bucket(1, last.now + cfg.windowMs)
  {
    ClockBefore(init, last);
    OpenedInThePast(cfg, init, last.now);
  }

  /** What bounds the number `admitted` under a key in [lo, hi), by where its bucket started: the
      first request of a bucket that started before the interval lies outside it, and a bucket
      that started inside one of at most the window length has one such bucket before it. */
  predicate WithinLimits(admitted: int, lo: int, hi: int, window: int, bucket: Bucket, limit: int) {
    var start, room := bucket.resetAt - window, if bucket.count < limit then bucket.count else limit;
    if bucket.resetAt <= lo then admitted == 0
    else if start < lo then admitted <= Max(0, room - 1)
    else if start == lo then admitted <= Max(0, room)
    else hi <= lo + window ==> admitted <= if start < hi then Max(0, limit - 1) + Max(0, room) else Most(window, limit)
  }

  /** The most requests of one key that an interval of one window length admits. */
  function Most(window: int, limit: int): int {
    Max(0, if window <= 1 then limit else 2 * limit - 1)
  }

  lemma LiveBucket(admitted: int, lo: int, hi: int, window: int, bucket: Bucket, limit: int, now: int)
    requires window > 0 && bucket.count >= 1 && bucket.resetAt - window <= now < bucket.resetAt
    requires WithinLimits(admitted, lo, hi, window, bucket, limit)
    ensures var more := if lo <= now < hi && bucket.count + 1 <= limit then 1 else 0;
            WithinLimits(admitted + more, lo, hi, window, bucket.(count := bucket.count + 1), limit)
  {
  }

  lemma NewBucket(admitted: int, lo: int, hi: int, window: int, old_: Bucket, limit: int, now: int)
    requires window > 0 && old_.count >= 1 && old_.resetAt <= now
    requires WithinLimits(admitted, lo, hi, window, old_, limit)
    ensures var more := if lo <= now < hi && 1 <= limit then 1 else 0;
            WithinLimits(admitted + more, lo, hi, window, Bucket(1, now + window), limit)
  {
  }

  lemma FirstBucket(lo: int, hi: int, window: int, limit: int, now: int)
    requires window > 0
    ensures var more := if lo <= now < hi && 1 <= limit then 1 else 0;
            WithinLimits(more, lo, hi, window, Bucket(1, now + window), limit)
  {
  }

  lemma RequestKeepsLimits(cfg: Settings, table: Buckets, key: string, now: int, admitted: int, lo: int, hi: int,
      limit: int)
    requires cfg.windowMs > 0
    requires if key in table then BucketWithinLimits(cfg, table[key], now, admitted, lo, hi, limit) else admitted == 0
    ensures var bucket := ChargedUnder(cfg, table, key, now);
            var more := if lo <= now < hi && bucket.count <= limit then 1 else 0;
            BucketWithinLimits(cfg, bucket, now, admitted + more, lo, hi, limit)
  {
    if key !in table {
      FirstBucket(lo, hi, cfg.windowMs, limit, now);
    } else if table[key].resetAt > now {
      LiveBucket(admitted, lo, hi, cfg.windowMs, table[key], limit, now);
    } else {
      NewBucket(admitted, lo, hi, cfg.windowMs, table[key], limit, now);
    }
  }

  predicate BucketWithinLimits(cfg: Settings, bucket: Bucket, now: int, admitted: int, lo: int, hi: int, limit: int) {
    && bucket.count >= 1 && bucket.resetAt - cfg.windowMs <= now
    && WithinLimits(admitted, lo, hi, cfg.windowMs, bucket, limit)
  }

  lemma {:induction false} RunKeepsLimits(cfg: Settings, reqs: seq<Request>, key: string, limit: int, now: int,
      lo: int, hi: int)
    requires cfg.windowMs > 0 && ClockRuns(reqs) && KeyHasLimit(cfg, key, limit)
    requires forall i :: 0 <= i < |reqs| ==> reqs[i].now <= now
    ensures var table, admitted := Table(cfg, false, reqs), Admitted(cfg, false, reqs, key, lo, hi);
            if key in table then BucketWithinLimits(cfg, table[key], now, admitted, lo, hi, limit) else admitted == 0
  {
    if reqs != [] {
      var init, last := reqs[..|reqs|-1], reqs[|reqs|-1];
      RunKeepsLimits(cfg, init, key, limit, last.now, lo, hi);
      assert reqs == init + [last];
      Snoc(cfg, init, last);
      OneMore(cfg, init, last, key, limit, lo, hi);
      if Key(last) == key {
        RequestKeepsLimits(cfg, Table(cfg, false, init), key, last.now, Admitted(cfg, false, init, key, lo, hi),
                           lo, hi, limit);
      }
    }
  }

  ghost function LastTime(reqs: seq<Request>): int {
    if reqs == [] then 0 else reqs[|reqs|-1].now
  }

  lemma {:induction false} EmptyInterval(cfg: Settings, reqs: seq<Request>, key: string, lo: int, hi: int)
    requires hi <= lo
    ensures Admitted(cfg, false, reqs, key, lo, hi) == 0
  {
    if reqs != [] {
      EmptyInterval(cfg, reqs[..|reqs|-1], key, lo, hi);
    }
  }

  /** The real limiter, over every run: in any interval of one window length a key gets at
      most 2 * limit - 1 requests through, limit if the window is a single millisecond, and none
      when its limit is not positive. */
  lemma IntervalBound(cfg: Settings, reqs: seq<Request>, req: Request, lo: int)
    requires ClockRuns(reqs)
    ensures Admitted(cfg, true, reqs, Key(req), lo, lo + cfg.windowMs) <= Most(cfg.windowMs, Limit(cfg, req.policy))
  {
    var key, limit, hi := Key(req), Limit(cfg, req.policy), lo + cfg.windowMs;
    SameAdmissions(cfg, reqs, key, lo, hi);
    if cfg.windowMs <= 0 {
      EmptyInterval(cfg, reqs, key, lo, hi);
    } else {
      LimitOfKey(cfg, req);
      RunKeepsLimits(cfg, reqs, key, limit, LastTime(reqs), lo, hi);
      var table, admitted := Table(cfg, false, reqs), Admitted(cfg, false, reqs, key, lo, hi);
      if key in table {
        AtMost(admitted, lo, cfg.windowMs, table[key], limit);
      }
    }
  }

  lemma AtMost(admitted: int, lo: int, window: int, bucket: Bucket, limit: int)
    requires window > 0 && WithinLimits(admitted, lo, lo + window, window, bucket, limit)
    ensures admitted <= Most(window, limit)
  {
  }

  lemma SinceOpened(cfg: Settings, reqs: seq<Request>, req: Request, hi: int)
    requires cfg.windowMs > 0 && ClockRuns(reqs) && Key(req) in Table(cfg, true, reqs)
    ensures BoundedSinceOpened(cfg, reqs, Key(req), Limit(cfg, req.policy), hi)
  {
    var start := Table(cfg, true, reqs)[Key(req)].resetAt - cfg.windowMs;
    TablesAgree(cfg, reqs, LastTime(reqs));
    SameAdmissions(cfg, reqs, Key(req), start, hi);
    LimitOfKey(cfg, req);
    RunKeepsLimits(cfg, reqs, Key(req), Limit(cfg, req.policy), LastTime(reqs), start, hi);
  }

  /** Up to `hi`, the key got at most its limit through since its bucket opened. */
  ghost predicate BoundedSinceOpened(cfg: Settings, reqs: seq<Request>, key: string, limit: int, hi: int) {
    key in Table(cfg, true, reqs) ==>
      Admitted(cfg, true, reqs, key, Table(cfg, true, reqs)[key].resetAt - cfg.windowMs, hi) <= Max(0, limit)
  }

  ghost predicate BucketsBound(cfg: Settings, key: string, limit: int) {
    forall reqs, hi :: ClockRuns(reqs) ==> BoundedSinceOpened(cfg, reqs, key, limit, hi)
  }

  /** Over every run a key gets at most its limit through since its bucket opened, if and only if
      the window is longer than nothing or the limit lets nothing through anyway. */
  lemma BucketBound(cfg: Settings, req: Request)
    ensures BucketsBound(cfg, Key(req), Limit(cfg, req.policy)) <==> cfg.windowMs > 0 || Limit(cfg, req.policy) <= 0
  {
    var key, limit := Key(req), Limit(cfg, req.policy);
    LimitOfKey(cfg, req);
    if cfg.windowMs > 0 || limit <= 0 {
      forall reqs, hi | ClockRuns(reqs) ensures BoundedSinceOpened(cfg, reqs, key, limit, hi) {
        if key in Table(cfg, true, reqs) {
          if cfg.windowMs > 0 {
            SinceOpened(cfg, reqs, req, hi);
          } else {
            var start := Table(cfg, true, reqs)[key].resetAt - cfg.windowMs;
            NothingGetsThrough(cfg, reqs, key, limit, start, hi);
            SameAdmissions(cfg, reqs, key, start, hi);
          }
        }
      }
    } else {
      EmptyWindow(cfg, req, key, limit);
    }
  }

  lemma {:induction false} NothingGetsThrough(cfg: Settings, reqs: seq<Request>, key: string, limit: int,
                                               lo: int, hi: int)
    requires KeyHasLimit(cfg, key, limit) && limit <= 0
    ensures Admitted(cfg, false, reqs, key, lo, hi) == 0
  {
    if reqs != [] {
      var init, last := reqs[..|reqs|-1], reqs[|reqs|-1];
      NothingGetsThrough(cfg, init, key, limit, lo, hi);
      assert reqs == init + [last];
      EveryCountPositive(cfg, init);
      OneMore(cfg, init, last, key, limit, lo, hi);
    }
  }

  lemma {:induction false} OnlyBucket(cfg: Settings, req: Request, n: nat, reqs: seq<Request>)
    requires cfg.windowMs <= 0 && reqs == Again([req], req, n)
    ensures Table(cfg, true, reqs) == map[Key(req) := Bucket(1, req.now + cfg.windowMs)]
  {
    if n > 0 {
      OnlyBucket(cfg, req, n - 1, Again([req], req, n - 1));
    }
  }

  /** In an empty window one request too many gets through under one bucket. */
  lemma EmptyWindow(cfg: Settings, req: Request, key: string, limit: int)
    requires cfg.windowMs <= 0 && limit >= 1 && KeyHasLimit(cfg, key, limit) && Key(req) == key
    ensures !BucketsBound(cfg, key, limit)
  {
    var reqs := Again([req], req, limit);
    RepeatsClock(req, limit);
    EachOpens(cfg, req, key, limit, limit, reqs);
    OnlyBucket(cfg, req, limit, reqs);
    SameAdmissions(cfg, reqs, key, req.now, req.now + 1);
    assert !BoundedSinceOpened(cfg, reqs, key, limit, req.now + 1);
  }

  /** One request, then `n` at the end of its window and `m` at the start of the next. */
  ghost function Burst(cfg: Settings, req: Request, n: nat, m: nat): (r: seq<Request>)
    ensures r != []
  {
    if m > 0 then Burst(cfg, req, n, m - 1) + [req.(now := cfg.windowMs)]
    else if n > 0 then Burst(cfg, req, n - 1, 0) + [req.(now := cfg.windowMs - 1)]
    else [] + [req.(now := 0)]
  }

  lemma {:induction false} BurstClock(cfg: Settings, req: Request, n: nat, m: nat)
    requires cfg.windowMs >= 1
    ensures ClockRuns(Burst(cfg, req, n, m))
    ensures forall r :: r in Burst(cfg, req, n, m) ==> r.now <= if m == 0 then cfg.windowMs - 1 else cfg.windowMs
  {
    if m > 0 {
      BurstClock(cfg, req, n, m - 1);
    } else if n > 0 {
      BurstClock(cfg, req, n - 1, 0);
    }
  }

  /** The bucket after a burst, and how many got through from the last moment of its first
      window on. */
  predicate FillsTwoBuckets(window: int, bucket: Bucket, admitted: int, n: nat, m: nat) {
    && bucket == (if m == 0 then Bucket(n + 1, window) else Bucket(m, 2 * window))
    && admitted == n + m
  }

  /** What a run leaves of `key`: its bucket and how many got through in [lo, hi). */
  ghost predicate Leaves(cfg: Settings, reqs: seq<Request>, key: string, lo: int, hi: int, bucket: Bucket,
      admitted: int) {
    && key in Table(cfg, false, reqs) && Table(cfg, false, reqs)[key] == bucket
    && Admitted(cfg, false, reqs, key, lo, hi) == admitted
  }

  lemma LeavesOneMore(cfg: Settings, init: seq<Request>, req: Request, now: int, key: string, limit: int, lo: int,
      hi: int)
    requires KeyHasLimit(cfg, key, limit) && Key(req) == key
    ensures var bucket := ChargedUnder(cfg, Table(cfg, false, init), key, now);
            Leaves(cfg, init + [req.(now := now)], key, lo, hi, bucket,
                   Admitted(cfg, false, init, key, lo, hi) + if lo <= now < hi && bucket.count <= limit then 1 else 0)
  {
    assert Key(req.(now := now)) == key;
    Snoc(cfg, init, req.(now := now));
    OneMore(cfg, init, req.(now := now), key, limit, lo, hi);
  }

  lemma BurstGrows(cfg: Settings, init: seq<Request>, req: Request, key: string, limit: nat, n: nat, m: nat, now: int,
                   bucket: Bucket, admitted: int) returns (next: Bucket, more: int)
    requires cfg.windowMs >= 2 && n < limit && KeyHasLimit(cfg, key, limit) && Key(req) == key
    requires if now == cfg.windowMs then m < limit else now == cfg.windowMs - 1 && m == 0 && n + 1 < limit
    requires Leaves(cfg, init, key, cfg.windowMs - 1, 2 * cfg.windowMs - 1, bucket, admitted)
    requires FillsTwoBuckets(cfg.windowMs, bucket, admitted, n, m)
    ensures Leaves(cfg, init + [req.(now := now)], key, cfg.windowMs - 1, 2 * cfg.windowMs - 1, next, more)
    ensures if now == cfg.windowMs then FillsTwoBuckets(cfg.windowMs, next, more, n, m + 1)
            else FillsTwoBuckets(cfg.windowMs, next, more, n + 1, 0)
  {
    var w := cfg.windowMs;
    LeavesOneMore(cfg, init, req, now, key, limit, w - 1, 2 * w - 1);
    next := ChargedUnder(cfg, Table(cfg, false, init), key, now);
    more := admitted + if w - 1 <= now < 2 * w - 1 && next.count <= limit then 1 else 0;
  }

  lemma BurstOpens(cfg: Settings, req: Request, key: string, limit: nat)
    requires cfg.windowMs >= 2 && KeyHasLimit(cfg, key, limit) && Key(req) == key
    ensures Leaves(cfg, [] + [req.(now := 0)], key, cfg.windowMs - 1, 2 * cfg.windowMs - 1, Bucket(1, cfg.windowMs), 0)
  {
    LeavesOneMore(cfg, [], req, 0, key, limit, cfg.windowMs - 1, 2 * cfg.windowMs - 1);
  }

  lemma {:induction false} BurstFillsTwoBuckets(cfg: Settings, req: Request, key: string, limit: nat, n: nat, m: nat)
    returns (bucket: Bucket, admitted: int)
    requires cfg.windowMs >= 2 && n < limit && m <= limit && KeyHasLimit(cfg, key, limit) && Key(req) == key
    ensures Leaves(cfg, Burst(cfg, req, n, m), key, cfg.windowMs - 1, 2 * cfg.windowMs - 1, bucket, admitted)
    ensures FillsTwoBuckets(cfg.windowMs, bucket, admitted, n, m)
  {
    if m > 0 {
      bucket, admitted := BurstFillsTwoBuckets(cfg, req, key, limit, n, m - 1);
      bucket, admitted := BurstGrows(cfg, Burst(cfg, req, n, m - 1), req, key, limit, n, m - 1, cfg.windowMs, bucket,
        admitted);
    } else if n > 0 {
      bucket, admitted := BurstFillsTwoBuckets(cfg, req, key, limit, n - 1, 0);
      bucket, admitted := BurstGrows(cfg, Burst(cfg, req, n - 1, 0), req, key, limit, n - 1, 0, cfg.windowMs - 1,
        bucket, admitted);
    } else {
      BurstOpens(cfg, req, key, limit);
      bucket, admitted := Bucket(1, cfg.windowMs), 0;
    }
  }

  // ------------------------------------------------- the remaining count

  /** A run followed by `n` times the same request. */
  ghost function Again(reqs: seq<Request>, req: Request, n: nat): (r: seq<Request>)
    ensures n > 0 ==> r != []
  {
    if n == 0 then reqs else Again(reqs, req, n - 1) + [req]
  }

  ghost predicate HasBucket(table: Buckets, key: string, bucket: Bucket) {
    key in table && table[key] == bucket
  }

  lemma OnceAgain(cfg: Settings, reqs: seq<Request>, req: Request, key: string, bucket: Bucket)
    requires Key(req) == key && HasBucket(Table(cfg, false, reqs), key, bucket) && bucket.resetAt > req.now
    ensures HasBucket(Table(cfg, false, reqs + [req]), key, bucket.(count := bucket.count + 1))
  {
    Snoc(cfg, reqs, req);
  }

  lemma {:induction false} AgainCharges(cfg: Settings, reqs: seq<Request>, req: Request, key: string, bucket: Bucket,
                                        n: nat, run: seq<Request>)
    requires Key(req) == key && HasBucket(Table(cfg, false, reqs), key, bucket) && bucket.resetAt > req.now
    requires run == Again(reqs, req, n)
    ensures HasBucket(Table(cfg, false, run), key, bucket.(count := bucket.count + n))
  {
    if n > 0 {
      var init := Again(reqs, req, n - 1);
      AgainCharges(cfg, reqs, req, key, bucket, n - 1, init);
      OnceAgain(cfg, init, req, key, bucket.(count := bucket.count + n - 1));
    }
  }

  lemma {:induction false} AgainClock(reqs: seq<Request>, req: Request, n: nat)
    requires ClockRuns(reqs + [req])
    ensures ClockRuns(Again(reqs + [req], req, n))
    ensures forall r :: r in Again(reqs + [req], req, n) ==> r.now <= req.now
  {
    if n > 0 {
      AgainClock(reqs, req, n - 1);
    } else {
      forall r | r in reqs + [req] ensures r.now <= req.now {
        var i :| 0 <= i < |reqs + [req]| && (reqs + [req])[i] == r;
        assert (reqs + [req])[|reqs|] == req;
      }
    }
  }

  /** The remaining count keeps its word: of the requests that repeat the last one at once, the
      `n`-th gets through exactly when `n` is at most what was reported as remaining. */
  ghost predicate KeepsWord(cfg: Settings, reqs: seq<Request>, req: Request) {
    forall n: nat :: n > 0 ==> KeepsWordFor(cfg, reqs, req, n)
  }

  ghost predicate KeepsWordFor(cfg: Settings, reqs: seq<Request>, req: Request, n: nat)
    requires n > 0
  {
    LastVerdict(cfg, true, Again(reqs + [req], req, n)).admitted <==>
      n <= LastVerdict(cfg, true, reqs + [req]).remaining
  }

  /** It does after every run, if and only if the window is longer than nothing or the limit lets
      nothing through anyway. */
  lemma RemainingIsTruthful(cfg: Settings, reqs: seq<Request>, req: Request)
    requires ClockRuns(reqs + [req])
    ensures KeepsWord(cfg, reqs, req) <==> cfg.windowMs > 0 || Limit(cfg, req.policy) <= 0
  {
    var limit := Limit(cfg, req.policy);
    forall n: nat | n > 0
      ensures if cfg.windowMs > 0 || limit <= 0 then KeepsWordFor(cfg, reqs, req, n)
              else KeepsWordFor(cfg, reqs, req, n) <==> n < limit
    {
      AgainClock(reqs, req, n);
      SweepIsInvisible(cfg, reqs + [req]);
      SweepIsInvisible(cfg, Again(reqs + [req], req, n));
      if cfg.windowMs > 0 {
        RepeatVerdict(cfg, reqs, req, Key(req), n);
      } else {
        FreshVerdict(cfg, reqs, req, n);
      }
    }
    if cfg.windowMs <= 0 && limit > 0 {
      assert !KeepsWordFor(cfg, reqs, req, limit);
    }
  }

  /** In an empty window every request is the first of its bucket. */
  lemma FreshVerdict(cfg: Settings, reqs: seq<Request>, req: Request, n: nat)
    requires cfg.windowMs <= 0 && n > 0 && ClockRuns(reqs + [req])
    ensures LastVerdict(cfg, false, Again(reqs + [req], req, n)).admitted <==> Limit(cfg, req.policy) >= 1
    ensures LastVerdict(cfg, false, reqs + [req]).remaining == Max(0, Limit(cfg, req.policy) - 1)
  {
    var init := Again(reqs + [req], req, n - 1);
    AgainClock(reqs, req, n);
    assert Again(reqs + [req], req, n) == init + [req];
    FirstInBucket(cfg, reqs, req);
    FirstInBucket(cfg, init, req);
    Snoc(cfg, reqs, req);
    Snoc(cfg, init, req);
  }

  lemma RepeatVerdict(cfg: Settings, reqs: seq<Request>, req: Request, key: string, n: nat)
    requires cfg.windowMs > 0 && n > 0 && Key(req) == key
    ensures LastVerdict(cfg, false, Again(reqs + [req], req, n)).admitted <==>
              n <= LastVerdict(cfg, false, reqs + [req]).remaining
  {
    var bucket := FirstCharge(cfg, reqs, req, key);
    var run := Again(reqs + [req], req, n - 1);
    AgainCharges(cfg, reqs + [req], req, key, bucket, n - 1, run);
    LastOfBucket(cfg, run, req, key, bucket.(count := bucket.count + n - 1));
  }

  lemma FirstCharge(cfg: Settings, reqs: seq<Request>, req: Request, key: string) returns (bucket: Bucket)
    requires cfg.windowMs > 0 && Key(req) == key
    ensures HasBucket(Table(cfg, false, reqs + [req]), key, bucket) && bucket.resetAt > req.now
    ensures LastVerdict(cfg, false, reqs + [req]).remaining == Max(0, Limit(cfg, req.policy) - bucket.count)
  {
    Snoc(cfg, reqs, req);
    bucket := ChargedUnder(cfg, Table(cfg, false, reqs), key, req.now);
  }

  lemma LastOfBucket(cfg: Settings, reqs: seq<Request>, req: Request, key: string, bucket: Bucket)
    requires Key(req) == key && HasBucket(Table(cfg, false, reqs), key, bucket) && bucket.resetAt > req.now
    ensures LastVerdict(cfg, false, reqs + [req]).admitted <==> bucket.count + 1 <= Limit(cfg, req.policy)
  {
    Snoc(cfg, reqs, req);
  }

  lemma AdmittedByBurst(cfg: Settings, req: Request, key: string, limit: nat, n: nat, reqs: seq<Request>)
    requires cfg.windowMs >= 2 && limit == n + 1 && KeyHasLimit(cfg, key, limit) && Key(req) == key
    requires reqs == Burst(cfg, req, n, n + 1)
    ensures Admitted(cfg, false, reqs, key, cfg.windowMs - 1, 2 * cfg.windowMs - 1) == 2 * n + 1
  {
    var bucket, admitted := BurstFillsTwoBuckets(cfg, req, key, limit, n, n + 1);
  }

  lemma SharpBurst(cfg: Settings, req: Request, key: string, limit: nat) returns (reqs: seq<Request>)
    requires cfg.windowMs >= 2 && limit >= 1 && KeyHasLimit(cfg, key, limit) && Key(req) == key
    ensures ClockRuns(reqs)
    ensures Admitted(cfg, false, reqs, key, cfg.windowMs - 1, 2 * cfg.windowMs - 1) == 2 * limit - 1
  {
    var n := limit - 1;
    reqs := Burst(cfg, req, n, n + 1);
    BurstClock(cfg, req, n, n + 1);
    AdmittedByBurst(cfg, req, key, limit, n, reqs);
  }

  /** Within a window of one millisecond the first `n + 1` of equal requests all get through. */
  lemma {:induction false} AgainAdmitted(cfg: Settings, req: Request, key: string, limit: int, n: nat)
    requires cfg.windowMs == 1 && n < limit && KeyHasLimit(cfg, key, limit) && Key(req) == key
    ensures HasBucket(Table(cfg, false, Again([req], req, n)), key, Bucket(n + 1, req.now + 1))
    ensures Admitted(cfg, false, Again([req], req, n), key, req.now, req.now + 1) == n + 1
  {
    if n > 0 {
      var init := Again([req], req, n - 1);
      AgainAdmitted(cfg, req, key, limit, n - 1);
      OnceAgain(cfg, init, req, key, Bucket(n, req.now + 1));
      OneMore(cfg, init, req, key, limit, req.now, req.now + 1);
      assert Again([req], req, n) == init + [req];
    } else {
      Snoc(cfg, [], req);
      OneMore(cfg, [], req, key, limit, req.now, req.now + 1);
      assert [] + [req] == [req];
    }
  }

  /** In an empty window equal requests all open a bucket of their own and get through. */
  lemma {:induction false} EachOpens(cfg: Settings, req: Request, key: string, limit: int, n: nat, reqs: seq<Request>)
    requires cfg.windowMs <= 0 && limit >= 1 && KeyHasLimit(cfg, key, limit) && Key(req) == key
    requires reqs == Again([req], req, n)
    ensures HasBucket(Table(cfg, false, reqs), key, Bucket(1, req.now + cfg.windowMs))
    ensures Admitted(cfg, false, reqs, key, req.now, req.now + 1) == n + 1
  {
    if n > 0 {
      var init := Again([req], req, n - 1);
      EachOpens(cfg, req, key, limit, n - 1, init);
      Snoc(cfg, init, req);
      OneMore(cfg, init, req, key, limit, req.now, req.now + 1);
    } else {
      Snoc(cfg, [], req);
      OneMore(cfg, [], req, key, limit, req.now, req.now + 1);
      assert [] + [req] == [req];
    }
  }

  lemma SharpRepeats(cfg: Settings, req: Request, key: string, limit: int) returns (reqs: seq<Request>)
    requires cfg.windowMs == 1 && limit >= 1 && KeyHasLimit(cfg, key, limit) && Key(req) == key
    ensures ClockRuns(reqs)
    ensures Admitted(cfg, false, reqs, key, req.now, req.now + 1) == limit
  {
    var n := limit - 1;
    reqs := Again([req], req, n);
    RepeatsClock(req, n);
    AgainAdmitted(cfg, req, key, limit, n);
  }

  lemma RepeatsClock(req: Request, n: nat)
    ensures ClockRuns(Again([req], req, n))
  {
    assert [] + [req] == [req];
    AgainClock([], req, n);
  }

  /** The interval bound cannot be improved, for any positive limit and any window. */
  lemma IntervalBoundIsSharp(cfg: Settings, req: Request) returns (reqs: seq<Request>, lo: int)
    requires cfg.windowMs >= 1 && Limit(cfg, req.policy) >= 1
    ensures ClockRuns(reqs)
    ensures Admitted(cfg, true, reqs, Key(req), lo, lo + cfg.windowMs) == Most(cfg.windowMs, Limit(cfg, req.policy))
  {
    var limit, key := Limit(cfg, req.policy), Key(req);
    LimitOfKey(cfg, req);
    if cfg.windowMs == 1 {
      reqs := SharpRepeats(cfg, req, key, limit);
      lo := req.now;
    } else {
      reqs := SharpBurst(cfg, req, key, limit);
      lo := cfg.windowMs - 1;
    }
    SameAdmissions(cfg, reqs, key, lo, lo + cfg.windowMs);
  }
}
