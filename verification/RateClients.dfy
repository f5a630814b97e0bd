/** Whose requests share a bucket of the limiter: one client on one route, and nobody else. */
module RateClients {
  import opened RateLimiter

  // --------------------------------------------------------------- the keys

  lemma JoinedAlike(x: string, r: string, y: string, q: string)
    requires |x| <= |y|
    ensures x + ":" + r == y + ":" + q <==>
              (x == y && r == q) || exists t :: y == x + ":" + t && r == t + ":" + q
  {
    var s, s' := x + ":" + r, y + ":" + q;
    if s == s' {
      assert s[..|x|] == x && s'[..|y|] == y;
      if |x| == |y| {
        assert s[|x|+1..] == r && s'[|y|+1..] == q;
      } else {
        var t := y[|x|+1..];
        assert y == s[..|y|] == x + ":" + t;
        assert r == s[|x|+1..] == s'[|x|+1..] == t + ":" + q;
      }
    }
    if t :| y == x + ":" + t && r == t + ":" + q {
      assert x + ":" + (t + ":" + q) == (x + ":" + t) + ":" + q;
    }
  }

  lemma SameRest(a: Request, b: Request)
    requires a.policy == b.policy
    ensures Key(a) == Key(b) <==> a.address + ":" + a.route == b.address + ":" + b.route
  {
    var name, x, y := PolicyName(a.policy), a.address + ":" + a.route, b.address + ":" + b.route;
    assert Key(a) == name + ":" + x && Key(b) == name + ":" + y;
    assert (name + ":" + x)[|name|+1..] == x && (name + ":" + y)[|name|+1..] == y;
  }

  /** Exactly when two requests share a bucket: with the same policy, address and route, or where
      one address and route split the same text at another colon. */
  lemma KeysCollideIff(a: Request, b: Request)
    requires |a.address| <= |b.address|
    ensures Key(a) == Key(b) <==>
              && a.policy == b.policy
              && ((a.address == b.address && a.route == b.route)
                  || exists t :: b.address == a.address + ":" + t && a.route == t + ":" + b.route)
  {
    if Key(a) == Key(b) { KeyTellsPolicy(a, b); }
    if a.policy == b.policy {
      SameRest(a, b);
      JoinedAlike(a.address, a.route, b.address, b.route);
    }
  }

  /** On one route different addresses have different keys. */
  lemma KeyTellsAddress(a: Request, b: Request)
    requires a.policy == b.policy && a.route == b.route && Key(a) == Key(b)
    ensures a.address == b.address
  {
    SameRest(a, b);
    assert |a.address + ":" + a.route| == |b.address + ":" + b.route|;
    assert (a.address + ":" + a.route)[..|a.address|] == a.address;
    assert (b.address + ":" + b.route)[..|b.address|] == b.address;
  }

  /** And so have different routes of one address. */
  lemma KeyTellsRoute(a: Request, b: Request)
    requires a.policy == b.policy && a.address == b.address && Key(a) == Key(b)
    ensures a.route == b.route
  {
    SameRest(a, b);
    assert (a.address + ":" + a.route)[|a.address|+1..] == a.route;
    assert (b.address + ":" + b.route)[|b.address|+1..] == b.route;
  }

  /** A request as it arrives: its route is a path, and its address has no slash in it. */
  ghost predicate Arrives(r: Request) {
    r.route != "" && r.route[0] == '/' && '/' !in r.address
  }

  ghost predicate SameClient(a: Request, b: Request) {
    a.policy == b.policy && a.address == b.address && a.route == b.route
  }

  /** Requests as they arrive share a bucket exactly when policy, address and route agree. */
  lemma ArrivalsApart(a: Request, b: Request)
    requires Arrives(a) && Arrives(b)
    ensures Key(a) == Key(b) <==> SameClient(a, b)
  {
    if |a.address| <= |b.address| { NoCollision(a, b); } else { NoCollision(b, a); }
  }

  lemma NoCollision(a: Request, b: Request)
    requires Arrives(a) && Arrives(b) && |a.address| <= |b.address|
    ensures Key(a) == Key(b) <==> SameClient(a, b)
  {
    KeysCollideIff(a, b);
    forall t ensures !(b.address == a.address + ":" + t && a.route == t + ":" + b.route) {
      if a.route == t + ":" + b.route { SlashAhead(a.route, t, b.route); }
      if b.address == a.address + ":" + t { NoSlashBehind(a.address, t); }
    }
  }

  lemma SlashAhead(route: string, t: string, rest: string)
    requires route == t + ":" + rest && route[0] == '/'
    ensures '/' in t
  {
    assert route[0] == (t + ":" + rest)[0];
  }

  lemma NoSlashBehind(address: string, t: string)
    ensures '/' in t ==> '/' in address + ":" + t
  {
  }

  // --------------------------------------------------------------- the runs

  /** The run without the requests that are gone. */
  ghost function Kept(reqs: seq<Request>, gone: Request -> bool): (kept: seq<Request>)
    ensures forall r :: r in kept ==> r in reqs && !gone(r)
  {
    if reqs == [] then []
    else
      var init, last := reqs[..|reqs|-1], reqs[|reqs|-1];
      assert reqs == init + [last];
      Kept(init, gone) + if gone(last) then [] else [last]
  }

  ghost predicate SameBucket(s: Buckets, t: Buckets, key: string) {
    (key in s <==> key in t) && (key in s ==> s[key] == t[key])
  }

  lemma {:induction false} BucketKept(cfg: Settings, reqs: seq<Request>, gone: Request -> bool, key: string)
    requires forall r :: r in reqs && gone(r) ==> Key(r) != key
    ensures SameBucket(Table(cfg, false, reqs), Table(cfg, false, Kept(reqs, gone)), key)
  {
    if reqs != [] {
      var init, last := reqs[..|reqs|-1], reqs[|reqs|-1];
      assert reqs == init + [last];
      BucketKept(cfg, init, gone, key);
      BucketNext(cfg, init, Kept(init, gone), last, key);
      if gone(last) { assert Kept(reqs, gone) == Kept(init, gone); }
    }
  }

  lemma BucketNext(cfg: Settings, run: seq<Request>, run': seq<Request>, last: Request, key: string)
    requires SameBucket(Table(cfg, false, run), Table(cfg, false, run'), key)
    ensures SameBucket(Table(cfg, false, run + [last]), Table(cfg, false, run' + [last]), key)
    ensures Key(last) != key ==> SameBucket(Table(cfg, false, run + [last]), Table(cfg, false, run'), key)
  {
    Snoc(cfg, run, last);
    Snoc(cfg, run', last);
  }

  lemma {:induction false} KeptClock(reqs: seq<Request>, gone: Request -> bool)
    requires ClockRuns(reqs)
    ensures ClockRuns(Kept(reqs, gone))
    decreases |reqs|, 0
  {
    if reqs != [] {
      var init, last := reqs[..|reqs|-1], reqs[|reqs|-1];
      assert reqs == init + [last];
      ClockBefore(init, last);
      KeptClockWith(init, last, gone);
    }
  }

  lemma KeptClockWith(reqs: seq<Request>, last: Request, gone: Request -> bool)
    requires ClockRuns(reqs + [last])
    ensures ClockRuns(Kept(reqs, gone)) && ClockRuns(Kept(reqs, gone) + [last])
    decreases |reqs|, 1
  {
    ClockBefore(reqs, last);
    KeptClock(reqs, gone);
    ClockGoesOn(Kept(reqs, gone), last);
  }

  /** Requests under other keys do not matter: leaving them out of a run changes no verdict. */
  lemma OtherKeysDoNotMatter(cfg: Settings, reqs: seq<Request>, last: Request, gone: Request -> bool)
    requires ClockRuns(reqs + [last]) && forall r :: r in reqs && gone(r) ==> Key(r) != Key(last)
    ensures ClockRuns(Kept(reqs, gone) + [last])
    ensures LastVerdict(cfg, true, Kept(reqs, gone) + [last]) == LastVerdict(cfg, true, reqs + [last])
  {
    KeptClockWith(reqs, last, gone);
    SweepIsInvisible(cfg, reqs + [last]);
    SweepIsInvisible(cfg, Kept(reqs, gone) + [last]);
    BucketKept(cfg, reqs, gone, Key(last));
    Snoc(cfg, reqs, last);
    Snoc(cfg, Kept(reqs, gone), last);
  }

  /** A request of another client of the same route. */
  predicate Stranger(client: Request, r: Request) {
    r.policy == client.policy && r.route == client.route && r.address != client.address
  }

  /** No client takes anything from another: leaving all requests of other addresses out of a run
      changes no verdict on a request of the client on the route. */
  lemma ClientsAreApart(cfg: Settings, reqs: seq<Request>, last: Request)
    requires ClockRuns(reqs + [last])
    ensures LastVerdict(cfg, true, Kept(reqs, r => Stranger(last, r)) + [last]) == LastVerdict(cfg, true, reqs + [last])
  {
    forall r | r in reqs && Stranger(last, r) ensures Key(r) != Key(last) {
      if Key(r) == Key(last) { KeyTellsAddress(r, last); }
    }
    OtherKeysDoNotMatter(cfg, reqs, last, r => Stranger(last, r));
  }

  /** In runs of requests as they arrive it changes no verdict at all on a request that stays. */
  lemma StrangersDoNotMatter(cfg: Settings, reqs: seq<Request>, last: Request, client: Request)
    requires ClockRuns(reqs + [last]) && Arrives(last) && !Stranger(client, last)
    requires forall r :: r in reqs ==> Arrives(r)
    ensures LastVerdict(cfg, true, Kept(reqs, r => Stranger(client, r)) + [last])
            == LastVerdict(cfg, true, reqs + [last])
  {
    forall r | r in reqs && Stranger(client, r) ensures Key(r) != Key(last) {
      ArrivalsApart(r, last);
    }
    OtherKeysDoNotMatter(cfg, reqs, last, r => Stranger(client, r));
  }

  // ------------------------------------------------------ the first request

  /** What a client is told that has not been seen on the route before: the limit of its policy,
      what is left of it, and the first full second at which the window has passed. */
  lemma FirstOfClient(cfg: Settings, reqs: seq<Request>, first: Request)
    requires ClockRuns(reqs + [first]) && Arrives(first)
    requires forall r :: r in reqs ==> Arrives(r) && !SameClient(r, first)
    ensures var verdict := LastVerdict(cfg, true, reqs + [first]);
            var limit := if first.policy == Auth then cfg.authLimit else cfg.mutationLimit;
            && (verdict.admitted <==> 1 <= limit) && verdict.limit == limit
            && verdict.remaining == (if limit <= 1 then 0 else limit - 1)
            && 1000 * (verdict.resetSeconds - 1) < first.now + cfg.windowMs <= 1000 * verdict.resetSeconds
  {
    var gone := (r: Request) => true;
    forall r | r in reqs ensures Key(r) != Key(first) { ArrivalsApart(r, first); }
    OtherKeysDoNotMatter(cfg, reqs, first, gone);
    NoneKept(reqs, gone);
    SweepIsInvisible(cfg, [] + [first]);
    Snoc(cfg, [], first);
  }

  lemma {:induction false} NoneKept(reqs: seq<Request>, gone: Request -> bool)
    requires forall r :: gone(r)
    ensures Kept(reqs, gone) == []
  {
    if reqs != [] { NoneKept(reqs[..|reqs|-1], gone); }
  }

  // -------------------------------------------------------------- the sweep

  /** After an admitted request the table holds at most ten thousand buckets, or live ones only;
      up to ten thousand, and after a rejection, nothing is swept away. */
  lemma SweepsAboveTenThousand(cfg: Settings, table: Buckets, req: Request)
    ensures var next, verdict := After(cfg, true, table, req), VerdictOn(cfg, req.policy, Charged(cfg, table, req));
            && (verdict.admitted && |next| > 10_000 ==> forall key :: key in next ==> next[key].resetAt > req.now)
            && (!verdict.admitted || |table.Keys + {Key(req)}| <= 10_000 ==> next.Keys == table.Keys + {Key(req)})
  {
    var charged := table[Key(req) := Charged(cfg, table, req)];
    assert charged.Keys == table.Keys + {Key(req)};
    assert |charged| == |charged.Keys|;
  }
}
