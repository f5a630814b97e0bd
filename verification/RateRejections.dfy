/** What a rejected request leaves behind in the limiter: nothing that a later request is granted
    or refused by, and a reset time only where the limit lets nothing through. */
module RateRejections {
  import opened RateLimiter

  /** Tables that agree on every key but `key`. */
  ghost predicate EqualElsewhere(s: Buckets, t: Buckets, key: string) {
    forall k :: k != key ==> (k in s <==> k in t) && (k in s ==> s[k] == t[k])
  }

  /** What a verdict grants: everything in it but the reset time. */
  predicate SameGrant(a: Verdict, b: Verdict) {
    a.admitted == b.admitted && a.limit == b.limit && a.remaining == b.remaining
  }

  lemma ElsewhereStep(cfg: Settings, s: Buckets, t: Buckets, key: string, reqKey: string, now: int)
    requires EqualElsewhere(s, t, key)
    ensures EqualElsewhere(s[reqKey := ChargedUnder(cfg, s, reqKey, now)],
              t[reqKey := ChargedUnder(cfg, t, reqKey, now)], key)
    ensures reqKey != key ==> ChargedUnder(cfg, s, reqKey, now) == ChargedUnder(cfg, t, reqKey, now)
  {
  }

  /** Removing any request leaves the buckets of all other keys as they are. */
  lemma {:induction false} OtherKeysUntouched(cfg: Settings, before: seq<Request>, removed: Request,
      after: seq<Request>)
    ensures EqualElsewhere(Table(cfg, false, before + [removed] + after), Table(cfg, false, before + after),
              Key(removed))
  {
    if after == [] {
      Snoc(cfg, before, removed);
      assert before + [removed] + [] == before + [removed] && before + [] == before;
    } else {
      var init, last := after[..|after|-1], after[|after|-1];
      OtherKeysUntouched(cfg, before, removed, init);
      AppendLast(before, removed, after);
      Snoc(cfg, before + [removed] + init, last);
      Snoc(cfg, before + init, last);
      ElsewhereStep(cfg, Table(cfg, false, before + [removed] + init), Table(cfg, false, before + init), Key(removed),
                    Key(last), last.now);
    }
  }

  /** With no positive limit a key gets nothing, whatever its bucket. */
  lemma NothingGranted(cfg: Settings, policy: Policy, a: Bucket, b: Bucket)
    requires Limit(cfg, policy) <= 0 && a.count >= 1 && b.count >= 1
    ensures SameGrant(VerdictOn(cfg, policy, a), VerdictOn(cfg, policy, b))
  {
  }

  /** Equal tables, but for how far past its limit the bucket of `key` was driven. */
  ghost predicate EqualUpToOverflow(s: Buckets, t: Buckets, key: string, limit: int) {
    && s.Keys == t.Keys
    && (forall k :: k in s && k != key ==> s[k] == t[k])
    && (key in s ==> s[key].resetAt == t[key].resetAt)
    && (key in s && s[key] != t[key] ==> s[key].count >= limit && t[key].count >= limit)
  }

  lemma OverflowStep(cfg: Settings, s: Buckets, t: Buckets, key: string, limit: int, req: Request)
    requires EqualUpToOverflow(s, t, key, limit)
    requires Key(req) == key ==> Limit(cfg, req.policy) == limit
    ensures EqualUpToOverflow(s[Key(req) := Charged(cfg, s, req)], t[Key(req) := Charged(cfg, t, req)], key, limit)
    ensures VerdictOn(cfg, req.policy, Charged(cfg, s, req)) == VerdictOn(cfg, req.policy, Charged(cfg, t, req))
    ensures Charged(cfg, s, req).resetAt == Charged(cfg, t, req).resetAt
  {
  }

  /** The request found a bucket of its key that had not expired. */
  ghost predicate JoinsBucket(cfg: Settings, before: seq<Request>, req: Request) {
    var table := Table(cfg, false, before);
    Key(req) in table && table[Key(req)].resetAt > req.now
  }

  lemma {:induction false} OverflowStaysHidden(cfg: Settings, before: seq<Request>, rejected: Request,
                                               after: seq<Request>, limit: int)
    requires KeyHasLimit(cfg, Key(rejected), limit) && JoinsBucket(cfg, before, rejected)
    requires !LastVerdict(cfg, false, before + [rejected]).admitted
    ensures EqualUpToOverflow(Table(cfg, false, before + [rejected] + after), Table(cfg, false, before + after),
                              Key(rejected), limit)
  {
    if after == [] {
      Snoc(cfg, before, rejected);
      assert before + [rejected] + [] == before + [rejected] && before + [] == before;
    } else {
      var init, last := after[..|after|-1], after[|after|-1];
      OverflowStaysHidden(cfg, before, rejected, init, limit);
      OverflowSnoc(cfg, before + [rejected] + init, before + init, last, Key(rejected), limit);
      AppendLast(before, rejected, after);
    }
  }

  lemma OverflowSnoc(cfg: Settings, run: seq<Request>, run': seq<Request>, last: Request, key: string, limit: int)
    requires KeyHasLimit(cfg, key, limit)
    requires EqualUpToOverflow(Table(cfg, false, run), Table(cfg, false, run'), key, limit)
    ensures EqualUpToOverflow(Table(cfg, false, run + [last]), Table(cfg, false, run' + [last]), key, limit)
  {
    Snoc(cfg, run, last);
    Snoc(cfg, run', last);
    OverflowStep(cfg, Table(cfg, false, run), Table(cfg, false, run'), key, limit, last);
  }

  lemma AppendLast(before: seq<Request>, removed: Request, after: seq<Request>)
    requires after != []
    ensures var init, last := after[..|after|-1], after[|after|-1];
            && before + [removed] + after == before + [removed] + init + [last]
            && before + after == before + init + [last]
  {
  }

  lemma RunsWithout(before: seq<Request>, rejected: Request, after: seq<Request>)
    requires ClockRuns(before + [rejected] + after)
    ensures ClockRuns(before + [rejected]) && ClockRuns(before + after)
  {
    var run, run' := before + [rejected] + after, before + after;
    forall i, j | 0 <= i < j < |before| + 1 ensures (before + [rejected])[i].now <= (before + [rejected])[j].now {
      assert run[i].now <= run[j].now;
    }
    forall i, j | 0 <= i < j < |run'| ensures run'[i].now <= run'[j].now {
      assert run'[i] == run[if i < |before| then i else i + 1];
      assert run'[j] == run[if j < |before| then j else j + 1];
    }
  }

  /** A rejection under a positive limit was a rejection by a live bucket. */
  lemma RejectionJoinsBucket(cfg: Settings, before: seq<Request>, rejected: Request)
    requires ClockRuns(before + [rejected]) && !LastVerdict(cfg, true, before + [rejected]).admitted
    ensures Limit(cfg, rejected.policy) >= 1 ==> JoinsBucket(cfg, before, rejected)
  {
    SweepIsInvisible(cfg, before + [rejected]);
    Snoc(cfg, before, rejected);
  }

  /** The same two runs, seen by the limiter that never deletes a bucket. */
  lemma WithAndWithout(cfg: Settings, before: seq<Request>, rejected: Request, after: seq<Request>, last: Request)
    requires ClockRuns(before + [rejected] + (after + [last]))
    requires !LastVerdict(cfg, true, before + [rejected]).admitted
    ensures !LastVerdict(cfg, false, before + [rejected]).admitted
    ensures LastBucket(cfg, true, before + [rejected] + (after + [last]))
            == Charged(cfg, Table(cfg, false, before + [rejected] + after), last)
    ensures LastBucket(cfg, true, before + (after + [last])) == Charged(cfg, Table(cfg, false, before + after), last)
  {
    RunsWithout(before, rejected, after + [last]);
    assert before + [rejected] + (after + [last]) == before + [rejected] + after + [last];
    assert before + (after + [last]) == before + after + [last];
    SweepIsInvisible(cfg, before + [rejected]);
    SweepIsInvisible(cfg, before + [rejected] + after + [last]);
    SweepIsInvisible(cfg, before + after + [last]);
    Snoc(cfg, before + [rejected] + after, last);
    Snoc(cfg, before + after, last);
  }

  /** A rejected request takes nothing from anyone: under every limit, removing it changes
      neither the admission nor the remaining count of any later request.  If it met a live
      bucket, as it does under every positive limit, it does not move a reset time either. */
  lemma RejectionLeavesNoTrace(cfg: Settings, before: seq<Request>, rejected: Request, after: seq<Request>,
      last: Request)
    requires ClockRuns(before + [rejected] + (after + [last]))
    requires !LastVerdict(cfg, true, before + [rejected]).admitted
    ensures SameGrant(LastVerdict(cfg, true, before + [rejected] + (after + [last])),
                      LastVerdict(cfg, true, before + (after + [last])))
    ensures JoinsBucket(cfg, before, rejected) ==> SameReset(cfg, before, rejected, after, last)
    ensures Limit(cfg, rejected.policy) >= 1 ==> SameReset(cfg, before, rejected, after, last)
  {
    RunsWithout(before, rejected, after + [last]);
    RejectionJoinsBucket(cfg, before, rejected);
    WithAndWithout(cfg, before, rejected, after, last);
    LimitOfKey(cfg, rejected);
    if JoinsBucket(cfg, before, rejected) {
      OverflowStaysHidden(cfg, before, rejected, after, Limit(cfg, rejected.policy));
      OverflowStep(cfg, Table(cfg, false, before + [rejected] + after), Table(cfg, false, before + after),
                   Key(rejected), Limit(cfg, rejected.policy), last);
    } else {
      GrantsNothingAnyway(cfg, before, rejected, after, last);
    }
  }

  lemma GrantsNothingAnyway(cfg: Settings, before: seq<Request>, rejected: Request, after: seq<Request>, last: Request)
    requires Limit(cfg, rejected.policy) <= 0
    ensures SameGrant(VerdictOn(cfg, last.policy, Charged(cfg, Table(cfg, false, before + [rejected] + after), last)),
                      VerdictOn(cfg, last.policy, Charged(cfg, Table(cfg, false, before + after), last)))
  {
    var s, t := Table(cfg, false, before + [rejected] + after), Table(cfg, false, before + after);
    if Key(last) == Key(rejected) {
      KeyTellsPolicy(last, rejected);
      EveryCountPositive(cfg, before + [rejected] + after);
      EveryCountPositive(cfg, before + after);
      NothingGranted(cfg, last.policy, Charged(cfg, s, last), Charged(cfg, t, last));
    } else {
      OtherKeysUntouched(cfg, before, rejected, after);
      ElsewhereStep(cfg, s, t, Key(rejected), Key(last), last.now);
    }
  }

  /** The rejected request does not move the moment at which the bucket of `last` expires. */
  ghost predicate SameReset(cfg: Settings, before: seq<Request>, rejected: Request, after: seq<Request>,
      last: Request) {
    LastBucket(cfg, true, before + [rejected] + (after + [last])).resetAt
    == LastBucket(cfg, true, before + (after + [last])).resetAt
  }

  /** Nor the seconds that the header of its response names. */
  ghost predicate SameHeader(cfg: Settings, before: seq<Request>, rejected: Request, after: seq<Request>,
      last: Request) {
    LastVerdict(cfg, true, before + [rejected] + (after + [last])).resetSeconds
    == LastVerdict(cfg, true, before + (after + [last])).resetSeconds
  }

  /** No continuation of the run shows another reset time. */
  ghost predicate NeverMovesReset(cfg: Settings, before: seq<Request>, rejected: Request) {
    forall after, last :: ClockRuns(before + [rejected] + (after + [last])) ==>
      SameHeader(cfg, before, rejected, after, last)
  }

  /** A rejected request never shows in a later reset time if and only if it met a live bucket,
      as it does under every positive limit, or the window is at most a millisecond. */
  lemma ResetMovesIff(cfg: Settings, before: seq<Request>, rejected: Request)
    requires ClockRuns(before + [rejected]) && !LastVerdict(cfg, true, before + [rejected]).admitted
    ensures NeverMovesReset(cfg, before, rejected) <==> JoinsBucket(cfg, before, rejected) || cfg.windowMs <= 1
  {
    if JoinsBucket(cfg, before, rejected) || cfg.windowMs <= 1 {
      forall after, last | ClockRuns(before + [rejected] + (after + [last]))
        ensures SameHeader(cfg, before, rejected, after, last)
      {
        StaysPut(cfg, before, rejected, after, last);
      }
    } else {
      var end := rejected.now + cfg.windowMs;
      StartOutOfStep(cfg, before, rejected);
      ShowsSomeTime(cfg, before, rejected, [], end, CeilDiv(end, 1000));
    }
  }

  lemma StaysPut(cfg: Settings, before: seq<Request>, rejected: Request, after: seq<Request>, last: Request)
    requires ClockRuns(before + [rejected] + (after + [last]))
    requires !LastVerdict(cfg, true, before + [rejected]).admitted
    requires JoinsBucket(cfg, before, rejected) || cfg.windowMs <= 1
    ensures SameReset(cfg, before, rejected, after, last)
  {
    if JoinsBucket(cfg, before, rejected) {
      RejectionLeavesNoTrace(cfg, before, rejected, after, last);
    } else {
      RunsWithout(before, rejected, after + [last]);
      assert before + [rejected] + (after + [last]) == before + [rejected] + after + [last];
      assert before + (after + [last]) == before + after + [last];
      WithAndWithout(cfg, before, rejected, after, last);
      ShortWindowReset(cfg, before + [rejected] + after, last);
      ShortWindowReset(cfg, before + after, last);
    }
  }

  /** The two runs fell out of step: with the rejected request the bucket of its key expires at
      `end`, without it that bucket is gone before. */
  ghost predicate OutOfStep(cfg: Settings, before: seq<Request>, rejected: Request, after: seq<Request>, end: int) {
    && ClockRuns(before + [rejected] + after)
    && (forall r :: r in before + [rejected] + after ==> r.now <= end - cfg.windowMs)
    && Expires(Table(cfg, false, before + [rejected] + after), Key(rejected), end)
    && GoneBy(Table(cfg, false, before + after), Key(rejected), end - 1)
  }

  ghost predicate Expires(table: Buckets, key: string, end: int) {
    key in table && table[key].resetAt == end
  }

  ghost predicate GoneBy(table: Buckets, key: string, now: int) {
    key in table ==> table[key].resetAt <= now
  }

  lemma KeyIgnoresClock(req: Request, now: int)
    ensures Key(req.(now := now)) == Key(req)
  {
  }

  lemma StartOutOfStep(cfg: Settings, before: seq<Request>, rejected: Request)
    requires ClockRuns(before + [rejected]) && !JoinsBucket(cfg, before, rejected) && cfg.windowMs >= 2
    ensures OutOfStep(cfg, before, rejected, [], rejected.now + cfg.windowMs)
  {
    assert before + [rejected] + [] == before + [rejected] && before + [] == before;
    Snoc(cfg, before, rejected);
    ClockBefore(before, rejected);
  }

  /** A bucket that expires at `end` and one that is gone before: charged at the last moment of
      the first and at the moment after it, each expires in turn. */
  lemma InTurn(cfg: Settings, s: Buckets, t: Buckets, key: string, end: int)
    requires cfg.windowMs >= 2 && Expires(s, key, end) && GoneBy(t, key, end - 1)
    ensures ChargedUnder(cfg, s, key, end - 1).resetAt == end
    ensures ChargedUnder(cfg, t, key, end - 1).resetAt == end - 1 + cfg.windowMs
  {
  }

  lemma NextTurn(cfg: Settings, s: Buckets, t: Buckets, key: string, end: int)
    requires cfg.windowMs >= 2 && Expires(s, key, end) && Expires(t, key, end - 1 + cfg.windowMs)
    ensures ChargedUnder(cfg, s, key, end).resetAt == end + cfg.windowMs
    ensures ChargedUnder(cfg, t, key, end).resetAt == end - 1 + cfg.windowMs
  {
  }

  lemma Repeated(cfg: Settings, run: seq<Request>, req: Request, now: int, resetAt: int)
    requires ChargedUnder(cfg, Table(cfg, false, run), Key(req), now).resetAt == resetAt
    ensures Charged(cfg, Table(cfg, false, run), req.(now := now)).resetAt == resetAt
    ensures Expires(Table(cfg, false, run + [req.(now := now)]), Key(req), resetAt)
  {
    KeyIgnoresClock(req, now);
    Snoc(cfg, run, req.(now := now));
  }

  /** The same request again in both runs, at the last moment of the one bucket. */
  lemma OneMoreRound(cfg: Settings, run: seq<Request>, run': seq<Request>, req: Request, end: int)
    requires cfg.windowMs >= 2 && ClockRuns(run) && forall r :: r in run ==> r.now <= end - cfg.windowMs
    requires Expires(Table(cfg, false, run), Key(req), end) && GoneBy(Table(cfg, false, run'), Key(req), end - 1)
    ensures var first, second := req.(now := end - 1), req.(now := end);
            && ClockRuns(run + [first]) && ClockRuns(run + [first] + [second])
            && (forall r :: r in run + [first] + [second] ==> r.now <= end)
            && Charged(cfg, Table(cfg, false, run), first).resetAt == end
            && Charged(cfg, Table(cfg, false, run'), first).resetAt == end - 1 + cfg.windowMs
            && Charged(cfg, Table(cfg, false, run + [first]), second).resetAt == end + cfg.windowMs
            && Charged(cfg, Table(cfg, false, run' + [first]), second).resetAt == end - 1 + cfg.windowMs
            && Expires(Table(cfg, false, run + [first] + [second]), Key(req), end + cfg.windowMs)
            && Expires(Table(cfg, false, run' + [first] + [second]), Key(req), end - 1 + cfg.windowMs)
  {
    var first, second := req.(now := end - 1), req.(now := end);
    ClockGoesOn(run, first);
    ClockGoesOn(run + [first], second);
    InTurn(cfg, Table(cfg, false, run), Table(cfg, false, run'), Key(req), end);
    Repeated(cfg, run, req, end - 1, end);
    Repeated(cfg, run', req, end - 1, end - 1 + cfg.windowMs);
    NextTurn(cfg, Table(cfg, false, run + [first]), Table(cfg, false, run' + [first]), Key(req), end);
    Repeated(cfg, run + [first], req, end, end + cfg.windowMs);
    Repeated(cfg, run' + [first], req, end, end - 1 + cfg.windowMs);
  }

  lemma Appended(before: seq<Request>, after: seq<Request>, first: Request, second: Request)
    ensures before + (after + [first]) == before + after + [first]
    ensures before + (after + [first] + [second]) == before + after + [first] + [second]
  {
  }

  lemma FullSecondBetween(a: int, b: int, second: int)
    requires a <= 1000 * second < b
    ensures CeilDiv(a, 1000) != CeilDiv(b, 1000)
  {
  }

  lemma HeadersDiffer(cfg: Settings, before: seq<Request>, rejected: Request, after: seq<Request>, last: Request,
      a: int, b: int, second: int)
    requires ClockRuns(before + [rejected] + (after + [last]))
    requires !LastVerdict(cfg, true, before + [rejected]).admitted
    requires Charged(cfg, Table(cfg, false, before + [rejected] + after), last).resetAt == a
    requires Charged(cfg, Table(cfg, false, before + after), last).resetAt == b
    requires a <= 1000 * second < b || b <= 1000 * second < a
    ensures !NeverMovesReset(cfg, before, rejected)
  {
    WithAndWithout(cfg, before, rejected, after, last);
    if a < b { FullSecondBetween(a, b, second); } else { FullSecondBetween(b, a, second); }
    assert !SameHeader(cfg, before, rejected, after, last);
  }

  /** Out of step, the two runs sooner or later show different seconds: between the moments at
      which their buckets expire lies, in one of the rounds, a full second. */
  lemma {:induction false} ShowsSomeTime(cfg: Settings, before: seq<Request>, rejected: Request, after: seq<Request>,
                                         end: int, second: int)
    requires cfg.windowMs >= 2 && OutOfStep(cfg, before, rejected, after, end) && end <= 1000 * second
    requires !LastVerdict(cfg, true, before + [rejected]).admitted
    ensures !NeverMovesReset(cfg, before, rejected)
    decreases 1000 * second - end
  {
    var w, first, next := cfg.windowMs, rejected.(now := end - 1), rejected.(now := end);
    OneMoreRound(cfg, before + [rejected] + after, before + after, rejected, end);
    Appended(before + [rejected], after, first, next);
    Appended(before, after, first, next);
    if 1000 * second < end - 1 + w {
      HeadersDiffer(cfg, before, rejected, after, first, end, end - 1 + w, second);
    } else if 1000 * second == end - 1 + w {
      HeadersDiffer(cfg, before, rejected, after + [first], next, end + w, end - 1 + w, second);
    } else {
      ShowsSomeTime(cfg, before, rejected, after + [first] + [next], end + w, second);
    }
  }

  /** A limit of nothing in a window of a second: whoever is turned away at 0 and asks again half
      a second later is told second 1, and told second 2 had the first request not been made. */
  lemma ResetCanMove(address: string, route: string)
    ensures var cfg := Settings(1000, 0, 60);
            var rejected := Request(Auth, address, route, 0);
            var last := rejected.(now := 500);
            && !LastVerdict(cfg, true, [rejected]).admitted
            && LastVerdict(cfg, true, [rejected, last]).resetSeconds == 1
            && LastVerdict(cfg, true, [last]).resetSeconds == 2
  {
    var cfg := Settings(1000, 0, 60);
    var rejected := Request(Auth, address, route, 0);
    var last := rejected.(now := 500);
    KeyIgnoresClock(rejected, 500);
    SweepIsInvisible(cfg, [rejected]);
    SweepIsInvisible(cfg, [rejected, last]);
    SweepIsInvisible(cfg, [last]);
    assert [] + [rejected] == [rejected] && [rejected] + [last] == [rejected, last] && [] + [last] == [last];
    Snoc(cfg, [], rejected);
    Snoc(cfg, [rejected], last);
    Snoc(cfg, [], last);
  }
}
