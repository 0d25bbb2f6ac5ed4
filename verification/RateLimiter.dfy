/** The fixed-window rate limiter: one bucket per key in a shared map, which is swept of expired
    buckets whenever it has grown large. Times are whole milliseconds. */
module RateLimiter {
  import opened Common

  const SWEEP_ABOVE := 5000

  datatype Bucket = Bucket(count: nat, resetAt: int)

  type Buckets = map<string, Bucket>

  /** One limiter: its name, and how many requests it allows per window. */
  datatype Limit = Limit(name: string, max: nat, windowMs: nat)

  /** A request as one limiter sees it: `seen` says that the limiter has already counted it. */
  datatype Request = Request(client: string, now: int, seen: bool)

  datatype Verdict = Pass | Reject(retryAfterSeconds: int)

  function Key(limit: Limit, client: string): string {
    limit.name + ":" + client
  }

  // ----- the specification: a map that is never swept

  /** The bucket a request is counted in, with the request counted. */
  function Charged(buckets: Buckets, key: string, now: int, windowMs: nat): Bucket {
    if key !in buckets || buckets[key].resetAt <= now then Bucket(1, now + windowMs)
    else buckets[key].(count := buckets[key].count + 1)
  }

  function VerdictFor(bucket: Bucket, max: nat, now: int): Verdict {
    if bucket.count > max then Reject(Max(1, CeilSeconds(bucket.resetAt - now))) else Pass
  }

  function CeilSeconds(ms: int): int {
    -(-ms / 1000)
  }

  datatype Reply = Reply(buckets: Buckets, verdict: Verdict)

  function Handle(buckets: Buckets, limit: Limit, r: Request): Reply {
    if r.seen then Reply(buckets, Pass)
    else
      var bucket := Charged(buckets, Key(limit, r.client), r.now, limit.windowMs);
      Reply(buckets[Key(limit, r.client) := bucket], VerdictFor(bucket, limit.max, r.now))
  }

  // ----- the limiter with eviction

  function Unexpired(buckets: Buckets, now: int): Buckets {
    map k | k in buckets && now < buckets[k].resetAt :: buckets[k]
  }

  function Swept(buckets: Buckets, now: int): Buckets {
    if |buckets| > SWEEP_ABOVE then Unexpired(buckets, now) else buckets
  }

  function HandleSwept(buckets: Buckets, limit: Limit, r: Request): Reply {
    var plain := Handle(buckets, limit, r);
    if r.seen then plain else plain.(buckets := Swept(plain.buckets, r.now))
  }

  /** The limiter as it runs: one map shared by every limiter, updated and swept in place. */
  class SharedLimiter {
    var buckets: Buckets

    constructor ()
      ensures buckets == map[]
    {
      buckets := map[];
    }

    method Sweep(now: int)
      modifies this
      ensures buckets == Unexpired(old(buckets), now)
    {
      var todo := buckets.Keys;
      while todo != {}
        invariant todo <= buckets.Keys <= old(buckets).Keys
        invariant forall k | k in old(buckets) && (k in todo || now < old(buckets)[k].resetAt) :: k in buckets
        invariant forall k | k in buckets :: buckets[k] == old(buckets)[k] && (k in todo || now < buckets[k].resetAt)
        decreases todo
      {
        var k :| k in todo;
        if buckets[k].resetAt <= now {
          buckets := buckets - {k};
        }
        todo := todo - {k};
      }
    }

    method Admit(limit: Limit, r: Request) returns (verdict: Verdict)
      modifies this
      ensures Reply(buckets, verdict) == HandleSwept(old(buckets), limit, r)
    {
      if r.seen {
        return Pass;
      }
      var key := Key(limit, r.client);
      var bucket: Bucket;
      if key !in buckets || buckets[key].resetAt <= r.now {
        bucket := Bucket(0, r.now + limit.windowMs);
      } else {
        bucket := buckets[key];
      }
      bucket := bucket.(count := bucket.count + 1);
      buckets := buckets[key := bucket];
      if |buckets| > SWEEP_ABOVE {
        Sweep(r.now);
      }
      if bucket.count > limit.max {
        return Reject(Max(1, CeilSeconds(bucket.resetAt - r.now)));
      }
      return Pass;
    }
  }

  // ----- sweeping changes no decision

  /** A request to one of the limiters. */
  datatype Call = Call(limit: Limit, request: Request)

  ghost predicate ClockOrdered(calls: seq<Call>) {
    forall i, j | 0 <= i < j < |calls| :: calls[i].request.now <= calls[j].request.now
  }

  function Verdicts(buckets: Buckets, calls: seq<Call>): (v: seq<Verdict>)
    ensures |v| == |calls|
    decreases |calls|
  {
    if calls == [] then []
    else
      var reply := Handle(buckets, calls[0].limit, calls[0].request);
      [reply.verdict] + Verdicts(reply.buckets, calls[1..])
  }

  function VerdictsSwept(buckets: Buckets, calls: seq<Call>): (v: seq<Verdict>)
    ensures |v| == |calls|
    decreases |calls|
  {
    if calls == [] then []
    else
      var reply := HandleSwept(buckets, calls[0].limit, calls[0].request);
      [reply.verdict] + VerdictsSwept(reply.buckets, calls[1..])
  }

  /** `swept` is `full` without some buckets that have expired by `now`. */
  ghost predicate OnlyExpiredMissing(full: Buckets, swept: Buckets, now: int) {
    && (forall k | k in swept :: k in full && swept[k] == full[k])
    && (forall k | k in full && k !in swept :: full[k].resetAt <= now)
  }

  lemma StepAgrees(full: Buckets, swept: Buckets, before: int, limit: Limit, r: Request)
    requires OnlyExpiredMissing(full, swept, before) && before <= r.now
    ensures HandleSwept(swept, limit, r).verdict == Handle(full, limit, r).verdict
    ensures OnlyExpiredMissing(Handle(full, limit, r).buckets, HandleSwept(swept, limit, r).buckets, r.now)
  {
    if !r.seen {
      var key := Key(limit, r.client);
      assert Charged(swept, key, r.now, limit.windowMs) == Charged(full, key, r.now, limit.windowMs);
    }
  }

  /** On any sequence of calls with a non-decreasing clock, over any number of limiters and
      clients, the swept map accepts and rejects exactly as one that is never swept. */
  lemma {:induction false} SweepingIsInvisible(full: Buckets, swept: Buckets, before: int, calls: seq<Call>)
    requires OnlyExpiredMissing(full, swept, before) && ClockOrdered(calls)
    requires forall i | 0 <= i < |calls| :: before <= calls[i].request.now
    ensures VerdictsSwept(swept, calls) == Verdicts(full, calls)
    decreases |calls|
  {
    if calls != [] {
      var limit, r := calls[0].limit, calls[0].request;
      StepAgrees(full, swept, before, limit, r);
      SweepingIsInvisible(Handle(full, limit, r).buckets, HandleSwept(swept, limit, r).buckets, r.now, calls[1..]);
    }
  }

  // ----- how many requests one key gets through

  ghost predicate Hits(c: Call, key: string) {
    !c.request.seen && Key(c.limit, c.request.client) == key
  }

  /** The counted requests for `key`, within [lo, hi), that pass. */
  ghost function Accepted(calls: seq<Call>, verdicts: seq<Verdict>, key: string, lo: int, hi: int): nat
    requires |calls| == |verdicts|
  {
    if calls == [] then 0
    else
      (if Hits(calls[0], key) && lo <= calls[0].request.now < hi && verdicts[0].Pass? then 1 else 0)
      + Accepted(calls[1..], verdicts[1..], key, lo, hi)
  }

  /** Every limiter that shares the key allows `max` requests per `windowMs`. */
  ghost predicate SharedPolicy(calls: seq<Call>, key: string, max: nat, windowMs: nat) {
    forall i | 0 <= i < |calls| && Hits(calls[i], key) ::
      calls[i].limit.max == max && calls[i].limit.windowMs == windowMs
  }

  function Left(max: nat, count: nat): nat {
    if count < max then max - count else 0
  }

  /** A window that outlasts the interval lets through no more than what is left in its bucket. */
  lemma {:induction false} WithinOneWindow(buckets: Buckets, calls: seq<Call>, key: string,
                                           max: nat, windowMs: nat, lo: int, hi: int)
    requires ClockOrdered(calls) && SharedPolicy(calls, key, max, windowMs)
    requires key in buckets && hi <= buckets[key].resetAt
    ensures Accepted(calls, Verdicts(buckets, calls), key, lo, hi) <= Left(max, buckets[key].count)
    decreases |calls|
  {
    if calls == [] {
    } else if calls[0].request.now >= hi {
      NoneAfter(calls, Verdicts(buckets, calls), key, lo, hi);
    } else {
      var reply := Handle(buckets, calls[0].limit, calls[0].request);
      WithinOneWindow(reply.buckets, calls[1..], key, max, windowMs, lo, hi);
    }
  }

  lemma {:induction false} NoneAfter(calls: seq<Call>, verdicts: seq<Verdict>, key: string, lo: int, hi: int)
    requires |calls| == |verdicts|
    requires forall i | 0 <= i < |calls| :: hi <= calls[i].request.now
    ensures Accepted(calls, verdicts, key, lo, hi) == 0
    decreases |calls|
  {
    if calls != [] {
      NoneAfter(calls[1..], verdicts[1..], key, lo, hi);
    }
  }

  /** Once the clock is inside the interval: the rest of the current window, and one more. */
  lemma {:induction false} FromInsideTheInterval(buckets: Buckets, calls: seq<Call>, key: string,
                                                 max: nat, windowMs: nat, lo: int, hi: int)
    requires ClockOrdered(calls) && SharedPolicy(calls, key, max, windowMs)
    requires hi <= lo + windowMs
    requires forall i | 0 <= i < |calls| :: lo <= calls[i].request.now
    ensures Accepted(calls, Verdicts(buckets, calls), key, lo, hi)
         <= max + if key in buckets then Left(max, buckets[key].count) else 0
    decreases |calls|
  {
    if calls != [] {
      var reply := Handle(buckets, calls[0].limit, calls[0].request);
      if Hits(calls[0], key) && (key !in buckets || buckets[key].resetAt <= calls[0].request.now) {
        WithinOneWindow(reply.buckets, calls[1..], key, max, windowMs, lo, hi);
      } else {
        FromInsideTheInterval(reply.buckets, calls[1..], key, max, windowMs, lo, hi);
      }
    }
  }

  /** The most one key can pass in an interval no longer than a window. */
  function SlidingBound(max: nat): nat {
    if max == 0 then 0 else 2 * max - 1
  }

  /** In any half-open interval of one window's length, anywhere in any run over any number of
      keys, one key passes at most 2 * max - 1 requests. */
  lemma {:induction false} SlidingWindowBound(buckets: Buckets, calls: seq<Call>, key: string,
                                              max: nat, windowMs: nat, lo: int, hi: int)
    requires ClockOrdered(calls) && SharedPolicy(calls, key, max, windowMs)
    requires hi <= lo + windowMs
    requires key in buckets ==> buckets[key].count >= 1
    ensures Accepted(calls, Verdicts(buckets, calls), key, lo, hi) <= SlidingBound(max)
    decreases |calls|
  {
    if calls == [] {
    } else if calls[0].request.now < lo {
      var reply := Handle(buckets, calls[0].limit, calls[0].request);
      SlidingWindowBound(reply.buckets, calls[1..], key, max, windowMs, lo, hi);
    } else {
      FromInsideTheInterval(buckets, calls, key, max, windowMs, lo, hi);
    }
  }

  /** The same of the limiter that runs, from an empty map. */
  lemma LimiterHoldsTheBound(calls: seq<Call>, key: string, max: nat, windowMs: nat, lo: int, hi: int)
    requires ClockOrdered(calls) && SharedPolicy(calls, key, max, windowMs)
    requires hi <= lo + windowMs
    ensures Accepted(calls, VerdictsSwept(map[], calls), key, lo, hi) <= SlidingBound(max)
  {
    SlidingWindowBound(map[], calls, key, max, windowMs, lo, hi);
    if calls != [] {
      SweepingIsInvisible(map[], map[], calls[0].request.now, calls);
    }
  }

  // ----- the bound is met

  function Burst(limit: Limit, client: string, now: int, n: nat): (calls: seq<Call>)
    ensures |calls| == n && forall i | 0 <= i < n :: calls[i] == Call(limit, Request(client, now, false))
  {
    seq(n, i => Call(limit, Request(client, now, false)))
  }

  /** A burst that fits in the current bucket passes whole. */
  lemma {:induction false} BurstPasses(buckets: Buckets, limit: Limit, client: string, now: int, n: nat,
                                       rest: seq<Call>, lo: int, hi: int)
    requires var key := Key(limit, client);
             key in buckets && now < buckets[key].resetAt && buckets[key].count + n <= limit.max
    requires lo <= now < hi
    ensures var key := Key(limit, client);
            var after := buckets[key := buckets[key].(count := buckets[key].count + n)];
            var calls := Burst(limit, client, now, n) + rest;
            Accepted(calls, Verdicts(buckets, calls), key, lo, hi)
            == n + Accepted(rest, Verdicts(after, rest), key, lo, hi)
    decreases n
  {
    var key := Key(limit, client);
    var calls := Burst(limit, client, now, n) + rest;
    if n == 0 {
      assert calls == rest && buckets[key := buckets[key].(count := buckets[key].count + n)] == buckets;
    } else {
      assert calls[1..] == Burst(limit, client, now, n - 1) + rest;
      var reply := Handle(buckets, limit, calls[0].request);
      assert reply == Reply(buckets[key := buckets[key].(count := buckets[key].count + 1)], Pass);
      hide Handle, Burst;
      BurstPasses(reply.buckets, limit, client, now, n - 1, rest, lo, hi);
      assert reply.buckets[key := reply.buckets[key].(count := reply.buckets[key].count + (n - 1))]
          == buckets[key := buckets[key].(count := buckets[key].count + n)];
    }
  }

  /** Open a window, fill it in its last millisecond, then fill the next one as it opens. */
  function TightRun(limit: Limit, client: string): seq<Call>
    requires limit.max >= 1
  {
    Burst(limit, client, 0, 1)
    + (Burst(limit, client, limit.windowMs - 1, limit.max - 1)
       + (Burst(limit, client, limit.windowMs, 1) + Burst(limit, client, limit.windowMs, limit.max - 1)))
  }

  lemma TightRunIsAdmissible(limit: Limit, client: string)
    requires limit.max >= 1 && limit.windowMs >= 2
    ensures ClockOrdered(TightRun(limit, client))
    ensures SharedPolicy(TightRun(limit, client), Key(limit, client), limit.max, limit.windowMs)
  {}

  /** A burst of `max` requests at the moment the old window resets passes whole. */
  lemma FreshWindowPasses(buckets: Buckets, limit: Limit, client: string, now: int, lo: int, hi: int)
    requires var key := Key(limit, client); key in buckets && buckets[key].resetAt <= now
    requires limit.max >= 1 && limit.windowMs >= 1 && lo <= now < hi
    ensures var calls := Burst(limit, client, now, 1) + Burst(limit, client, now, limit.max - 1);
            Accepted(calls, Verdicts(buckets, calls), Key(limit, client), lo, hi) == limit.max
  {
    var key, more := Key(limit, client), Burst(limit, client, now, limit.max - 1);
    var calls := Burst(limit, client, now, 1) + more;
    assert calls[0] == Call(limit, Request(client, now, false)) && calls[1..] == more == more + [];
    var reopened := buckets[key := Bucket(1, now + limit.windowMs)];
    assert Handle(buckets, limit, calls[0].request).buckets == reopened;
    BurstPasses(reopened, limit, client, now, limit.max - 1, [], lo, hi);
  }

  lemma BoundIsMet(limit: Limit, client: string)
    requires limit.max >= 1 && limit.windowMs >= 2
    ensures var calls, key := TightRun(limit, client), Key(limit, client);
            && ClockOrdered(calls) && SharedPolicy(calls, key, limit.max, limit.windowMs)
            && Accepted(calls, Verdicts(map[], calls), key, 1, 1 + limit.windowMs) == SlidingBound(limit.max)
  {
    TightRunIsAdmissible(limit, client);
    hide ClockOrdered, SharedPolicy;
    var w, m, key := limit.windowMs, limit.max, Key(limit, client);
    var opening := Burst(limit, client, w, 1) + Burst(limit, client, w, m - 1);
    var calls := TightRun(limit, client);
    assert calls == Burst(limit, client, 0, 1) + (Burst(limit, client, w - 1, m - 1) + opening);
    hide TightRun;
    assert calls[0] == Call(limit, Request(client, 0, false));
    assert calls[1..] == Burst(limit, client, w - 1, m - 1) + opening;
    var first: Buckets := map[key := Bucket(1, w)];
    assert Handle(map[], limit, calls[0].request).buckets == first;
    BurstPasses(first, limit, client, w - 1, m - 1, opening, 1, 1 + w);
    assert Verdicts(map[], calls)[1..] == Verdicts(first, calls[1..]);
    assert Accepted(calls, Verdicts(map[], calls), key, 1, 1 + w)
        == Accepted(calls[1..], Verdicts(first, calls[1..]), key, 1, 1 + w);
    hide Accepted, Verdicts, Burst, Handle;
    FreshWindowPasses(first[key := first[key].(count := 1 + (m - 1))], limit, client, w, 1, 1 + w);
  }

  // ----- the retry hint, and keys

  /** Waiting as long as the rejection says is enough, and one second less is not; until the
      window resets, the client stays rejected. */
  lemma RetryHint(buckets: Buckets, limit: Limit, r: Request, later: Request)
    requires Handle(buckets, limit, r).verdict.Reject? && limit.max >= 1
    requires later.client == r.client && !later.seen && r.now <= later.now
    ensures var reply := Handle(buckets, limit, r);
            var resetAt, seconds := reply.buckets[Key(limit, r.client)].resetAt, reply.verdict.retryAfterSeconds;
            && (Handle(reply.buckets, limit, later).verdict.Pass? <==> resetAt <= later.now)
            && resetAt <= r.now + 1000 * seconds
            && (seconds > 1 ==> r.now + 1000 * (seconds - 1) < resetAt)
  {}

  /** Names without a colon keep the limiters apart, whatever the clients are called. */
  lemma KeysKeepLimitersApart(a: Limit, b: Limit, c: string, d: string)
    requires ':' !in a.name && ':' !in b.name
    ensures Key(a, c) == Key(b, d) <==> a.name == b.name && c == d
  {
    FirstColon(a, c);
    FirstColon(b, d);
    var k, l := Key(a, c), Key(b, d);
    if k == l {
      assert k[..|a.name|] == l[..|b.name|] && k[|a.name| + 1..] == l[|b.name| + 1..];
    }
  }

  lemma FirstColon(limit: Limit, client: string)
    requires ':' !in limit.name
    ensures var k, n := Key(limit, client), |limit.name|;
            && n < |k| && k[n] == ':' && (forall i | 0 <= i < n :: k[i] != ':')
            && k[..n] == limit.name && k[n + 1..] == client
  {
    var k := Key(limit, client);
    forall i | 0 <= i < |limit.name| ensures k[i] != ':' {
      assert k[i] == limit.name[i];
    }
  }

  /** So when a name fixes its limit, each key is under one policy. */
  lemma NamesFixPolicies(calls: seq<Call>, limit: Limit, client: string)
    requires ':' !in limit.name && forall i | 0 <= i < |calls| :: ':' !in calls[i].limit.name
    requires forall i | 0 <= i < |calls| && calls[i].limit.name == limit.name :: calls[i].limit == limit
    ensures SharedPolicy(calls, Key(limit, client), limit.max, limit.windowMs)
  {
    forall i | 0 <= i < |calls| && Hits(calls[i], Key(limit, client)) ensures calls[i].limit == limit {
      KeysKeepLimitersApart(calls[i].limit, limit, calls[i].request.client, client);
    }
  }
}
