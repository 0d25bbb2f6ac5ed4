/** When the rate limiter's windows open and close, told from the history of calls alone. */
module RateWindows {
  import opened Common
  import opened RateLimiter

  // ----- the history

  /** The call counts against `key`. */
  ghost predicate Counted(c: Call, key: string) {
    !c.request.seen && c.limit.name + ":" + c.request.client == key
  }

  /** The n-th call opens a window: it is counted, and no window opened before it still runs. */
  ghost predicate Opens(calls: seq<Call>, key: string, windowMs: nat, n: nat)
    requires n < |calls|
    decreases n
  {
    && Counted(calls[n], key)
    && forall o: nat | o < n && Opens(calls, key, windowMs, o) ::
         calls[o].request.now + windowMs <= calls[n].request.now
  }

  /** The counted calls from the o-th on, before the n-th. */
  ghost function CountedFrom(calls: seq<Call>, key: string, o: nat, n: nat): nat
    requires o <= n <= |calls|
    decreases n
  {
    if o == n then 0
    else CountedFrom(calls, key, o, n - 1) + if Counted(calls[n - 1], key) then 1 else 0
  }

  // ----- the map after some calls

  ghost function MapAfter(buckets: Buckets, calls: seq<Call>, n: nat): Buckets
    requires n <= |calls|
    decreases n
  {
    if n == 0 then buckets
    else MapAfter(Handle(buckets, calls[0].limit, calls[0].request).buckets, calls[1..], n - 1)
  }

  lemma {:induction false} MapAfterNext(buckets: Buckets, calls: seq<Call>, n: nat)
    requires n < |calls|
    ensures MapAfter(buckets, calls, n + 1)
         == Handle(MapAfter(buckets, calls, n), calls[n].limit, calls[n].request).buckets
    ensures Verdicts(buckets, calls)[n]
         == Handle(MapAfter(buckets, calls, n), calls[n].limit, calls[n].request).verdict
    decreases n
  {
    hide Handle;
    if n > 0 {
      MapAfterNext(Handle(buckets, calls[0].limit, calls[0].request).buckets, calls[1..], n - 1);
    }
  }

  /** The latest window opened before the n-th call. */
  ghost function LastOpened(calls: seq<Call>, key: string, windowMs: nat, n: nat): (o: Option<nat>)
    requires n <= |calls|
    ensures o.Some? ==> o.value < n && Opens(calls, key, windowMs, o.value)
    ensures o.Some? ==> forall p: nat | o.value < p < n :: !Opens(calls, key, windowMs, p)
    ensures o.None? ==> forall p: nat | p < n :: !Opens(calls, key, windowMs, p)
    decreases n
  {
    if n == 0 then None
    else if Opens(calls, key, windowMs, n - 1) then Some(n - 1)
    else LastOpened(calls, key, windowMs, n - 1)
  }

  /** A key's bucket holds the number of calls counted in its latest window, and its end. */
  lemma {:induction false} BucketTells(calls: seq<Call>, key: string, max: nat, windowMs: nat, n: nat)
    requires SharedPolicy(calls, key, max, windowMs) && n <= |calls|
    ensures var buckets, o := MapAfter(map[], calls, n), LastOpened(calls, key, windowMs, n);
            && (key in buckets <==> o.Some?)
            && (o.Some? ==> buckets[key] == Bucket(CountedFrom(calls, key, o.value, n),
                                                   calls[o.value].request.now + windowMs))
    decreases n
  {
    if n > 0 {
      var c := calls[n - 1];
      BucketTells(calls, key, max, windowMs, n - 1);
      MapAfterNext(map[], calls, n - 1);
      OpensWhenOver(calls, key, windowMs, n - 1);
      HandleCounts(MapAfter(map[], calls, n - 1), c, key);
      assert Counted(c, key) ==> c.limit.windowMs == windowMs by {
        assert Counted(c, key) <==> Hits(calls[n - 1], key);
      }
      hide Handle, MapAfter, Opens, Counted, SharedPolicy;
    }
  }

  /** A counted call opens a window when there is none, or the latest is over. */
  lemma OpensWhenOver(calls: seq<Call>, key: string, windowMs: nat, n: nat)
    requires n < |calls|
    ensures var o := LastOpened(calls, key, windowMs, n);
            Opens(calls, key, windowMs, n) <==>
              Counted(calls[n], key) && (o.None? || calls[o.value].request.now + windowMs <= calls[n].request.now)
  {
    var o := LastOpened(calls, key, windowMs, n);
    hide Counted, LastOpened;
    if o.Some? {
      assert Opens(calls, key, windowMs, o.value);
      forall p: nat | p < n && Opens(calls, key, windowMs, p)
        ensures p == o.value || calls[p].request.now + windowMs <= calls[o.value].request.now
      {
        assert p <= o.value;
      }
    }
  }

  /** One call counts in the bucket of its key, reopening it when it is over. */
  lemma HandleCounts(buckets: Buckets, c: Call, key: string)
    ensures var after := Handle(buckets, c.limit, c.request).buckets;
            if !Counted(c, key) then (key in after <==> key in buckets) && (key in after ==> after[key] == buckets[key])
            else
              && key in after
              && after[key] == if key !in buckets || buckets[key].resetAt <= c.request.now
                               then Bucket(1, c.request.now + c.limit.windowMs)
                               else buckets[key].(count := buckets[key].count + 1)
  {}

  // ----- what each call is told

  /** The verdict on the n-th call, from the map of a limiter that never sweeps. */
  lemma VerdictFromWindow(calls: seq<Call>, key: string, max: nat, windowMs: nat, n: nat)
    requires SharedPolicy(calls, key, max, windowMs) && n < |calls| && Counted(calls[n], key)
    ensures var v, last := Verdicts(map[], calls)[n], LastOpened(calls, key, windowMs, n);
            var now := calls[n].request.now;
            if Opens(calls, key, windowMs, n) then v == VerdictFor(Bucket(1, now + windowMs), max, now)
            else
              && last.Some?
              && v == VerdictFor(Bucket(CountedFrom(calls, key, last.value, n) + 1,
                                        calls[last.value].request.now + windowMs), max, now)
  {
    BucketTells(calls, key, max, windowMs, n);
    MapAfterNext(map[], calls, n);
    OpensWhenOver(calls, key, windowMs, n);
    assert Hits(calls[n], key);
    hide VerdictFor, Verdicts, MapAfter, Opens;
  }

  /** In the window that the o-th call opens, a call passes exactly when fewer than `max` have
      been counted before it, passed or not. A rejected one is told the least whole number of
      seconds, at least one, that lasts until the window ends; no rejection moves that end. */
  lemma WindowDecides(calls: seq<Call>, key: string, max: nat, windowMs: nat, o: nat, n: nat)
    requires ClockOrdered(calls) && SharedPolicy(calls, key, max, windowMs)
    requires o <= n < |calls| && Opens(calls, key, windowMs, o) && Counted(calls[n], key)
    requires n == o || calls[n].request.now < calls[o].request.now + windowMs
    ensures var v := VerdictsSwept(map[], calls)[n];
            var left := calls[o].request.now + windowMs - calls[n].request.now;
            && (v.Pass? <==> CountedFrom(calls, key, o, n) < max)
            && (v.Reject? ==> v.retryAfterSeconds >= 1 && 1000 * v.retryAfterSeconds >= left)
            && (v.Reject? && v.retryAfterSeconds > 1 ==> 1000 * (v.retryAfterSeconds - 1) < left)
  {
    hide *;
    SweptDecidesAlike(calls);
    VerdictFromWindow(calls, key, max, windowMs, n);
    if o < n {
      OneWindowRuns(calls, key, windowMs, o, n);
    } else {
      NoneCountedYet(calls, key, n);
    }
    VerdictMeans(Bucket(CountedFrom(calls, key, o, n) + 1, calls[o].request.now + windowMs), max, calls[n].request.now);
  }

  lemma SweptDecidesAlike(calls: seq<Call>)
    requires ClockOrdered(calls)
    ensures VerdictsSwept(map[], calls) == Verdicts(map[], calls)
  {
    if calls != [] {
      SweepingIsInvisible(map[], map[], calls[0].request.now, calls);
    }
  }

  lemma NoneCountedYet(calls: seq<Call>, key: string, n: nat)
    requires n <= |calls|
    ensures CountedFrom(calls, key, n, n) == 0
  {}

  lemma VerdictMeans(bucket: Bucket, max: nat, now: int)
    ensures var v, left := VerdictFor(bucket, max, now), bucket.resetAt - now;
            && (v.Pass? <==> bucket.count <= max)
            && (v.Reject? ==> v.retryAfterSeconds >= 1 && 1000 * v.retryAfterSeconds >= left)
            && (v.Reject? && v.retryAfterSeconds > 1 ==> 1000 * (v.retryAfterSeconds - 1) < left)
  {}

  lemma OneWindowRuns(calls: seq<Call>, key: string, windowMs: nat, o: nat, n: nat)
    requires ClockOrdered(calls) && o < n < |calls| && Opens(calls, key, windowMs, o)
    requires calls[n].request.now < calls[o].request.now + windowMs
    ensures !Opens(calls, key, windowMs, n) && LastOpened(calls, key, windowMs, n) == Some(o)
  {
    hide Counted;
    forall p: nat | o < p <= n ensures !Opens(calls, key, windowMs, p) {
      assert calls[p].request.now <= calls[n].request.now;
    }
    assert LastOpened(calls, key, windowMs, n).Some?;
  }

  /** Every counted call is in such a window, its own or an earlier one. */
  lemma CallsHaveWindows(calls: seq<Call>, key: string, windowMs: nat, n: nat)
    requires n < |calls| && Counted(calls[n], key)
    ensures Opens(calls, key, windowMs, n)
         || exists o :: 0 <= o < n && Opens(calls, key, windowMs, o)
                     && calls[n].request.now < calls[o].request.now + windowMs
  {}

  /** Whatever was rejected in it, the first call counted once a window has ended passes. */
  lemma NextWindowPasses(calls: seq<Call>, key: string, max: nat, windowMs: nat, o: nat, n: nat)
    requires ClockOrdered(calls) && SharedPolicy(calls, key, max, windowMs) && max >= 1
    requires o < n < |calls| && Opens(calls, key, windowMs, o) && Counted(calls[n], key)
    requires calls[o].request.now + windowMs <= calls[n].request.now
    requires forall p | o < p < n && Counted(calls[p], key) ::
               calls[p].request.now < calls[o].request.now + windowMs
    ensures Opens(calls, key, windowMs, n) && VerdictsSwept(map[], calls)[n].Pass?
  {
    assert forall p: nat | o < p < n :: !Opens(calls, key, windowMs, p);
    assert forall p: nat | p < n && Opens(calls, key, windowMs, p) :: p <= o;
    assert Opens(calls, key, windowMs, n);
    NoneCountedYet(calls, key, n);
    WindowDecides(calls, key, max, windowMs, n, n);
  }

  // ----- what a call leaves alone

  /** A call already counted changes nothing, and no call changes the bucket of another key:
      at most it is dropped, when it has ended and more than 5000 are kept. */
  lemma CallsLeaveOthersAlone(buckets: Buckets, limit: Limit, r: Request, other: string)
    requires r.seen || other != limit.name + ":" + r.client
    ensures var after := HandleSwept(buckets, limit, r).buckets;
            && (r.seen ==> after == buckets && HandleSwept(buckets, limit, r).verdict.Pass?)
            && (other in after ==> other in buckets && after[other] == buckets[other])
            && (other in buckets && other !in after ==>
                  buckets[other].resetAt <= r.now && |buckets.Keys + {limit.name + ":" + r.client}| > 5000)
            && (other in buckets && other in after && !r.seen && buckets[other].resetAt <= r.now ==>
                  |buckets.Keys + {limit.name + ":" + r.client}| <= 5000)
  {
    var plain := Handle(buckets, limit, r).buckets;
    assert !r.seen ==> plain.Keys == buckets.Keys + {limit.name + ":" + r.client} && |plain| == |plain.Keys|;
  }
}
