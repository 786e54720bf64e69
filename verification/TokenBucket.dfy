/**
 The per-IP token buckets of mango-waf/perf/pool.go. Tokens and seconds are
 `real`; the clock is a parameter of each call, and each locked region is one
 atomic call.
 */
module TokenBucket {
  import opened Refill
  import opened Wrappers

  // ------------------------------------------------------------------
  // Values
  // ------------------------------------------------------------------

  function Take(b: Bucket, n: real, now: real): (Bucket, bool) {
    var t := Refilled(b, now);
    if t >= n then (b.(tokens := t - n, last := now), true) else (b.(tokens := t, last := now), false)
  }

  datatype Limiter = Limiter(buckets: map<string, Bucket>, rate: real, capacity: real)

  const CLEANUP_ABOVE: nat := 10000

  function BucketFor(s: Limiter, ip: string, now: real): Bucket {
    if ip in s.buckets then s.buckets[ip] else Bucket(s.capacity, s.capacity, s.rate, now)
  }

  function Admit(s: Limiter, ip: string, now: real): (Limiter, bool) {
    var r := Take(BucketFor(s, ip, now), 1.0, now);
    (s.(buckets := s.buckets[ip := r.0]), r.1)
  }

  datatype Event =
    | Request(ip: string, at: real)
    | SetGlobalRate(rps: real)
    | CleanupTick

  function Step(s: Limiter, e: Event): Limiter {
    match e
    case Request(ip, at) => Admit(s, ip, at).0
    case SetGlobalRate(rps) => s.(rate := rps)
    case CleanupTick => if |s.buckets| > CLEANUP_ABOVE then s.(buckets := map[]) else s
  }

  // ------------------------------------------------------------------
  // The objects
  // ------------------------------------------------------------------

  class Limit {
    var tokens: real
    var capacity: real
    var rate: real
    var lastTime: real

    ghost function View(): Bucket
      reads this
    {
      Bucket(tokens, capacity, rate, lastTime)
    }

    constructor (rate: real, capacity: real, now: real)
      ensures View() == Bucket(capacity, capacity, rate, now)
    {
      this.tokens, this.capacity, this.rate, this.lastTime := capacity, capacity, rate, now;
    }

    method AllowN(n: real, now: real) returns (ok: bool)
      modifies this
      ensures (View(), ok) == Take(old(View()), n, now)
    {
      var elapsed := now - lastTime;
      tokens := tokens + elapsed * rate;
      if tokens > capacity { tokens := capacity; }
      lastTime := now;
      assert tokens == Refilled(old(View()), now);
      if tokens >= n {
        tokens := tokens - n;
        return true;
      }
      return false;
    }

    method SetRate(newRate: real)
      modifies this
      ensures View() == old(View()).(rate := newRate)
    {
      rate := newRate;
    }
  }

  class IPRateLimiter {
    var limiters: map<string, Limit>
    var rate: real
    var capacity: real

    /** No two addresses share a bucket. */
    ghost predicate Valid()
      reads this
    {
      forall a, b :: a in limiters && b in limiters && a != b ==> limiters[a] != limiters[b]
    }

    ghost function View(): Limiter
      reads this, limiters.Values
    {
      Limiter(map ip | ip in limiters :: limiters[ip].View(), rate, capacity)
    }

    constructor (rps: real, burst: real)
      ensures Valid() && View() == Limiter(map[], rps, burst)
    {
      limiters, rate, capacity := map[], rps, burst;
    }

    method Allow(ip: string, now: real) returns (ok: bool)
      requires Valid()
      modifies this, limiters.Values
      ensures Valid() && fresh(limiters.Values - old(limiters.Values))
      ensures (View(), ok) == Admit(old(View()), ip, now)
    {
      if ip !in limiters {
        var b := new Limit(rate, capacity, now);
        limiters := limiters[ip := b];
      }
      var limiter := limiters[ip];
      assert limiter.View() == BucketFor(old(View()), ip, now);
      ok := limiter.AllowN(1.0, now);
      assert View().buckets == Admit(old(View()), ip, now).0.buckets;
    }

    method SetGlobalRate(rps: real)
      requires Valid()
      modifies this`rate
      ensures Valid() && View() == Step(old(View()), Event.SetGlobalRate(rps))
    {
      rate := rps;
    }

    /** One tick of cleanupLoop. */
    method Cleanup()
      requires Valid()
      modifies this`limiters
      ensures Valid() && View() == Step(old(View()), CleanupTick)
    {
      assert View().buckets.Keys == limiters.Keys;
      assert |View().buckets| == |limiters|;
      if |limiters| > CLEANUP_ABOVE {
        limiters := map[];
      }
    }
  }

  // ------------------------------------------------------------------
  // Runs
  // ------------------------------------------------------------------

  function Run(s: Limiter, evs: seq<Event>): Limiter
    decreases |evs|
  {
    if evs == [] then s else Run(Step(s, evs[0]), evs[1..])
  }

  /** The answers given to one address, in order. */
  function Decisions(s: Limiter, evs: seq<Event>, ip: string): seq<bool>
    decreases |evs|
  {
    if evs == [] then []
    else
      var later := Decisions(Step(s, evs[0]), evs[1..], ip);
      match evs[0]
      case Request(from, at) => if from == ip then [Admit(s, ip, at).1] + later else later
      case _ => later
  }

  function Granted(answers: seq<bool>): nat {
    if answers == [] then 0 else (if answers[0] then 1 else 0) + Granted(answers[1..])
  }

  predicate Clears(s: Limiter, e: Event) {
    e.CleanupTick? && |s.buckets| > CLEANUP_ABOVE
  }

  /** How often the limiter map was thrown away. */
  function ClearCount(s: Limiter, evs: seq<Event>): nat
    decreases |evs|
  {
    if evs == [] then 0
    else (if Clears(s, evs[0]) then 1 else 0) + ClearCount(Step(s, evs[0]), evs[1..])
  }

  /** Requests happen in clock order between t0 and t1. */
  predicate Within(evs: seq<Event>, t0: real, t1: real)
    decreases |evs|
  {
    if evs == [] then t0 <= t1
    else
      match evs[0]
      case Request(_, at) => t0 <= at && Within(evs[1..], at, t1)
      case _ => Within(evs[1..], t0, t1)
  }

  predicate RatesBetween(evs: seq<Event>, lo: real, hi: real) {
    forall e :: e in evs && e.SetGlobalRate? ==> lo <= e.rps <= hi
  }

  /** Holds of every limiter built with a burst and rates in range, at any time. */
  ghost predicate Sound(s: Limiter, now: real, lo: real, hi: real) {
    && s.capacity >= 0.0 && lo <= s.rate <= hi
    && forall ip :: ip in s.buckets ==>
         var b := s.buckets[ip];
         0.0 <= b.tokens <= b.capacity == s.capacity && lo <= b.rate <= hi && b.last <= now
  }

  lemma StepSound(s: Limiter, e: Event, now: real, lo: real, hi: real)
    requires Sound(s, now, lo, hi) && 0.0 <= lo <= hi
    requires e.SetGlobalRate? ==> lo <= e.rps <= hi
    requires e.Request? ==> now <= e.at
    ensures Sound(Step(s, e), if e.Request? then e.at else now, lo, hi) && Step(s, e).capacity == s.capacity
  {
    if e.Request? {
      RefillBounds(BucketFor(s, e.ip, e.at), e.at, lo, hi);
    }
  }

  lemma {:induction false} RunSound(s: Limiter, evs: seq<Event>, t0: real, t1: real, lo: real, hi: real)
    requires Sound(s, t0, lo, hi) && 0.0 <= lo <= hi && Within(evs, t0, t1) && RatesBetween(evs, lo, hi)
    ensures Sound(Run(s, evs), t1, lo, hi) && Run(s, evs).capacity == s.capacity
    decreases |evs|
  {
    if evs != [] {
      assert evs[0] in evs;
      StepSound(s, evs[0], t0, lo, hi);
      RunSound(Step(s, evs[0]), evs[1..], if evs[0].Request? then evs[0].at else t0, t1, lo, hi);
    }
  }

  // ------------------------------------------------------------------
  // Never more than the burst plus the rate
  // ------------------------------------------------------------------

  /** What an address could still be granted at `now` without waiting, refilling at `hi`. */
  ghost function Credit(s: Limiter, ip: string, now: real, hi: real): real {
    if ip !in s.buckets then s.capacity
    else
      var t := s.buckets[ip].tokens + Yield(hi, now - s.buckets[ip].last);
      if t > s.capacity then s.capacity else t
  }

  lemma CreditGrows(s: Limiter, ip: string, t: real, u: real, lo: real, hi: real)
    requires Sound(s, t, lo, hi) && 0.0 <= lo <= hi && t <= u
    ensures 0.0 <= Credit(s, ip, t, hi) <= s.capacity
    ensures Credit(s, ip, u, hi) <= Credit(s, ip, t, hi) + Yield(hi, u - t)
  {
    hide Yield;
    YieldMonotone(0.0, hi, u - t, u - t);
    if ip in s.buckets {
      var b := s.buckets[ip];
      YieldMonotone(0.0, hi, t - b.last, t - b.last);
      YieldAdds(hi, t - b.last, u - t);
      assert (t - b.last) + (u - t) == u - b.last;
    }
  }

  /** Serving a request pays for itself out of the credit. */
  lemma RequestPays(s: Limiter, ip: string, at: real, lo: real, hi: real)
    requires Sound(s, at, lo, hi) && 0.0 <= lo <= hi
    ensures var r := Admit(s, ip, at);
            Credit(r.0, ip, at, hi) + (if r.1 then 1.0 else 0.0) <= Credit(s, ip, at, hi)
  {
    hide Yield;
    RefillBounds(BucketFor(s, ip, at), at, lo, hi);
    YieldAdds(hi, 0.0, 0.0);
    assert at - Admit(s, ip, at).0.buckets[ip].last == 0.0;
  }

  lemma {:induction false} GrantedWithin(s: Limiter, evs: seq<Event>, ip: string, t0: real, t1: real, lo: real, hi: real)
    requires Sound(s, t0, lo, hi) && 0.0 <= lo <= hi && Within(evs, t0, t1) && RatesBetween(evs, lo, hi)
    ensures Granted(Decisions(s, evs, ip)) as real <=
            Credit(s, ip, t0, hi) + Yield(hi, t1 - t0) + Yield(s.capacity, ClearCount(s, evs) as real)
    decreases |evs|
  {
    hide Yield;
    if evs == [] {
      CreditGrows(s, ip, t0, t0, lo, hi);
      YieldMonotone(0.0, hi, t1 - t0, t1 - t0);
      YieldAdds(s.capacity, 0.0, 0.0);
    } else {
      var e := evs[0];
      var t := if e.Request? then e.at else t0;
      assert e in evs && t0 <= t && Within(evs[1..], t, t1);
      StepSound(s, e, t0, lo, hi);
      GrantedWithin(Step(s, e), evs[1..], ip, t, t1, lo, hi);
      GrantedStep(s, evs, ip, t0, t, t1, lo, hi);
    }
  }

  /** From the bound on the later events to the bound on all of them. */
  lemma GrantedStep(s: Limiter, evs: seq<Event>, ip: string, t0: real, t: real, t1: real, lo: real, hi: real)
    requires evs != [] && Sound(s, t0, lo, hi) && 0.0 <= lo <= hi && t0 <= t
    requires t == if evs[0].Request? then evs[0].at else t0
    requires Granted(Decisions(Step(s, evs[0]), evs[1..], ip)) as real <=
             Credit(Step(s, evs[0]), ip, t, hi) + Yield(hi, t1 - t)
             + Yield(s.capacity, ClearCount(Step(s, evs[0]), evs[1..]) as real)
    ensures Granted(Decisions(s, evs, ip)) as real <=
            Credit(s, ip, t0, hi) + Yield(hi, t1 - t0) + Yield(s.capacity, ClearCount(s, evs) as real)
  {
    hide *;
    StepPays(s, evs[0], ip, t0, lo, hi);
    YieldAdds(hi, t - t0, t1 - t);
    assert (t - t0) + (t1 - t) == t1 - t0;
    YieldAdds(s.capacity, Cleared(s, evs[0]), ClearCount(Step(s, evs[0]), evs[1..]) as real);
    CountStep(s, evs, ip);
  }

  lemma CountStep(s: Limiter, evs: seq<Event>, ip: string)
    requires evs != []
    ensures var s', later := Step(s, evs[0]), evs[1..];
            && Granted(Decisions(s, evs, ip)) as real == Paid(s, evs[0], ip) + Granted(Decisions(s', later, ip)) as real
            && ClearCount(s, evs) as real == Cleared(s, evs[0]) + ClearCount(s', later) as real
  {
    var answers := Decisions(s, evs, ip);
    if evs[0].Request? && evs[0].ip == ip {
      assert answers[1..] == Decisions(Step(s, evs[0]), evs[1..], ip);
    }
  }

  ghost function Cleared(s: Limiter, e: Event): real {
    if Clears(s, e) then 1.0 else 0.0
  }

  ghost function Paid(s: Limiter, e: Event, ip: string): real {
    if e.Request? && e.ip == ip && Admit(s, ip, e.at).1 then 1.0 else 0.0
  }

  /** One event: what it grants and leaves as credit comes out of the credit before,
      the time that passed, and a burst if it cleared the map. */
  lemma StepPays(s: Limiter, e: Event, ip: string, t0: real, lo: real, hi: real)
    requires Sound(s, t0, lo, hi) && 0.0 <= lo <= hi
    requires e.Request? ==> t0 <= e.at
    ensures var t := if e.Request? then e.at else t0;
            Paid(s, e, ip) + Credit(Step(s, e), ip, t, hi) <=
            Credit(s, ip, t0, hi) + Yield(hi, t - t0) + Yield(s.capacity, Cleared(s, e))
  {
    hide Yield;
    var t := if e.Request? then e.at else t0;
    CreditGrows(s, ip, t0, t, lo, hi);
    YieldAdds(s.capacity, 0.0, 0.0);
    YieldIsOne(s.capacity);
    if e.Request? && e.ip == ip {
      assert Sound(s, t, lo, hi);
      RequestPays(s, ip, t, lo, hi);
    } else if e.Request? {
      assert Credit(Step(s, e), ip, t, hi) == Credit(s, ip, t, hi);
    }
  }

  /** In any window [t0, t1] of any run, an address is granted at most the burst
      plus what the highest rate yields in the window, plus one more burst for
      each time the map was cleared in the window. */
  lemma WindowBound(rps: real, burst: real, before: seq<Event>, window: seq<Event>, ip: string,
                    start: real, t0: real, t1: real, hi: real)
    requires burst >= 0.0 && 0.0 <= rps <= hi
    requires Within(before, start, t0) && Within(window, t0, t1)
    requires RatesBetween(before, 0.0, hi) && RatesBetween(window, 0.0, hi)
    ensures var s := Run(Limiter(map[], rps, burst), before);
            Granted(Decisions(s, window, ip)) as real <=
            Yield(burst, (ClearCount(s, window) + 1) as real) + Yield(hi, t1 - t0)
  {
    var init := Limiter(map[], rps, burst);
    RunSound(init, before, start, t0, 0.0, hi);
    var s := Run(init, before);
    GrantedWithin(s, window, ip, t0, t1, 0.0, hi);
    CreditGrows(s, ip, t0, t0, 0.0, hi);
    YieldAdds(burst, ClearCount(s, window) as real, 1.0);
  }

  // ------------------------------------------------------------------
  // Addresses do not disturb each other
  // ------------------------------------------------------------------

  /** The events that concern one address: its own requests and rate changes. */
  function Only(evs: seq<Event>, ip: string): seq<Event> {
    if evs == [] then []
    else
      var later := Only(evs[1..], ip);
      match evs[0]
      case Request(from, _) => if from == ip then [evs[0]] + later else later
      case SetGlobalRate(_) => [evs[0]] + later
      case CleanupTick => later
  }

  ghost predicate AlikeFor(s: Limiter, u: Limiter, ip: string) {
    && s.rate == u.rate && s.capacity == u.capacity
    && (ip in s.buckets <==> ip in u.buckets)
    && (ip in s.buckets ==> s.buckets[ip] == u.buckets[ip])
  }

  /** Without a clear, an address gets the answers it would get alone. */
  lemma {:induction false} Isolation(s: Limiter, u: Limiter, evs: seq<Event>, ip: string)
    requires AlikeFor(s, u, ip) && ClearCount(s, evs) == 0
    ensures Decisions(s, evs, ip) == Decisions(u, Only(evs, ip), ip)
    decreases |evs|
  {
    if evs != [] {
      var e, later := evs[0], Only(evs[1..], ip);
      if e.SetGlobalRate? || (e.Request? && e.ip == ip) {
        assert Only(evs, ip)[0] == e && Only(evs, ip)[1..] == later;
        Isolation(Step(s, e), Step(u, e), evs[1..], ip);
      } else {
        Isolation(Step(s, e), u, evs[1..], ip);
      }
    }
  }

  // ------------------------------------------------------------------
  // Patient clients are never refused
  // ------------------------------------------------------------------

  /** The address's requests come at least `gap` apart. */
  predicate Spaced(evs: seq<Event>, ip: string, previous: Option<real>, gap: real)
    decreases |evs|
  {
    if evs == [] then true
    else
      match evs[0]
      case Request(from, at) =>
        if from == ip then
          (previous.Some? ==> at >= previous.value + gap) && Spaced(evs[1..], ip, Some(at), gap)
        else Spaced(evs[1..], ip, previous, gap)
      case _ => Spaced(evs[1..], ip, previous, gap)
  }

  /** The bucket, if it exists, was last touched by the address's previous request. */
  ghost predicate TouchedAt(s: Limiter, ip: string, previous: Option<real>) {
    ip in s.buckets ==> previous == Some(s.buckets[ip].last)
  }

  lemma WaitedLongEnough(s: Limiter, ip: string, at: real, previous: Option<real>, gap: real, lo: real, hi: real)
    requires Sound(s, at, lo, hi) && 0.0 <= lo <= hi && Yield(lo, gap) >= 1.0 && gap >= 0.0 && s.capacity >= 1.0
    requires TouchedAt(s, ip, previous) && (previous.Some? ==> at >= previous.value + gap)
    ensures Admit(s, ip, at).1
  {
    hide Yield;
    var b := BucketFor(s, ip, at);
    RefillBounds(b, at, lo, hi);
    if ip in s.buckets {
      assert at - b.last >= gap;
      YieldMonotone(lo, lo, gap, at - b.last);
    }
  }

  /** With room for one token and every rate at least 1/gap, requests spaced
      `gap` apart are all granted, whatever others do and whenever the map is cleared. */
  lemma {:induction false} NeverRefused(s: Limiter, evs: seq<Event>, ip: string, previous: Option<real>, gap: real,
                                        t0: real, t1: real, lo: real, hi: real)
    requires Sound(s, t0, lo, hi) && 0.0 <= lo <= hi && Within(evs, t0, t1) && RatesBetween(evs, lo, hi)
    requires s.capacity >= 1.0 && Yield(lo, gap) >= 1.0 && gap >= 0.0
    requires Spaced(evs, ip, previous, gap) && TouchedAt(s, ip, previous)
    ensures forall ok :: ok in Decisions(s, evs, ip) ==> ok
    decreases |evs|
  {
    if evs != [] {
      var e := evs[0];
      var t := if e.Request? then e.at else t0;
      assert e in evs;
      StepSound(s, e, t0, lo, hi);
      var previous' := if e.Request? && e.ip == ip then Some(t) else previous;
      if e.Request? && e.ip == ip {
        assert Sound(s, t, lo, hi);
        WaitedLongEnough(s, ip, t, previous, gap, lo, hi);
      }
      NeverRefused(Step(s, e), evs[1..], ip, previous', gap, t, t1, lo, hi);
    }
  }

  // ------------------------------------------------------------------
  // Exactly when a request is granted
  // ------------------------------------------------------------------

  datatype Ask = Ask(n: real, at: real)

  /** A bucket after a list of AllowN calls, and what each of them did to it. */
  function AfterAsks(b: Bucket, asks: seq<Ask>): Bucket {
    if asks == [] then b
    else
      var last := asks[|asks| - 1];
      Take(AfterAsks(b, asks[..|asks| - 1]), last.n, last.at).0
  }

  function Allowed(b: Bucket, asks: seq<Ask>, k: nat): bool
    requires k < |asks|
  {
    Take(AfterAsks(b, asks[..k]), asks[k].n, asks[k].at).1
  }

  function Turns(b: Bucket, asks: seq<Ask>): (ts: seq<Turn>)
    ensures |ts| == |asks|
    ensures forall k :: 0 <= k < |asks| ==>
              ts[k] == Turn(asks[k].at, 0.0, if Allowed(b, asks, k) then asks[k].n else 0.0)
  {
    seq(|asks|, k requires 0 <= k < |asks| =>
      Turn(asks[k].at, 0.0, if Allowed(b, asks, k) then asks[k].n else 0.0))
  }

  lemma {:induction false} LevelIsRefill(b: Bucket, asks: seq<Ask>, n: nat)
    requires n < |asks| && b.tokens == b.capacity && b.last == asks[0].at
    ensures var now := AfterAsks(b, asks[..n]);
            && now.capacity == b.capacity && now.rate == b.rate
            && Refilled(now, asks[n].at) == LevelAt(b.capacity, b.rate, Turns(b, asks), n)
    decreases n
  {
    hide AfterAsks, Take, LevelAt, Refilled, Turns;
    if n == 0 {
      LevelAtFirst(b, asks);
    } else {
      LevelIsRefill(b, asks, n - 1);
      OneMoreAsk(b, asks, n);
      TakeMeans(AfterAsks(b, asks[..n - 1]), asks[n - 1].n, asks[n - 1].at);
      LevelAtNext(b, asks, n);
    }
  }

  lemma LevelAtFirst(b: Bucket, asks: seq<Ask>)
    requires asks != [] && b.tokens == b.capacity && b.last == asks[0].at
    ensures AfterAsks(b, asks[..0]) == b && Refilled(b, asks[0].at) == LevelAt(b.capacity, b.rate, Turns(b, asks), 0)
  {
    NoTime(b.rate);
  }

  lemma LevelAtNext(b: Bucket, asks: seq<Ask>, n: nat)
    requires 0 < n < |asks|
    ensures var paid := if Allowed(b, asks, n - 1) then asks[n - 1].n else 0.0;
            var before := LevelAt(b.capacity, b.rate, Turns(b, asks), n - 1);
            LevelAt(b.capacity, b.rate, Turns(b, asks), n) ==
            Refilled(Bucket(before - paid, b.capacity, b.rate, asks[n - 1].at), asks[n].at)
  {
    hide Yield, Allowed;
  }

  lemma OneMoreAsk(b: Bucket, asks: seq<Ask>, n: nat)
    requires 0 < n <= |asks|
    ensures AfterAsks(b, asks[..n]) == Take(AfterAsks(b, asks[..n - 1]), asks[n - 1].n, asks[n - 1].at).0
    ensures Allowed(b, asks, n - 1) == Take(AfterAsks(b, asks[..n - 1]), asks[n - 1].n, asks[n - 1].at).1
  {
    assert asks[..n][..n - 1] == asks[..n - 1];
  }

  /** A grant takes its cost, a refusal nothing; the time is noted either way. */
  lemma TakeMeans(b: Bucket, n: real, now: real)
    ensures var (after, ok) := Take(b, n, now);
            && (ok <==> n <= Refilled(b, now))
            && after == Bucket(Refilled(b, now) - (if ok then n else 0.0), b.capacity, b.rate, now)
  {}

  lemma NoTime(rate: real)
    ensures Yield(rate, 0.0) == 0.0
  {}

  /** What the calls from i to n took from the bucket. */
  function Spent(b: Bucket, asks: seq<Ask>, i: nat, n: nat): real
    requires i <= n <= |asks|
  {
    if i == n then 0.0
    else Spent(b, asks, i, n - 1) + if Allowed(b, asks, n - 1) then asks[n - 1].n else 0.0
  }

  lemma {:induction false} SpentIsOutlay(b: Bucket, asks: seq<Ask>, i: nat, n: nat)
    requires i <= n <= |asks|
    ensures Spent(b, asks, i, n) == Outlay(Turns(b, asks), i, n) && Gifts(Turns(b, asks), i, n) == 0.0
    decreases n
  {
    if i < n {
      SpentIsOutlay(b, asks, i, n - 1);
    }
  }

  /** Granting call n keeps the window from call i within the capacity plus what the rate yields. */
  predicate Fits(b: Bucket, asks: seq<Ask>, i: nat, n: nat)
    requires i <= n < |asks|
  {
    Spent(b, asks, i, n) + asks[n].n <= b.capacity + Yield(b.rate, asks[n].at - asks[i].at)
  }

  lemma FitsWindow(b: Bucket, asks: seq<Ask>, i: nat, n: nat)
    requires i <= n < |asks|
    ensures Fits(b, asks, i, n) <==> Window(b.capacity, b.rate, Turns(b, asks), i, n) >= asks[n].n
  {
    hide Yield, Spent, Outlay, Gifts, Allowed;
    SpentIsOutlay(b, asks, i, n);
    SpentIsOutlay(b, asks, i, n + 1);
  }

  /** A call is granted if and only if it fits every window that ends now, back to
      the bucket's creation. */
  lemma AllowNExact(b: Bucket, asks: seq<Ask>, n: nat)
    requires n < |asks| && b.tokens == b.capacity && b.last == asks[0].at
    ensures Allowed(b, asks, n) <==> forall i: nat :: i <= n ==> Fits(b, asks, i, n)
  {
    var ts := Turns(b, asks);
    LevelIsRefill(b, asks, n);
    assert Allowed(b, asks, n) <==> LevelAt(b.capacity, b.rate, ts, n) >= asks[n].n;
    hide *;
    EnoughExact(b.capacity, b.rate, ts, n, asks[n].n);
    forall i: nat | i <= n ensures Fits(b, asks, i, n) <==> Window(b.capacity, b.rate, ts, i, n) >= asks[n].n {
      FitsWindow(b, asks, i, n);
    }
  }

  // ---- the same for the limiter ----

  /** When an address asks, in a run. */
  function Times(evs: seq<Event>, ip: string): seq<real> {
    if evs == [] then []
    else
      match evs[0]
      case Request(from, at) => if from == ip then [at] + Times(evs[1..], ip) else Times(evs[1..], ip)
      case _ => Times(evs[1..], ip)
  }

  /** The rate in force at the address's first request. */
  function FirstRate(rate: real, evs: seq<Event>, ip: string): real
    decreases |evs|
  {
    if evs == [] then rate
    else
      match evs[0]
      case Request(from, _) => if from == ip then rate else FirstRate(rate, evs[1..], ip)
      case SetGlobalRate(rps) => FirstRate(rps, evs[1..], ip)
      case CleanupTick => FirstRate(rate, evs[1..], ip)
  }

  function Ones(times: seq<real>): (asks: seq<Ask>)
    ensures |asks| == |times| && forall k :: 0 <= k < |times| ==> asks[k] == Ask(1.0, times[k])
  {
    seq(|times|, k requires 0 <= k < |times| => Ask(1.0, times[k]))
  }

  /** The answers of one bucket to a list of calls. */
  function AnswersOf(b: Bucket, asks: seq<Ask>): seq<bool>
    decreases |asks|
  {
    if asks == [] then []
    else
      var r := Take(b, asks[0].n, asks[0].at);
      [r.1] + AnswersOf(r.0, asks[1..])
  }

  lemma {:induction false} AnswersAt(b: Bucket, asks: seq<Ask>, k: nat)
    requires k < |asks|
    ensures k < |AnswersOf(b, asks)| && AnswersOf(b, asks)[k] == Allowed(b, asks, k)
    decreases k
  {
    if k > 0 {
      var r := Take(b, asks[0].n, asks[0].at);
      AnswersAt(r.0, asks[1..], k - 1);
      AfterFirst(b, asks[..k]);
      assert asks[..k][1..] == asks[1..][..k - 1];
    } else {
      assert asks[..0] == [];
    }
  }

  lemma {:induction false} AfterFirst(b: Bucket, asks: seq<Ask>)
    requires asks != []
    ensures AfterAsks(b, asks) == AfterAsks(Take(b, asks[0].n, asks[0].at).0, asks[1..])
    decreases |asks|
  {
    var n := |asks| - 1;
    if n > 0 {
      AfterFirst(b, asks[..n]);
      assert asks[..n][1..] == asks[1..][..n - 1];
      assert asks[1..][|asks[1..]| - 1] == asks[n];
    } else {
      assert asks[..0] == [] && asks[1..] == [];
    }
  }

  lemma OnesTail(times: seq<real>)
    requires times != []
    ensures Ones(times)[1..] == Ones(times[1..])
  {}

  /** An address with a bucket sees that bucket alone: later rates do not reach it. */
  lemma {:induction false} HeldBucketAnswers(s: Limiter, evs: seq<Event>, ip: string)
    requires ip in s.buckets && ClearCount(s, evs) == 0
    ensures Decisions(s, evs, ip) == AnswersOf(s.buckets[ip], Ones(Times(evs, ip)))
    decreases |evs|
  {
    hide Take;
    if evs != [] {
      var later := Times(evs[1..], ip);
      HeldBucketAnswers(Step(s, evs[0]), evs[1..], ip);
      if evs[0].Request? && evs[0].ip == ip {
        assert Times(evs, ip)[1..] == later;
        OnesTail(Times(evs, ip));
      }
    }
  }

  lemma {:induction false} NewBucketAnswers(s: Limiter, evs: seq<Event>, ip: string)
    requires ip !in s.buckets && ClearCount(s, evs) == 0 && Times(evs, ip) != []
    ensures Decisions(s, evs, ip) ==
            AnswersOf(Bucket(s.capacity, s.capacity, FirstRate(s.rate, evs, ip), Times(evs, ip)[0]), Ones(Times(evs, ip)))
    decreases |evs|
  {
    hide Take;
    if evs[0].Request? && evs[0].ip == ip {
      assert Times(evs, ip)[1..] == Times(evs[1..], ip);
      OnesTail(Times(evs, ip));
      HeldBucketAnswers(Step(s, evs[0]), evs[1..], ip);
    } else {
      NewBucketAnswers(Step(s, evs[0]), evs[1..], ip);
    }
  }

  lemma {:induction false} SpentIsGranted(b: Bucket, times: seq<real>, i: nat, n: nat)
    requires i <= n <= |times| && |AnswersOf(b, Ones(times))| == |times|
    ensures Spent(b, Ones(times), i, n) == Granted(AnswersOf(b, Ones(times))[i..n]) as real
    decreases n
  {
    if i < n {
      var answers := AnswersOf(b, Ones(times));
      SpentIsGranted(b, times, i, n - 1);
      AnswersAt(b, Ones(times), n - 1);
      assert answers[i..n] == answers[i..n - 1] + [answers[n - 1]];
      GrantedSnoc(answers[i..n - 1], answers[n - 1]);
    } else {
      assert AnswersOf(b, Ones(times))[i..n] == [];
    }
  }

  lemma {:induction false} GrantedSnoc(answers: seq<bool>, last: bool)
    ensures Granted(answers + [last]) == Granted(answers) + (if last then 1 else 0)
    decreases |answers|
  {
    if answers != [] {
      assert (answers + [last])[1..] == answers[1..] + [last];
      GrantedSnoc(answers[1..], last);
    } else {
      assert [] + [last] == [last];
    }
  }

  lemma {:induction false} AnswersLength(b: Bucket, asks: seq<Ask>)
    ensures |AnswersOf(b, asks)| == |asks|
    decreases |asks|
  {
    if asks != [] {
      AnswersLength(Take(b, asks[0].n, asks[0].at).0, asks[1..]);
    }
  }

  /** Granting the k-th request keeps the window from the i-th within the burst plus the yield. */
  predicate WindowFits(capacity: real, rate: real, times: seq<real>, answers: seq<bool>, i: nat, k: nat)
    requires i <= k < |times| == |answers|
  {
    Granted(answers[i..k]) as real + 1.0 <= capacity + Yield(rate, times[k] - times[i])
  }

  lemma FitsOnes(b: Bucket, times: seq<real>, i: nat, k: nat)
    requires i <= k < |times| == |AnswersOf(b, Ones(times))|
    ensures Fits(b, Ones(times), i, k) <==> WindowFits(b.capacity, b.rate, times, AnswersOf(b, Ones(times)), i, k)
  {
    hide Yield, Spent, AnswersOf, Granted;
    SpentIsGranted(b, times, i, k);
  }

  /** From any state without a bucket for the address, until the next clear: its
      k-th request is granted if and only if no window back to its first request
      would exceed the burst plus what the rate at that first request yields. A
      refusal costs nothing, and later rates do not matter. */
  lemma GrantedExactly(s: Limiter, evs: seq<Event>, ip: string, k: nat)
    requires ip !in s.buckets && ClearCount(s, evs) == 0 && k < |Times(evs, ip)|
    ensures |Decisions(s, evs, ip)| == |Times(evs, ip)|
    ensures var answers, times, rate := Decisions(s, evs, ip), Times(evs, ip), FirstRate(s.rate, evs, ip);
            answers[k] <==> forall i: nat :: i <= k ==> WindowFits(s.capacity, rate, times, answers, i, k)
  {
    var times, rate := Times(evs, ip), FirstRate(s.rate, evs, ip);
    var b := Bucket(s.capacity, s.capacity, rate, times[0]);
    NewBucketAnswers(s, evs, ip);
    AnswersLength(b, Ones(times));
    AnswersAt(b, Ones(times), k);
    AllowNExact(b, Ones(times), k);
    hide *;
    forall i: nat | i <= k
      ensures Fits(b, Ones(times), i, k) <==> WindowFits(s.capacity, rate, times, AnswersOf(b, Ones(times)), i, k)
    {
      FitsOnes(b, times, i, k);
    }
  }

  lemma {:induction false} GrantedAtMost(answers: seq<bool>)
    ensures Granted(answers) <= |answers|
  {
    if answers != [] { GrantedAtMost(answers[1..]); }
  }

  /** A burst is granted as a whole: as many requests at one instant as the capacity holds. */
  lemma BurstGranted(s: Limiter, evs: seq<Event>, ip: string, at: real)
    requires ip !in s.buckets && ClearCount(s, evs) == 0
    requires (forall t :: t in Times(evs, ip) ==> t == at) && |Times(evs, ip)| as real <= s.capacity
    ensures |Decisions(s, evs, ip)| == |Times(evs, ip)|
    ensures forall ok :: ok in Decisions(s, evs, ip) ==> ok
  {
    var answers, times := Decisions(s, evs, ip), Times(evs, ip);
    if times == [] {
      NothingAsked(s, evs, ip);
    } else {
      GrantedExactly(s, evs, ip, 0);
      forall k: nat | k < |answers| ensures answers[k] {
        GrantedExactly(s, evs, ip, k);
        NoTime(FirstRate(s.rate, evs, ip));
        forall i: nat | i <= k ensures WindowFits(s.capacity, FirstRate(s.rate, evs, ip), times, answers, i, k) {
          GrantedAtMost(answers[i..k]);
          assert times[k] in times && times[i] in times && times[k] - times[i] == 0.0;
        }
      }
    }
  }

  lemma {:induction false} NothingAsked(s: Limiter, evs: seq<Event>, ip: string)
    requires Times(evs, ip) == []
    ensures Decisions(s, evs, ip) == []
    decreases |evs|
  {
    if evs != [] { NothingAsked(Step(s, evs[0]), evs[1..], ip); }
  }

  /** The map is cleared exactly above ten thousand buckets, and as a whole. */
  lemma ClearsExactly(s: Limiter)
    ensures Step(s, CleanupTick) == if |s.buckets| > 10000 then Limiter(map[], s.rate, s.capacity) else s
    ensures Clears(s, CleanupTick) <==> |s.buckets| > 10000
  {}
}
