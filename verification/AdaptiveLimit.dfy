/**
 The adaptive per-IP rate limit of mango-waf/detection/detection.go: a token
 bucket that gets five bonus tokens on each call made in low traffic, and whose
 idle buckets are forgotten.
 */
module AdaptiveLimit {
  import opened Refill

  const BONUS: real := 5.0
  const IDLE_SECONDS: real := 300.0

  datatype Config = Config(burst: nat, requestsPerSecond: nat)

  /** A bucket as CheckRateLimit creates it. */
  function NewBucket(cfg: Config, now: real): Bucket {
    Bucket(cfg.burst as real, cfg.burst as real, cfg.requestsPerSecond as real, now)
  }

  /** Tokens on hand when a call consumes one. */
  function OnHand(b: Bucket, now: real, bonus: bool): real {
    Refilled(b, now) + if bonus then BONUS else 0.0
  }

  /** The bucket after a call, and whether the call is limited. */
  function Consume(b: Bucket, now: real, bonus: bool): (Bucket, bool) {
    var t := OnHand(b, now, bonus);
    if t >= 1.0 then (b.(tokens := t - 1.0, last := now), false) else (b.(tokens := t, last := now), true)
  }

  type Counters = map<string, Bucket>

  function BucketOf(c: Counters, cfg: Config, ip: string, now: real): Bucket {
    if ip in c then c[ip] else NewBucket(cfg, now)
  }

  predicate Idle(b: Bucket, now: real) {
    now - b.last > IDLE_SECONDS
  }

  function Forgetting(c: Counters, now: real): Counters {
    map ip | ip in c && !Idle(c[ip], now) :: c[ip]
  }

  predicate IsLow(adaptive: bool, avgRPS: real, currentRPS: int) {
    adaptive && avgRPS > 0.0 && currentRPS as real < avgRPS * 0.5
  }

  /** Low traffic means adaptive mode and less than half of a known average; a bucket
      is kept for exactly 300 idle seconds. */
  lemma LowAndIdleExact(adaptive: bool, avgRPS: real, currentRPS: int, c: Counters, now: real)
    ensures IsLow(adaptive, avgRPS, currentRPS) <==> adaptive && 0.0 < avgRPS && 2.0 * currentRPS as real < avgRPS
    ensures forall ip :: ip in Forgetting(c, now) <==> ip in c && now - c[ip].last <= 300.0
    ensures forall ip :: ip in Forgetting(c, now) ==> Forgetting(c, now)[ip] == c[ip]
  {}

  /** Buckets are reachable only through the map, so they are values in it. */
  class RateLimiter {
    const cfg: Config
    const enabled: bool
    const adaptive: bool
    var counters: Counters
    var avgRPS: real
    var currentGlobalRPS: int

    constructor (cfg: Config, enabled: bool, adaptive: bool)
      ensures this.cfg == cfg && this.enabled == enabled && this.adaptive == adaptive && counters == map[]
    {
      this.cfg, this.enabled, this.adaptive := cfg, enabled, adaptive;
      counters, avgRPS, currentGlobalRPS := map[], 0.0, 0;
    }

    predicate LowTraffic()
      reads this
    {
      IsLow(adaptive, avgRPS, currentGlobalRPS)
    }

    /** True means limited. */
    method CheckRateLimit(ip: string, now: real) returns (limited: bool)
      modifies this`counters
      ensures !enabled ==> !limited && counters == old(counters)
      ensures enabled ==>
                var (b, l) := Consume(BucketOf(old(counters), cfg, ip, now), now, LowTraffic());
                limited == l && counters == old(counters)[ip := b]
    {
      if !enabled { return false; }
      var b := Bucket(cfg.burst as real, cfg.burst as real, cfg.requestsPerSecond as real, now);
      if ip in counters { b := counters[ip]; }
      var elapsed := now - b.last;
      var tokens := b.tokens + elapsed * b.rate;
      assert elapsed * b.rate == Yield(b.rate, elapsed);
      if tokens > b.capacity { tokens := b.capacity; }
      assert tokens == Refilled(b, now);
      if adaptive && avgRPS > 0.0 && currentGlobalRPS as real < avgRPS * 0.5 {
        tokens := tokens + BONUS;
      }
      limited := !(tokens >= 1.0);
      if !limited { tokens := tokens - 1.0; }
      counters := counters[ip := b.(tokens := tokens, last := now)];
    }

    /** The rate-limit part of CleanupSessions. */
    method CleanupBuckets(now: real)
      modifies this`counters
      ensures counters == Forgetting(old(counters), now)
    {
      var keys := counters.Keys;
      while keys != {}
        invariant keys <= old(counters).Keys
        invariant forall k :: k in counters <==> k in old(counters) && (k in keys || !Idle(old(counters)[k], now))
        invariant forall k :: k in counters ==> counters[k] == old(counters)[k]
        decreases keys
      {
        var k :| k in keys;
        if now - counters[k].last > IDLE_SECONDS { counters := counters - {k}; }
        keys := keys - {k};
      }
      assert counters == Forgetting(old(counters), now);
    }
  }

  // ------------------------------------------------------------------
  // Runs
  // ------------------------------------------------------------------

  datatype AdaptiveEvent = Call(ip: string, at: real, bonus: bool) | Sweep(at: real)

  function AdaptiveStep(c: Counters, cfg: Config, e: AdaptiveEvent): Counters {
    match e
    case Call(ip, at, bonus) => c[ip := Consume(BucketOf(c, cfg, ip, at), at, bonus).0]
    case Sweep(at) => Forgetting(c, at)
  }

  predicate Ordered(evs: seq<AdaptiveEvent>, t0: real, t1: real)
    decreases |evs|
  {
    if evs == [] then t0 <= t1 else t0 <= evs[0].at && Ordered(evs[1..], evs[0].at, t1)
  }

  /** Every bucket holds at least 0 and at most four tokens above the burst. */
  ghost predicate InBounds(c: Counters, cfg: Config, now: real) {
    forall ip :: ip in c ==>
      && 0.0 <= c[ip].tokens <= cfg.burst as real + 4.0
      && c[ip].capacity == cfg.burst as real && c[ip].rate == cfg.requestsPerSecond as real && c[ip].last <= now
  }

  lemma RefillBetween(b: Bucket, now: real)
    requires 0.0 <= b.tokens && 0.0 <= b.capacity && 0.0 <= b.rate && b.last <= now
    ensures 0.0 <= Refilled(b, now) <= b.capacity && Refilled(b, now) <= b.tokens + Yield(b.rate, now - b.last)
    ensures Refilled(b, now) == b.capacity || Refilled(b, now) == b.tokens + Yield(b.rate, now - b.last)
  {
    hide Yield;
    YieldMonotone(0.0, b.rate, now - b.last, now - b.last);
  }

  /** A call in low traffic is never limited, and no call leaves a bucket out of bounds. */
  lemma CallInBounds(c: Counters, cfg: Config, ip: string, now: real, bonus: bool)
    requires InBounds(c, cfg, now)
    ensures var (b, limited) := Consume(BucketOf(c, cfg, ip, now), now, bonus);
            && (bonus ==> !limited)
            && 0.0 <= b.tokens <= cfg.burst as real + 4.0
            && InBounds(c[ip := b], cfg, now)
  {
    RefillBetween(BucketOf(c, cfg, ip, now), now);
  }

  function Ran(c: Counters, cfg: Config, evs: seq<AdaptiveEvent>): Counters
    decreases |evs|
  {
    if evs == [] then c else Ran(AdaptiveStep(c, cfg, evs[0]), cfg, evs[1..])
  }

  lemma {:induction false} AlwaysInBounds(c: Counters, cfg: Config, evs: seq<AdaptiveEvent>, t0: real, t1: real)
    requires InBounds(c, cfg, t0) && Ordered(evs, t0, t1)
    ensures InBounds(Ran(c, cfg, evs), cfg, t1)
    decreases |evs|
  {
    if evs != [] {
      var e := evs[0];
      assert InBounds(c, cfg, e.at);
      if e.Call? {
        CallInBounds(c, cfg, e.ip, e.at, e.bonus);
      }
      AlwaysInBounds(AdaptiveStep(c, cfg, e), cfg, evs[1..], e.at, t1);
    }
  }

  /** The answers one address gets: true for limited. */
  function Answers(c: Counters, cfg: Config, evs: seq<AdaptiveEvent>, ip: string): seq<bool>
    decreases |evs|
  {
    if evs == [] then []
    else
      var e, later := evs[0], Answers(AdaptiveStep(c, cfg, evs[0]), cfg, evs[1..], ip);
      if e.Call? && e.ip == ip then [Consume(BucketOf(c, cfg, ip, e.at), e.at, e.bonus).1] + later else later
  }

  // ------------------------------------------------------------------
  // How many calls can be admitted
  // ------------------------------------------------------------------

  function Admitted(answers: seq<bool>): nat {
    if answers == [] then 0 else (if answers[0] then 0 else 1) + Admitted(answers[1..])
  }

  function BonusCalls(evs: seq<AdaptiveEvent>, ip: string): nat {
    if evs == [] then 0
    else (if evs[0].Call? && evs[0].ip == ip && evs[0].bonus then 1 else 0) + BonusCalls(evs[1..], ip)
  }

  /** How often a sweep forgot the address's bucket. */
  function Forgotten(c: Counters, cfg: Config, evs: seq<AdaptiveEvent>, ip: string): nat
    decreases |evs|
  {
    if evs == [] then 0
    else
      (if evs[0].Sweep? && ip in c && Idle(c[ip], evs[0].at) then 1 else 0)
      + Forgotten(AdaptiveStep(c, cfg, evs[0]), cfg, evs[1..], ip)
  }

  /** What the address's bucket holds at `now` before any cap; a new one holds the burst. */
  ghost function Stock(c: Counters, cfg: Config, ip: string, now: real): real {
    if ip in c then c[ip].tokens + Yield(cfg.requestsPerSecond as real, now - c[ip].last) else cfg.burst as real
  }

  lemma StockGrows(c: Counters, cfg: Config, ip: string, t: real, u: real)
    requires InBounds(c, cfg, t) && t <= u
    ensures 0.0 <= Stock(c, cfg, ip, t)
    ensures Stock(c, cfg, ip, u) <= Stock(c, cfg, ip, t) + Yield(cfg.requestsPerSecond as real, u - t)
  {
    hide Yield;
    var r := cfg.requestsPerSecond as real;
    YieldMonotone(0.0, r, u - t, u - t);
    if ip in c {
      YieldMonotone(0.0, r, t - c[ip].last, t - c[ip].last);
      YieldAdds(r, t - c[ip].last, u - t);
      assert (t - c[ip].last) + (u - t) == u - c[ip].last;
    }
  }

  lemma CallPays(c: Counters, cfg: Config, ip: string, now: real, bonus: bool)
    requires InBounds(c, cfg, now)
    ensures var (b, limited) := Consume(BucketOf(c, cfg, ip, now), now, bonus);
            Stock(c[ip := b], cfg, ip, now) + (if limited then 0.0 else 1.0)
            <= Stock(c, cfg, ip, now) + (if bonus then BONUS else 0.0)
  {
    hide Yield;
    RefillBetween(BucketOf(c, cfg, ip, now), now);
    YieldAdds(cfg.requestsPerSecond as real, 0.0, 0.0);
  }

  lemma {:induction false} AdmissionsBounded(c: Counters, cfg: Config, evs: seq<AdaptiveEvent>, ip: string, t0: real, t1: real)
    requires InBounds(c, cfg, t0) && Ordered(evs, t0, t1)
    ensures Admitted(Answers(c, cfg, evs, ip)) as real <=
            Stock(c, cfg, ip, t0) + Yield(cfg.requestsPerSecond as real, t1 - t0)
            + BONUS * BonusCalls(evs, ip) as real + Yield(cfg.burst as real, Forgotten(c, cfg, evs, ip) as real)
    decreases |evs|
  {
    var r := cfg.requestsPerSecond as real;
    StockGrows(c, cfg, ip, t0, t0);
    if evs == [] {
      YieldMonotone(0.0, r, t1 - t0, t1 - t0);
    } else {
      var e := evs[0];
      var d := AdaptiveStep(c, cfg, e);
      assert InBounds(c, cfg, e.at);
      if e.Call? { CallInBounds(c, cfg, e.ip, e.at, e.bonus); }
      AdmissionsBounded(d, cfg, evs[1..], ip, e.at, t1);
      EventPays(c, cfg, e, ip, t0);
      AdmissionStep(c, cfg, evs, ip, t0, t1);
    }
  }

  ghost function Passed(c: Counters, cfg: Config, e: AdaptiveEvent, ip: string): real {
    if e.Call? && e.ip == ip && !Consume(BucketOf(c, cfg, ip, e.at), e.at, e.bonus).1 then 1.0 else 0.0
  }

  ghost function Gift(e: AdaptiveEvent, ip: string): real {
    if e.Call? && e.ip == ip && e.bonus then 1.0 else 0.0
  }

  ghost function Lost(c: Counters, e: AdaptiveEvent, ip: string): real {
    if e.Sweep? && ip in c && Idle(c[ip], e.at) then 1.0 else 0.0
  }

  /** One event: what passes and what is left comes out of the stock, the time,
      the bonus, and a fresh burst if the bucket was forgotten. */
  lemma EventPays(c: Counters, cfg: Config, e: AdaptiveEvent, ip: string, t0: real)
    requires InBounds(c, cfg, t0) && t0 <= e.at
    ensures Passed(c, cfg, e, ip) + Stock(AdaptiveStep(c, cfg, e), cfg, ip, e.at) <=
            Stock(c, cfg, ip, t0) + Yield(cfg.requestsPerSecond as real, e.at - t0)
            + BONUS * Gift(e, ip) + Yield(cfg.burst as real, Lost(c, e, ip))
  {
    hide Yield;
    StockGrows(c, cfg, ip, t0, e.at);
    YieldAdds(cfg.burst as real, 0.0, 0.0);
    YieldIsOne(cfg.burst as real);
    assert InBounds(c, cfg, e.at);
    StockGrows(c, cfg, ip, e.at, e.at);
    YieldAdds(cfg.requestsPerSecond as real, 0.0, 0.0);
    if e.Call? && e.ip == ip {
      CallPays(c, cfg, ip, e.at, e.bonus);
    }
  }

  lemma CountsStep(c: Counters, cfg: Config, evs: seq<AdaptiveEvent>, ip: string)
    requires evs != []
    ensures var e, d, later := evs[0], AdaptiveStep(c, cfg, evs[0]), evs[1..];
            && Admitted(Answers(c, cfg, evs, ip)) as real ==
               Passed(c, cfg, e, ip) + Admitted(Answers(d, cfg, later, ip)) as real
            && BonusCalls(evs, ip) as real == Gift(e, ip) + BonusCalls(later, ip) as real
            && Forgotten(c, cfg, evs, ip) as real == Lost(c, e, ip) + Forgotten(d, cfg, later, ip) as real
  {
    var answers := Answers(c, cfg, evs, ip);
    if evs[0].Call? && evs[0].ip == ip {
      assert answers[1..] == Answers(AdaptiveStep(c, cfg, evs[0]), cfg, evs[1..], ip);
    }
  }

  lemma AdmissionStep(c: Counters, cfg: Config, evs: seq<AdaptiveEvent>, ip: string, t0: real, t1: real)
    requires evs != [] && InBounds(c, cfg, t0) && t0 <= evs[0].at
    requires var d, later := AdaptiveStep(c, cfg, evs[0]), evs[1..];
             Admitted(Answers(d, cfg, later, ip)) as real <=
             Stock(d, cfg, ip, evs[0].at) + Yield(cfg.requestsPerSecond as real, t1 - evs[0].at)
             + BONUS * BonusCalls(later, ip) as real + Yield(cfg.burst as real, Forgotten(d, cfg, later, ip) as real)
    ensures Admitted(Answers(c, cfg, evs, ip)) as real <=
            Stock(c, cfg, ip, t0) + Yield(cfg.requestsPerSecond as real, t1 - t0)
            + BONUS * BonusCalls(evs, ip) as real + Yield(cfg.burst as real, Forgotten(c, cfg, evs, ip) as real)
  {
    hide Passed, Admitted, Answers, Stock, Yield, Gift, BonusCalls, Lost, Forgotten, AdaptiveStep, InBounds;
    var e, d, later := evs[0], AdaptiveStep(c, cfg, evs[0]), evs[1..];
    var r, burst := cfg.requestsPerSecond as real, cfg.burst as real;
    var lost, forgotten := Lost(c, e, ip), Forgotten(d, cfg, later, ip) as real;
    EventPays(c, cfg, e, ip, t0);
    CountsStep(c, cfg, evs, ip);
    YieldAdds(r, e.at - t0, t1 - e.at);
    assert (e.at - t0) + (t1 - e.at) == t1 - t0;
    YieldAdds(burst, lost, forgotten);
    SumsAdd(Passed(c, cfg, e, ip), Admitted(Answers(d, cfg, later, ip)) as real,
            Stock(c, cfg, ip, t0), Stock(d, cfg, ip, e.at),
            Yield(r, e.at - t0), Yield(r, t1 - e.at),
            Gift(e, ip), BonusCalls(later, ip) as real,
            Yield(burst, lost), Yield(burst, forgotten));
  }

  /** The account of one event and the account of the later ones add up. */
  lemma SumsAdd(passed: real, admitted: real, before: real, after: real, yield1: real, yield2: real,
                gift: real, gifts: real, burst1: real, burst2: real)
    requires passed + after <= before + yield1 + BONUS * gift + burst1
    requires admitted <= after + yield2 + BONUS * gifts + burst2
    ensures passed + admitted <= before + (yield1 + yield2) + BONUS * (gift + gifts) + (burst1 + burst2)
  {}

  /** From the start: the burst, the rate over the elapsed time, five per call in
      low traffic, and a burst for each time the bucket was forgotten. */
  lemma TotalAdmissions(cfg: Config, evs: seq<AdaptiveEvent>, ip: string, t0: real, t1: real)
    requires Ordered(evs, t0, t1)
    ensures Admitted(Answers(map[], cfg, evs, ip)) as real <=
            cfg.burst as real + Yield(cfg.requestsPerSecond as real, t1 - t0)
            + BONUS * BonusCalls(evs, ip) as real
            + Yield(cfg.burst as real, Forgotten(map[], cfg, evs, ip) as real)
  {
    AdmissionsBounded(map[], cfg, evs, ip, t0, t1);
  }

  // ------------------------------------------------------------------
  // When forgetting is invisible
  // ------------------------------------------------------------------

  function CallsOnly(evs: seq<AdaptiveEvent>): seq<AdaptiveEvent> {
    if evs == [] then []
    else (if evs[0].Call? then [evs[0]] else []) + CallsOnly(evs[1..])
  }

  /** A forgotten bucket has been idle long enough to be full when asked again. */
  ghost predicate SameOrIdle(c: Counters, d: Counters, now: real) {
    && (forall ip :: ip in c ==> ip in d && d[ip] == c[ip])
    && (forall ip :: ip in d && ip !in c ==> now - d[ip].last > IDLE_SECONDS)
  }

  /** Five idle minutes refill a whole burst. */
  predicate RefillsWhenIdle(cfg: Config) {
    Yield(cfg.requestsPerSecond as real, IDLE_SECONDS) >= cfg.burst as real
  }

  lemma FullAgain(b: Bucket, cfg: Config, now: real, bonus: bool)
    requires 0.0 <= b.tokens && b.capacity == cfg.burst as real && b.rate == cfg.requestsPerSecond as real
    requires now - b.last > IDLE_SECONDS && Yield(b.rate, IDLE_SECONDS) >= b.capacity
    ensures Consume(b, now, bonus) == Consume(NewBucket(cfg, now), now, bonus)
  {
    YieldMonotone(b.rate, b.rate, IDLE_SECONDS, now - b.last);
    RefillBetween(b, now);
    RefillBetween(NewBucket(cfg, now), now);
  }

  /** If five idle minutes refill a whole burst, sweeping never changes an answer. */
  lemma {:induction false} SweepsInvisible(c: Counters, d: Counters, cfg: Config, evs: seq<AdaptiveEvent>, ip: string, t0: real, t1: real)
    requires RefillsWhenIdle(cfg)
    requires InBounds(c, cfg, t0) && InBounds(d, cfg, t0) && SameOrIdle(c, d, t0) && Ordered(evs, t0, t1)
    ensures Answers(c, cfg, evs, ip) == Answers(d, cfg, CallsOnly(evs), ip)
    decreases |evs|
  {
    if evs != [] {
      hide Yield, Consume;
      var e, later := evs[0], CallsOnly(evs[1..]);
      assert InBounds(c, cfg, e.at) && InBounds(d, cfg, e.at);
      var c' := AdaptiveStep(c, cfg, e);
      if e.Call? {
        if e.ip in d && e.ip !in c { FullAgain(d[e.ip], cfg, e.at, e.bonus); }
        var d' := AdaptiveStep(d, cfg, e);
        CallInBounds(c, cfg, e.ip, e.at, e.bonus);
        CallInBounds(d, cfg, e.ip, e.at, e.bonus);
        SweepsInvisible(c', d', cfg, evs[1..], ip, e.at, t1);
        assert ([e] + later)[1..] == later;
        assert Answers(c, cfg, evs, ip) == Answers(d, cfg, [e] + later, ip);
      } else {
        SweepsInvisible(c', d, cfg, evs[1..], ip, e.at, t1);
        assert [] + later == later;
        assert Answers(c, cfg, evs, ip) == Answers(d, cfg, later, ip);
      }
    }
  }

  // ------------------------------------------------------------------
  // When the plain bound holds
  // ------------------------------------------------------------------

  /** The burst, the rate over the elapsed time, and five per call in low traffic. */
  ghost predicate PlainBound(cfg: Config, evs: seq<AdaptiveEvent>, ip: string, t0: real, t1: real) {
    Admitted(Answers(map[], cfg, evs, ip)) as real <=
    cfg.burst as real + Yield(cfg.requestsPerSecond as real, t1 - t0) + BONUS * BonusCalls(evs, ip) as real
  }

  lemma {:induction false} CallsForgetNothing(c: Counters, cfg: Config, evs: seq<AdaptiveEvent>, ip: string)
    requires forall e :: e in evs ==> e.Call?
    ensures Forgotten(c, cfg, evs, ip) == 0
    decreases |evs|
  {
    if evs != [] {
      assert evs[0] in evs;
      CallsForgetNothing(AdaptiveStep(c, cfg, evs[0]), cfg, evs[1..], ip);
    }
  }

  /** Without a sweep the plain bound holds. */
  lemma BoundWithoutSweeps(cfg: Config, evs: seq<AdaptiveEvent>, ip: string, t0: real, t1: real)
    requires Ordered(evs, t0, t1) && forall e :: e in evs ==> e.Call?
    ensures PlainBound(cfg, evs, ip, t0, t1)
  {
    TotalAdmissions(cfg, evs, ip, t0, t1);
    CallsForgetNothing(map[], cfg, evs, ip);
    hide *;
    NoYield(cfg.burst as real);
  }

  lemma NoYield(rate: real)
    ensures Yield(rate, 0.0) == 0.0
  {}

  lemma {:induction false} CallsOnlyAlike(evs: seq<AdaptiveEvent>, ip: string, t0: real, t: real, t1: real)
    requires t0 <= t && Ordered(evs, t, t1)
    ensures Ordered(CallsOnly(evs), t0, t1) && BonusCalls(CallsOnly(evs), ip) == BonusCalls(evs, ip)
    ensures forall e :: e in CallsOnly(evs) ==> e.Call?
    decreases |evs|
  {
    if evs != [] {
      var later := CallsOnly(evs[1..]);
      if evs[0].Call? {
        CallsOnlyAlike(evs[1..], ip, evs[0].at, evs[0].at, t1);
        assert CallsOnly(evs) == [evs[0]] + later && ([evs[0]] + later)[1..] == later;
      } else {
        CallsOnlyAlike(evs[1..], ip, t0, evs[0].at, t1);
        assert CallsOnly(evs) == later;
      }
    }
  }

  lemma BoundWhenRefilled(cfg: Config, evs: seq<AdaptiveEvent>, ip: string, t0: real, t1: real)
    requires RefillsWhenIdle(cfg) && Ordered(evs, t0, t1)
    ensures Answers(map[], cfg, evs, ip) == Answers(map[], cfg, CallsOnly(evs), ip)
    ensures PlainBound(cfg, evs, ip, t0, t1)
  {
    SweepsInvisible(map[], map[], cfg, evs, ip, t0, t1);
    CallsOnlyAlike(evs, ip, t0, t0, t1);
    BoundWithoutSweeps(cfg, CallsOnly(evs), ip, t0, t1);
  }

  /** n calls at one instant. */
  function Salvo(n: nat, ip: string, at: real): (evs: seq<AdaptiveEvent>)
    ensures |evs| == n && forall e :: e in evs ==> e == Call(ip, at, false)
  {
    if n == 0 then [] else [Call(ip, at, false)] + Salvo(n - 1, ip, at)
  }

  /** A salvo within the tokens on hand is admitted as a whole. */
  lemma {:induction false} SalvoPasses(c: Counters, cfg: Config, n: nat, ip: string, at: real, rest: seq<AdaptiveEvent>)
    requires InBounds(c, cfg, at) && Refilled(BucketOf(c, cfg, ip, at), at) >= n as real
    ensures var d := Ran(c, cfg, Salvo(n, ip, at));
            && Admitted(Answers(c, cfg, Salvo(n, ip, at) + rest, ip)) == n + Admitted(Answers(d, cfg, rest, ip))
            && InBounds(d, cfg, at) && d.Keys == (if n > 0 then c.Keys + {ip} else c.Keys)
            && (n > 0 ==> d[ip].last == at)
    decreases n
  {
    if n == 0 {
      assert [] + rest == rest;
    } else {
      hide *;
      var (b, limited) := Consume(BucketOf(c, cfg, ip, at), at, false);
      OneOfSalvo(c, cfg, n, ip, at);
      SalvoStep(c, cfg, n, ip, at, rest);
      assert BucketOf(c[ip := b], cfg, ip, at) == b by { HeldBucket(c[ip := b], cfg, ip, at); }
      SalvoPasses(c[ip := b], cfg, n - 1, ip, at, rest);
      if n == 1 { EmptySalvo(c[ip := b], cfg, ip, at); }
    }
  }

  lemma HeldBucket(c: Counters, cfg: Config, ip: string, at: real)
    requires ip in c
    ensures BucketOf(c, cfg, ip, at) == c[ip]
  {}

  lemma EmptySalvo(c: Counters, cfg: Config, ip: string, at: real)
    ensures Ran(c, cfg, Salvo(0, ip, at)) == c
  {}

  lemma SalvoStep(c: Counters, cfg: Config, n: nat, ip: string, at: real, rest: seq<AdaptiveEvent>)
    requires n > 0
    ensures var (b, limited) := Consume(BucketOf(c, cfg, ip, at), at, false);
            && Ran(c, cfg, Salvo(n, ip, at)) == Ran(c[ip := b], cfg, Salvo(n - 1, ip, at))
            && Admitted(Answers(c, cfg, Salvo(n, ip, at) + rest, ip)) ==
               (if limited then 0 else 1) + Admitted(Answers(c[ip := b], cfg, Salvo(n - 1, ip, at) + rest, ip))
  {
    hide Consume, BucketOf;
    var evs := Salvo(n, ip, at) + rest;
    assert Salvo(n, ip, at)[1..] == Salvo(n - 1, ip, at) && evs[1..] == Salvo(n - 1, ip, at) + rest;
    var (b, limited) := Consume(BucketOf(c, cfg, ip, at), at, false);
    var later := Answers(c[ip := b], cfg, evs[1..], ip);
    assert Answers(c, cfg, evs, ip) == [limited] + later;
    assert ([limited] + later)[1..] == later;
  }

  lemma OneOfSalvo(c: Counters, cfg: Config, n: nat, ip: string, at: real)
    requires n > 0 && InBounds(c, cfg, at) && Refilled(BucketOf(c, cfg, ip, at), at) >= n as real
    ensures var (b, limited) := Consume(BucketOf(c, cfg, ip, at), at, false);
            && !limited && b.last == at && Refilled(b, at) >= (n - 1) as real
            && InBounds(c[ip := b], cfg, at)
  {
    var b := BucketOf(c, cfg, ip, at);
    CallInBounds(c, cfg, ip, at, false);
    RefillBetween(b, at);
    RefilledAtOnce(Consume(b, at, false).0, at);
  }

  lemma RefilledAtOnce(b: Bucket, at: real)
    requires b.last == at && b.tokens <= b.capacity
    ensures Refilled(b, at) == b.tokens
  {}

  /** A burst, a sweep once it is idle, and a burst again. */
  function SweptRun(cfg: Config, ip: string, at: real): seq<AdaptiveEvent> {
    Salvo(cfg.burst, ip, 0.0) + ([Sweep(at)] + Salvo(cfg.burst, ip, at))
  }

  lemma SweptRunPasses(cfg: Config, ip: string, at: real)
    requires at > IDLE_SECONDS && cfg.burst > 0
    ensures Admitted(Answers(map[], cfg, SweptRun(cfg, ip, at), ip)) == 2 * cfg.burst
  {
    var n, tail := cfg.burst, [Sweep(at)] + Salvo(cfg.burst, ip, at);
    RefilledAtOnce(NewBucket(cfg, 0.0), 0.0);
    SalvoPasses(map[], cfg, n, ip, 0.0, tail);
    var d := Ran(map[], cfg, Salvo(n, ip, 0.0));
    assert Forgetting(d, at) == map[];
    assert tail[1..] == Salvo(n, ip, at) + [];
    assert Answers(d, cfg, tail, ip) == Answers(map[], cfg, Salvo(n, ip, at) + [], ip);
    RefilledAtOnce(NewBucket(cfg, at), at);
    SalvoPasses(map[], cfg, n, ip, at, []);
  }

  lemma {:induction false} SalvoOrdered(n: nat, ip: string, at: real, rest: seq<AdaptiveEvent>, t0: real, t1: real)
    requires t0 <= at && Ordered(rest, at, t1)
    ensures Ordered(Salvo(n, ip, at) + rest, t0, t1) && BonusCalls(Salvo(n, ip, at) + rest, ip) == BonusCalls(rest, ip)
    decreases n
  {
    OrderedEarlier(rest, t0, at, t1);
    if n == 0 {
      assert [] + rest == rest;
    } else {
      assert (Salvo(n, ip, at) + rest)[1..] == Salvo(n - 1, ip, at) + rest;
      SalvoOrdered(n - 1, ip, at, rest, at, t1);
    }
  }

  lemma OrderedEarlier(evs: seq<AdaptiveEvent>, t0: real, t: real, t1: real)
    requires t0 <= t && Ordered(evs, t, t1)
    ensures Ordered(evs, t0, t1)
  {}

  lemma SweptRunOrdered(cfg: Config, ip: string, at: real)
    requires at >= 0.0
    ensures Ordered(SweptRun(cfg, ip, at), 0.0, at) && BonusCalls(SweptRun(cfg, ip, at), ip) == 0
  {
    var second := Salvo(cfg.burst, ip, at);
    assert second + [] == second;
    SalvoOrdered(cfg.burst, ip, at, [], at, at);
    assert ([Sweep(at)] + second)[1..] == second;
    SalvoOrdered(cfg.burst, ip, 0.0, [Sweep(at)] + second, 0.0, at);
  }

  /** A moment past five minutes at which a slow rate has not yet refilled the burst. */
  lemma TooSoon(cfg: Config) returns (at: real)
    requires !RefillsWhenIdle(cfg)
    ensures at > IDLE_SECONDS && Yield(cfg.requestsPerSecond as real, at) < cfg.burst as real && cfg.burst > 0
  {
    hide Yield;
    var r := cfg.requestsPerSecond as real;
    var q := Share(r);
    at := IDLE_SECONDS + q;
    YieldAdds(r, IDLE_SECONDS, q);
    WholeTokens(cfg);
    BelowNext(300 * cfg.requestsPerSecond, cfg.burst, Yield(r, q));
  }

  lemma BelowNext(m: nat, n: nat, x: real)
    requires m as real < n as real && x < 1.0
    ensures m as real + x < n as real && n > 0
  {
    assert m + 1 <= n;
  }

  /** A time so short that the rate yields less than one token. */
  lemma Share(rate: real) returns (q: real)
    requires rate >= 0.0
    ensures q > 0.0 && Yield(rate, q) < 1.0
  {
    q := 1.0 / (rate + 1.0);
    var d := rate + 1.0;
    assert q * d == 1.0;
    assert q > 0.0;
    assert q * rate == q * d - q;
  }

  /** In five minutes a whole number of tokens is produced. */
  lemma WholeTokens(cfg: Config)
    ensures Yield(cfg.requestsPerSecond as real, IDLE_SECONDS) == (300 * cfg.requestsPerSecond) as real
  {}

  /** If five idle minutes do not refill a burst, a run with one sweep breaks the
      plain bound, and would have been answered differently without the sweep. */
  lemma SweepBreaksBound(cfg: Config, ip: string) returns (at: real)
    requires !RefillsWhenIdle(cfg)
    ensures at > IDLE_SECONDS && Ordered(SweptRun(cfg, ip, at), 0.0, at)
    ensures !PlainBound(cfg, SweptRun(cfg, ip, at), ip, 0.0, at)
    ensures var evs := SweptRun(cfg, ip, at);
            Answers(map[], cfg, evs, ip) != Answers(map[], cfg, CallsOnly(evs), ip)
  {
    at := TooSoon(cfg);
    var evs := SweptRun(cfg, ip, at);
    SweptRunPasses(cfg, ip, at);
    SweptRunOrdered(cfg, ip, at);
    CallsOnlyAlike(evs, ip, 0.0, 0.0, at);
    BoundWithoutSweeps(cfg, CallsOnly(evs), ip, 0.0, at);
    hide *;
    assert at - 0.0 == at;
    assert !PlainBound(cfg, evs, ip, 0.0, at) by { BoundMeans(cfg, evs, ip, at); }
  }

  lemma BoundMeans(cfg: Config, evs: seq<AdaptiveEvent>, ip: string, at: real)
    requires BonusCalls(evs, ip) == 0 && Yield(cfg.requestsPerSecond as real, at) < cfg.burst as real
    requires Admitted(Answers(map[], cfg, evs, ip)) == 2 * cfg.burst
    ensures !PlainBound(cfg, evs, ip, 0.0, at)
  {
    hide Answers, Admitted, Yield;
    assert at - 0.0 == at;
  }

  /** The plain bound holds of every run, and sweeping never changes an answer, if
      and only if five idle minutes refill a whole burst. */
  lemma PlainBoundExact(cfg: Config)
    ensures 300 * cfg.requestsPerSecond >= cfg.burst <==>
            forall evs, ip, t0, t1 :: Ordered(evs, t0, t1) ==> PlainBound(cfg, evs, ip, t0, t1)
    ensures 300 * cfg.requestsPerSecond >= cfg.burst <==>
            forall evs, ip, t0, t1 :: Ordered(evs, t0, t1) ==> SameAnswers(cfg, evs, ip)
  {
    WholeTokens(cfg);
    assert RefillsWhenIdle(cfg) <==> 300 * cfg.requestsPerSecond >= cfg.burst;
    hide *;
    if RefillsWhenIdle(cfg) {
      forall evs, ip, t0, t1 | Ordered(evs, t0, t1)
        ensures PlainBound(cfg, evs, ip, t0, t1)
      {
        BoundWhenRefilled(cfg, evs, ip, t0, t1);
      }
      forall evs, ip, t0, t1 | Ordered(evs, t0, t1)
        ensures SameAnswers(cfg, evs, ip)
      {
        BoundWhenRefilled(cfg, evs, ip, t0, t1);
        SameMeans(cfg, evs, ip);
      }
    } else {
      var at := SweepBreaksBound(cfg, "");
      var evs := SweptRun(cfg, "", at);
      SameMeans(cfg, evs, "");
      assert Ordered(evs, 0.0, at) && !PlainBound(cfg, evs, "", 0.0, at) && !SameAnswers(cfg, evs, "");
    }
  }

  ghost predicate SameAnswers(cfg: Config, evs: seq<AdaptiveEvent>, ip: string) {
    Answers(map[], cfg, evs, ip) == Answers(map[], cfg, CallsOnly(evs), ip)
  }

  lemma SameMeans(cfg: Config, evs: seq<AdaptiveEvent>, ip: string)
    ensures SameAnswers(cfg, evs, ip) <==> Answers(map[], cfg, evs, ip) == Answers(map[], cfg, CallsOnly(evs), ip)
  {}

  // ------------------------------------------------------------------
  // Exactly when a call is admitted
  // ------------------------------------------------------------------

  /** A call of one address: when, and whether in low traffic. */
  datatype Visit = Visit(at: real, bonus: bool)

  function Visits(evs: seq<AdaptiveEvent>, ip: string): seq<Visit> {
    if evs == [] then []
    else if evs[0].Call? && evs[0].ip == ip then [Visit(evs[0].at, evs[0].bonus)] + Visits(evs[1..], ip)
    else Visits(evs[1..], ip)
  }

  function AfterVisits(b: Bucket, vs: seq<Visit>): Bucket {
    if vs == [] then b
    else
      var last := vs[|vs| - 1];
      Consume(AfterVisits(b, vs[..|vs| - 1]), last.at, last.bonus).0
  }

  function Passes(b: Bucket, vs: seq<Visit>, k: nat): bool
    requires k < |vs|
  {
    !Consume(AfterVisits(b, vs[..k]), vs[k].at, vs[k].bonus).1
  }

  function VisitTurns(b: Bucket, vs: seq<Visit>): (ts: seq<Turn>)
    ensures |ts| == |vs|
    ensures forall k :: 0 <= k < |vs| ==>
              ts[k] == Turn(vs[k].at, if vs[k].bonus then 5.0 else 0.0, if Passes(b, vs, k) then 1.0 else 0.0)
  {
    seq(|vs|, k requires 0 <= k < |vs| =>
      Turn(vs[k].at, if vs[k].bonus then 5.0 else 0.0, if Passes(b, vs, k) then 1.0 else 0.0))
  }

  lemma {:induction false} LevelIsOnHand(b: Bucket, vs: seq<Visit>, n: nat)
    requires n < |vs| && b.tokens == b.capacity && b.last == vs[0].at
    ensures var now := AfterVisits(b, vs[..n]);
            && now.capacity == b.capacity && now.rate == b.rate
            && OnHand(now, vs[n].at, vs[n].bonus) == LevelAt(b.capacity, b.rate, VisitTurns(b, vs), n)
    decreases n
  {
    hide Yield;
    if n == 0 {
      assert vs[..0] == [];
      NoYield(b.rate);
    } else {
      LevelIsOnHand(b, vs, n - 1);
      assert vs[..n][..n - 1] == vs[..n - 1];
      assert AfterVisits(b, vs[..n]) == Consume(AfterVisits(b, vs[..n - 1]), vs[n - 1].at, vs[n - 1].bonus).0;
    }
  }

  /** The answers of one bucket: true for limited. */
  function LimitedBy(b: Bucket, vs: seq<Visit>): seq<bool>
    decreases |vs|
  {
    if vs == [] then []
    else
      var r := Consume(b, vs[0].at, vs[0].bonus);
      [r.1] + LimitedBy(r.0, vs[1..])
  }

  lemma {:induction false} LimitedAt(b: Bucket, vs: seq<Visit>, k: nat)
    requires k < |vs|
    ensures k < |LimitedBy(b, vs)| && LimitedBy(b, vs)[k] == !Passes(b, vs, k)
    decreases k
  {
    if k > 0 {
      LimitedAt(Consume(b, vs[0].at, vs[0].bonus).0, vs[1..], k - 1);
      AfterFirstVisit(b, vs[..k]);
      assert vs[..k][1..] == vs[1..][..k - 1];
    } else {
      assert vs[..0] == [];
    }
  }

  lemma {:induction false} AfterFirstVisit(b: Bucket, vs: seq<Visit>)
    requires vs != []
    ensures AfterVisits(b, vs) == AfterVisits(Consume(b, vs[0].at, vs[0].bonus).0, vs[1..])
    decreases |vs|
  {
    var n := |vs| - 1;
    if n > 0 {
      AfterFirstVisit(b, vs[..n]);
      assert vs[..n][1..] == vs[1..][..n - 1] && vs[1..][|vs[1..]| - 1] == vs[n];
    } else {
      assert vs[..0] == [] && vs[1..] == [];
    }
  }

  lemma {:induction false} LimitedLength(b: Bucket, vs: seq<Visit>)
    ensures |LimitedBy(b, vs)| == |vs|
    decreases |vs|
  {
    if vs != [] { LimitedLength(Consume(b, vs[0].at, vs[0].bonus).0, vs[1..]); }
  }

  /** Five tokens per call in low traffic. */
  function BonusTokens(vs: seq<Visit>): real {
    if vs == [] then 0.0 else BonusTokens(vs[..|vs| - 1]) + if vs[|vs| - 1].bonus then 5.0 else 0.0
  }

  /** Admitting the k-th call keeps the window from the i-th within the burst, the
      yield of the time between them, and five per call in low traffic. */
  predicate VisitFits(burst: real, rate: real, vs: seq<Visit>, limited: seq<bool>, i: nat, k: nat)
    requires i <= k < |vs| == |limited|
  {
    Admitted(limited[i..k]) as real + 1.0 <= burst + Yield(rate, vs[k].at - vs[i].at) + BonusTokens(vs[i..k + 1])
  }

  lemma {:induction false} OutlayIsAdmitted(b: Bucket, vs: seq<Visit>, i: nat, n: nat)
    requires i <= n <= |vs| == |LimitedBy(b, vs)|
    ensures Outlay(VisitTurns(b, vs), i, n) == Admitted(LimitedBy(b, vs)[i..n]) as real
    decreases n
  {
    if i < n {
      hide Outlay, Admitted, Passes, LimitedBy, VisitTurns;
      OutlayIsAdmitted(b, vs, i, n - 1);
      LimitedAt(b, vs, n - 1);
      OneTurnMore(VisitTurns(b, vs), i, n);
      AdmittedMore(LimitedBy(b, vs), i, n);
    } else {
      hide Passes;
      assert LimitedBy(b, vs)[i..n] == [];
    }
  }

  lemma {:induction false} GiftsAreBonuses(b: Bucket, vs: seq<Visit>, i: nat, n: nat)
    requires i <= n <= |vs|
    ensures Gifts(VisitTurns(b, vs), i, n) == BonusTokens(vs[i..n])
    decreases n
  {
    if i < n {
      hide Gifts, BonusTokens, Passes;
      GiftsAreBonuses(b, vs, i, n - 1);
      OneTurnMore(VisitTurns(b, vs), i, n);
      BonusesMore(vs, i, n);
    } else {
      hide Passes;
      assert vs[i..n] == [];
    }
  }

  lemma AdmittedMore(limited: seq<bool>, i: nat, n: nat)
    requires i < n <= |limited|
    ensures Admitted(limited[i..n]) == Admitted(limited[i..n - 1]) + (if limited[n - 1] then 0 else 1)
  {
    assert limited[i..n] == limited[i..n - 1] + [limited[n - 1]];
    AdmittedSnoc(limited[i..n - 1], limited[n - 1]);
  }

  lemma BonusesMore(vs: seq<Visit>, i: nat, n: nat)
    requires i < n <= |vs|
    ensures BonusTokens(vs[i..n]) == BonusTokens(vs[i..n - 1]) + if vs[n - 1].bonus then 5.0 else 0.0
  {
    assert vs[i..n][..n - 1 - i] == vs[i..n - 1] && vs[i..n][n - 1 - i] == vs[n - 1];
  }

  lemma OneTurnMore(ts: seq<Turn>, i: nat, n: nat)
    requires i < n <= |ts|
    ensures Outlay(ts, i, n) == Outlay(ts, i, n - 1) + ts[n - 1].paid
    ensures Gifts(ts, i, n) == Gifts(ts, i, n - 1) + ts[n - 1].gift
  {}

  lemma {:induction false} AdmittedSnoc(limited: seq<bool>, last: bool)
    ensures Admitted(limited + [last]) == Admitted(limited) + (if last then 0 else 1)
    decreases |limited|
  {
    if limited != [] {
      assert (limited + [last])[1..] == limited[1..] + [last];
      AdmittedSnoc(limited[1..], last);
    } else {
      assert [] + [last] == [last];
    }
  }

  lemma FitsVisit(b: Bucket, vs: seq<Visit>, i: nat, k: nat)
    requires i <= k < |vs| == |LimitedBy(b, vs)|
    ensures VisitFits(b.capacity, b.rate, vs, LimitedBy(b, vs), i, k) <==>
            Window(b.capacity, b.rate, VisitTurns(b, vs), i, k) >= 1.0
  {
    hide Yield, Outlay, Gifts, Admitted, BonusTokens, Passes, LimitedBy;
    OutlayIsAdmitted(b, vs, i, k);
    GiftsAreBonuses(b, vs, i, k + 1);
  }

  /** One bucket from its creation: a call is admitted if and only if it fits every
      window that ends now. */
  lemma PassesExactly(b: Bucket, vs: seq<Visit>, k: nat)
    requires k < |vs| && b.tokens == b.capacity && b.last == vs[0].at
    ensures |LimitedBy(b, vs)| == |vs|
    ensures !LimitedBy(b, vs)[k] <==>
            forall i: nat :: i <= k ==> VisitFits(b.capacity, b.rate, vs, LimitedBy(b, vs), i, k)
  {
    var ts := VisitTurns(b, vs);
    LimitedLength(b, vs);
    LimitedAt(b, vs, k);
    LevelIsOnHand(b, vs, k);
    assert Passes(b, vs, k) <==> LevelAt(b.capacity, b.rate, ts, k) >= 1.0;
    hide *;
    EnoughExact(b.capacity, b.rate, ts, k, 1.0);
    forall i: nat | i <= k
      ensures VisitFits(b.capacity, b.rate, vs, LimitedBy(b, vs), i, k) <==> Window(b.capacity, b.rate, ts, i, k) >= 1.0
    {
      FitsVisit(b, vs, i, k);
    }
  }

  lemma {:induction false} HeldAnswers(c: Counters, cfg: Config, evs: seq<AdaptiveEvent>, ip: string)
    requires ip in c && Forgotten(c, cfg, evs, ip) == 0
    ensures Answers(c, cfg, evs, ip) == LimitedBy(c[ip], Visits(evs, ip))
    decreases |evs|
  {
    hide Consume;
    if evs != [] {
      HeldAnswers(AdaptiveStep(c, cfg, evs[0]), cfg, evs[1..], ip);
      if evs[0].Call? && evs[0].ip == ip {
        assert Visits(evs, ip)[1..] == Visits(evs[1..], ip);
      }
    }
  }

  lemma {:induction false} NewAnswers(c: Counters, cfg: Config, evs: seq<AdaptiveEvent>, ip: string)
    requires ip !in c && Forgotten(c, cfg, evs, ip) == 0 && Visits(evs, ip) != []
    ensures Answers(c, cfg, evs, ip) == LimitedBy(NewBucket(cfg, Visits(evs, ip)[0].at), Visits(evs, ip))
    decreases |evs|
  {
    hide Consume;
    if evs[0].Call? && evs[0].ip == ip {
      assert Visits(evs, ip)[1..] == Visits(evs[1..], ip);
      HeldAnswers(AdaptiveStep(c, cfg, evs[0]), cfg, evs[1..], ip);
    } else {
      NewAnswers(AdaptiveStep(c, cfg, evs[0]), cfg, evs[1..], ip);
    }
  }

  /** From any state without a bucket for the address, until a sweep forgets it: its
      k-th call is admitted if and only if it fits every window back to its first call. */
  lemma AdmittedExactly(c: Counters, cfg: Config, evs: seq<AdaptiveEvent>, ip: string, k: nat)
    requires ip !in c && Forgotten(c, cfg, evs, ip) == 0 && k < |Visits(evs, ip)|
    ensures |Answers(c, cfg, evs, ip)| == |Visits(evs, ip)|
    ensures var limited, vs := Answers(c, cfg, evs, ip), Visits(evs, ip);
            var burst, rate := cfg.burst as real, cfg.requestsPerSecond as real;
            !limited[k] <==> forall i: nat :: i <= k ==> VisitFits(burst, rate, vs, limited, i, k)
  {
    NewAnswers(c, cfg, evs, ip);
    PassesExactly(NewBucket(cfg, Visits(evs, ip)[0].at), Visits(evs, ip), k);
  }
}
