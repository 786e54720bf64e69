/** What account selection promises, over single calls and over runs of calls. */
module AccountPolicy {
  import opened AccountManager
  import opened Modulo
  import opened Wrappers

  // ------------------------------------------------------------------
  // One selection
  // ------------------------------------------------------------------

  predicate SomeAvailable(s: State, provider: string, now: int) {
    exists k :: 0 <= k < |s.accounts| && Available(s.cfg, s.accounts[k], provider, now)
  }

  /** An available account of the provider carries the id. */
  predicate IdAvailable(s: State, id: string, provider: string, now: int) {
    exists k :: 0 <= k < |s.accounts| && s.accounts[k].id == id && Available(s.cfg, s.accounts[k], provider, now)
  }

  /** The session is bound, no available account carries the bound id, and the
      first account that carries it is rate limited for at most maxWaitSeconds more. */
  predicate Waits(s: State, session: string, provider: string, now: int) {
    && s.cfg.mode == CachePriority && session != "" && session in s.sessions
    && var id := s.sessions[session];
    && !IdAvailable(s, id, provider, now)
    && Lookup(s, id).Some?
    && var own := s.accounts[Lookup(s, id).value];
    && own.status == RateLimited && 0 < own.rateLimitResetAt - now <= 1000 * s.cfg.maxWaitSeconds
  }

  /** Availability, and what holds an account back, in its own fields. */
  lemma AvailabilityExact(cfg: Config, a: Account, provider: string, now: int)
    ensures CircuitOpen(cfg, a, now) <==> cfg.breakerOn && a.circuitBreakerLevel >= 1 && now < a.circuitBreakerUntil
    ensures Serves(a, provider) <==> a.status != Disabled && (provider == "" || provider == a.provider)
    ensures Available(cfg, a, provider, now) <==>
            && a.status != Disabled && (provider == "" || provider == a.provider)
            && (!cfg.breakerOn || a.circuitBreakerLevel == 0 || a.circuitBreakerUntil <= now)
            && (a.status != RateLimited || a.rateLimitResetAt <= now)
    ensures ResetTime(cfg, a, now) ==
            if cfg.breakerOn && a.circuitBreakerLevel >= 1 && now < a.circuitBreakerUntil then a.circuitBreakerUntil
            else if a.status == RateLimited then a.rateLimitResetAt
            else 0
  {}

  /** The reset time of an account held back is the first moment it is available,
      unless a rate limit outlasts its open circuit. */
  lemma ResetIsFirstMoment(cfg: Config, a: Account, provider: string, now: int)
    requires Serves(a, provider) && !Available(cfg, a, provider, now)
    ensures var t := ResetTime(cfg, a, now);
            && t > now && (forall u :: now <= u < t ==> !Available(cfg, a, provider, u))
            && (Available(cfg, a, provider, t) <==>
                !(CircuitOpen(cfg, a, now) && a.status == RateLimited && a.rateLimitResetAt > a.circuitBreakerUntil))
  {}

  /** Such an account is named as the soonest although another is available earlier. */
  lemma SoonestNotSoonest()
    ensures var cfg := Config(Balance, 60, "", true, [60, 300, 1800, 7200]);
            var a := Account("a", "google", RateLimited, 9000, 1, 2000, 1, 1, 1, 0);
            var b := Account("b", "google", RateLimited, 3000, 0, 0, 0, 0, 0, 0);
            var s := State([a, b], map[], 0, cfg);
            && Select(s, "", "", 1000, 1000).0 == Some(0)
            && Available(cfg, b, "", 3000) && !Available(cfg, a, "", 3000)
  {
    var cfg := Config(Balance, 60, "", true, [60, 300, 1800, 7200]);
    var a := Account("a", "google", RateLimited, 9000, 1, 2000, 1, 1, 1, 0);
    var b := Account("b", "google", RateLimited, 3000, 0, 0, 0, 0, 0, 0);
    var s := State([a, b], map[], 0, cfg);
    hide Select;
    assert s.accounts[0] == a && s.accounts[1] == b;
    NoneAvailable(s, "", "", 1000, 1000);
    assert HeldBack(s, 0, "", 1000) && HeldBack(s, 1, "", 1000);
    assert ResetTime(cfg, s.accounts[0], 1000) == 2000 && ResetTime(cfg, s.accounts[1], 1000) == 3000;
  }

  lemma NonEmptyIff(s: State, provider: string, now: int)
    ensures AvailableIn(s, provider, now) != [] <==> SomeAvailable(s, provider, now)
  {
    var ks := AvailableIn(s, provider, now);
    if ks != [] {
      assert Available(s.cfg, s.accounts[ks[0]], provider, now);
    }
  }

  /** Outside fixed-account mode, when some account is available, the selected one
      is unavailable if and only if the call waits, and then it is the session's own. */
  lemma SelectsAvailable(s: State, session: string, provider: string, now: int, later: int)
    requires s.cfg.fixedId == "" && SomeAvailable(s, provider, now)
    ensures var (r, t) := Select(s, session, provider, now, later);
            && r.Some? && r.value < |s.accounts|
            && (!Available(s.cfg, s.accounts[r.value], provider, now) <==> Waits(s, session, provider, now))
            && (Waits(s, session, provider, now) ==> r == Lookup(s, s.sessions[session]) && t == s)
  {
    NonEmptyIff(s, provider, now);
    var ks := AvailableIn(s, provider, now);
    if s.cfg.mode == CachePriority || s.cfg.mode == Balance {
      StickyChoice(s, session, provider, now);
    } else if s.cfg.mode == Performance {
      assert ks[Mod(s.roundRobin, |ks|)] in ks;
    }
  }

  /** An available account carries the id exactly when the list has one. */
  lemma ListedIffAvailable(s: State, id: string, provider: string, now: int)
    ensures FindId(s.accounts, AvailableIn(s, provider, now), id).Some? <==> IdAvailable(s, id, provider, now)
  {
    var ks := AvailableIn(s, provider, now);
    if IdAvailable(s, id, provider, now) {
      var k :| 0 <= k < |s.accounts| && s.accounts[k].id == id && Available(s.cfg, s.accounts[k], provider, now);
      assert k in ks;
      FindsListed(s.accounts, ks, id);
    }
  }

  lemma FindsListed(accounts: seq<Account>, ks: seq<nat>, id: string)
    requires Indices(|accounts|, ks) && exists k :: k in ks && accounts[k].id == id
    ensures FindId(accounts, ks, id).Some?
  {
    var k :| k in ks && accounts[k].id == id;
    var j :| 0 <= j < |ks| && ks[j] == k;
    assert accounts[ks[j]].id == id;
  }

  lemma StickyChoice(s: State, session: string, provider: string, now: int)
    requires AvailableIn(s, provider, now) != [] && (s.cfg.mode == CachePriority || s.cfg.mode == Balance)
    ensures var (r, t) := SelectSticky(s, AvailableIn(s, provider, now), session, now);
            && r.Some? && r.value < |s.accounts|
            && (!Available(s.cfg, s.accounts[r.value], provider, now) <==> Waits(s, session, provider, now))
            && (Waits(s, session, provider, now) ==> r == Lookup(s, s.sessions[session]) && t == s)
  {
    var ks := AvailableIn(s, provider, now);
    assert forall k :: k in ks ==> Available(s.cfg, s.accounts[k], provider, now);
    if session != "" && session in s.sessions {
      ListedIffAvailable(s, s.sessions[session], provider, now);
    }
  }

  /** Exactly when the provider, or an open circuit, is ignored. */
  lemma IgnoredExactly(s: State, session: string, provider: string, now: int, later: int)
    requires s.cfg.fixedId == "" && SomeAvailable(s, provider, now)
    ensures var r := Select(s, session, provider, now, later).0;
            && r.Some? && r.value < |s.accounts|
            && (!Serves(s.accounts[r.value], provider) <==>
                && Waits(s, session, provider, now) && provider != ""
                && s.accounts[Lookup(s, s.sessions[session]).value].provider != provider)
            && (CircuitOpen(s.cfg, s.accounts[r.value], now) <==>
                && Waits(s, session, provider, now)
                && CircuitOpen(s.cfg, s.accounts[Lookup(s, s.sessions[session]).value], now))
  {
    SelectsAvailable(s, session, provider, now, later);
    hide Select, IdAvailable, FindId;
  }

  /** Waiting looks at neither the provider asked for nor the circuit breaker. */
  lemma WaitIgnoresProvider()
    ensures var cfg := Config(CachePriority, 60, "", true, [60, 300, 1800, 7200]);
            var own := Account("a", "google", RateLimited, 1000, 1, 900000, 0, 0, 0, 0);
            var other := Account("b", "openai", Active, 0, 0, 0, 0, 0, 0, 0);
            var s := State([own, other], map["s" := "a"], 0, cfg);
            && SomeAvailable(s, "openai", 0)
            && Select(s, "s", "openai", 0, 0).0 == Some(0)
            && !Serves(own, "openai") && CircuitOpen(cfg, own, 0)
  {
    var cfg := Config(CachePriority, 60, "", true, [60, 300, 1800, 7200]);
    var own := Account("a", "google", RateLimited, 1000, 1, 900000, 0, 0, 0, 0);
    var other := Account("b", "openai", Active, 0, 0, 0, 0, 0, 0, 0);
    var s := State([own, other], map["s" := "a"], 0, cfg);
    hide Select, FindId;
    assert s.accounts[0] == own && s.accounts[1] == other;
    assert Available(cfg, other, "openai", 0) && !Available(cfg, own, "openai", 0);
    assert !IdAvailable(s, "a", "openai", 0);
    LookupIsFirst(s, "a");
    assert Lookup(s, "a") == Some(0);
    SelectsAvailable(s, "s", "openai", 0, 0);
  }

  /** Fixed-account mode: the first enabled account with the fixed id, whatever the
      provider, its circuit or its limits; null if there is none. Nothing changes. */
  lemma FixedExactly(s: State, session: string, provider: string, now: int, later: int)
    requires s.cfg.fixedId != ""
    ensures var (r, t) := Select(s, session, provider, now, later);
            && t == s
            && (r == None <==> forall k :: 0 <= k < |s.accounts| ==> !IsFixed(s, k))
            && (r.Some? ==> r.value < |s.accounts| && IsFixed(s, r.value) && forall j :: 0 <= j < r.value ==> !IsFixed(s, j))
  {
    FirstFixed(s, 0);
  }

  predicate IsFixed(s: State, k: nat)
    requires k < |s.accounts|
  {
    s.accounts[k].id == s.cfg.fixedId && s.accounts[k].status != Disabled
  }

  lemma {:induction false} FirstFixed(s: State, i: nat)
    requires i <= |s.accounts|
    ensures var r := FixedFrom(s.accounts, s.cfg.fixedId, i);
            && (r == None <==> forall k :: i <= k < |s.accounts| ==> !IsFixed(s, k))
            && (r.Some? ==> i <= r.value < |s.accounts| && IsFixed(s, r.value) && forall j :: i <= j < r.value ==> !IsFixed(s, j))
    decreases |s.accounts| - i
  {
    if i < |s.accounts| {
      assert IsFixed(s, i) <==> s.accounts[i].id == s.cfg.fixedId && s.accounts[i].status != Disabled;
      FirstFixed(s, i + 1);
    }
  }

  /** An unknown mode takes the first available account; a call without a session, in
      the sticky modes, the least recently used one. Neither changes anything. */
  lemma UnboundChoice(s: State, session: string, provider: string, now: int, later: int)
    requires s.cfg.fixedId == "" && SomeAvailable(s, provider, now)
    requires s.cfg.mode == OtherMode || (session == "" && s.cfg.mode != Performance)
    ensures var (r, t) := Select(s, session, provider, now, later);
            && t == s && r.Some? && r.value < |s.accounts| && Available(s.cfg, s.accounts[r.value], provider, now)
            && forall k: nat :: k < |s.accounts| && Available(s.cfg, s.accounts[k], provider, now) ==>
                 if s.cfg.mode == OtherMode then r.value <= k else Before(s, r.value, k)
  {
    NonEmptyIff(s, provider, now);
    var ks := AvailableIn(s, provider, now);
    forall k: nat | k < |s.accounts| && Available(s.cfg, s.accounts[k], provider, now)
      ensures if s.cfg.mode == OtherMode then ks[0] <= k else Before(s, LeastUsed(s.accounts, ks), k)
    {
      var j :| 0 <= j < |ks| && ks[j] == k;
    }
  }

  /** Used longer ago, or as long ago and earlier in the list. */
  predicate Before(s: State, m: nat, k: nat)
    requires m < |s.accounts| && k < |s.accounts|
  {
    || s.accounts[m].lastUsedAt < s.accounts[k].lastUsedAt
    || (s.accounts[m].lastUsedAt == s.accounts[k].lastUsedAt && m <= k)
  }

  // ------------------------------------------------------------------
  // Nothing available
  // ------------------------------------------------------------------

  /** The accounts findSoonestAvailable can name: enabled, of the provider, and
      still held back when it looks. */
  predicate HeldBack(s: State, k: nat, provider: string, later: int)
    requires k < |s.accounts|
  {
    Serves(s.accounts[k], provider) && ResetTime(s.cfg, s.accounts[k], later) > 0
  }

  /** Reset earlier, or at the same time and earlier in the list. */
  predicate Sooner(s: State, m: nat, k: nat, later: int)
    requires m < |s.accounts| && k < |s.accounts|
  {
    var t, u := ResetTime(s.cfg, s.accounts[m], later), ResetTime(s.cfg, s.accounts[k], later);
    t < u || (t == u && m <= k)
  }

  lemma {:induction false} SoonestIsMinimal(s: State, provider: string, later: int, n: nat)
    requires n <= |s.accounts|
    ensures var r := Soonest(s, provider, later, n);
            && (r.None? <==> forall k: nat :: k < n ==> !HeldBack(s, k, provider, later))
            && (r.Some? ==>
                  && HeldBack(s, r.value, provider, later)
                  && forall k: nat :: k < n && HeldBack(s, k, provider, later) ==> Sooner(s, r.value, k, later))
  {
    if n > 0 {
      SoonestIsMinimal(s, provider, later, n - 1);
      assert HeldBack(s, n - 1, provider, later) <==>
             Serves(s.accounts[n - 1], provider) && ResetTime(s.cfg, s.accounts[n - 1], later) > 0;
    }
  }

  /** When nothing is available the answer is the held-back account with the least
      reset time, and null exactly when no account is held back any more. */
  lemma NoneAvailable(s: State, session: string, provider: string, now: int, later: int)
    requires s.cfg.fixedId == "" && !SomeAvailable(s, provider, now)
    ensures var r := Select(s, session, provider, now, later).0;
            && (r.None? <==> forall k: nat :: k < |s.accounts| ==> !HeldBack(s, k, provider, later))
            && (r.Some? ==>
                  && r.value < |s.accounts| && HeldBack(s, r.value, provider, later)
                  && forall k: nat :: k < |s.accounts| && HeldBack(s, k, provider, later) ==> Sooner(s, r.value, k, later))
  {
    NonEmptyIff(s, provider, now);
    SoonestIsMinimal(s, provider, later, |s.accounts|);
  }

  /** If both clock reads agree, null means no enabled account of the provider. */
  lemma SameInstant(s: State, session: string, provider: string, now: int)
    requires s.cfg.fixedId == "" && !SomeAvailable(s, provider, now) && now >= 0
    ensures Select(s, session, provider, now, now).0.None? <==>
            forall k: nat :: k < |s.accounts| ==> !Serves(s.accounts[k], provider)
  {
    NoneAvailable(s, session, provider, now, now);
    forall k: nat | k < |s.accounts| ensures HeldBack(s, k, provider, now) <==> Serves(s.accounts[k], provider) {
      assert !Available(s.cfg, s.accounts[k], provider, now);
    }
  }

  /** If the clock moves past a circuit's opening time between the two reads, the
      only account is missed: it was not available, and is no longer held back. */
  lemma ClockTickMissesAccount()
    ensures var cfg := Config(Balance, 60, "", true, [60, 300, 1800, 7200]);
            var a := Account("a", "google", Errored, 0, 1, 5, 1, 1, 1, 0);
            var s := State([a], map[], 0, cfg);
            && Select(s, "", "", 4, 5).0 == None && Select(s, "", "", 4, 4).0 == Some(0)
            && Select(s, "", "", 5, 5).0 == Some(0)
  {
    var cfg := Config(Balance, 60, "", true, [60, 300, 1800, 7200]);
    var a := Account("a", "google", Errored, 0, 1, 5, 1, 1, 1, 0);
    var s := State([a], map[], 0, cfg);
    assert s.accounts[0] == a;
    assert AvailableUpTo(s, "", 4, 1) == [] && AvailableUpTo(s, "", 5, 1) == [0];
    assert Soonest(s, "", 5, 1) == None && Soonest(s, "", 4, 1) == Some(0);
  }

  // ------------------------------------------------------------------
  // Runs of calls
  // ------------------------------------------------------------------

  datatype Op =
    | Selecting(session: string, provider: string, now: int, later: int)
    | Success(id: string, now: int)
    | RateLimit(id: string, retryAfterMs: int, now: int)
    | Failure(id: string, quota: bool, now: int)
    | ClearSessions
    | Add(account: Account)
    | Remove(id: string)

  function Updated(s: State, id: string, change: Account -> Account): State {
    match Lookup(s, id)
    case None => s
    case Some(k) => WithAccount(s, k, change(s.accounts[k]))
  }

  function Step(s: State, op: Op): State {
    match op
    case Selecting(session, provider, now, later) => Select(s, session, provider, now, later).1
    case Success(id, now) => Updated(s, id, a => Succeeded(a, now))
    case RateLimit(id, ms, now) => Updated(s, id, a => Limited(a, ms, now))
    case Failure(id, quota, now) => Updated(s, id, a => Failed(s.cfg, a, quota, now))
    case ClearSessions => s.(sessions := map[])
    case Add(account) => s.(accounts := s.accounts + [account])
    case Remove(id) => Removed(s, id)
  }

  // ------------------------------------------------------------------
  // Round robin
  // ------------------------------------------------------------------

  /** What a rotating index picks in k turns. */
  function Rounds<T>(xs: seq<T>, roundRobin: nat, k: nat): (r: seq<T>)
    requires xs != []
    ensures |r| == k
    decreases k
  {
    if k == 0 then []
    else [xs[Mod(roundRobin, |xs|)]] + Rounds(xs, Mod(roundRobin, |xs|) + 1, k - 1)
  }

  /** The ids of the available accounts, in order. */
  function AvailableIds(s: State, provider: string, now: int): (ids: seq<string>)
    ensures var ks := AvailableIn(s, provider, now);
            && |ids| == |ks|
            && forall i :: 0 <= i < |ks| ==> ks[i] < |s.accounts| && ids[i] == s.accounts[ks[i]].id
  {
    var ks := AvailableIn(s, provider, now);
    seq(|ks|, i requires 0 <= i < |ks| => s.accounts[ks[i]].id)
  }

  /** The id a selection returns. */
  function Choice(s: State, op: Op): Option<string>
    requires op.Selecting?
  {
    match Select(s, op.session, op.provider, op.now, op.later).0
    case None => None
    case Some(k) => if k < |s.accounts| then Some(s.accounts[k].id) else None
  }

  /** The ids returned along a run, to whatever session. */
  function Choices(s: State, ops: seq<Op>): seq<Option<string>>
    decreases |ops|
  {
    if ops == [] then []
    else
      var later := Choices(Step(s, ops[0]), ops[1..]);
      if ops[0].Selecting? then [Choice(s, ops[0])] + later else later
  }

  function Selections(ops: seq<Op>): nat {
    if ops == [] then 0 else (if ops[0].Selecting? then 1 else 0) + Selections(ops[1..])
  }

  /** Every selection of the run finds the same accounts available. */
  predicate FindsOnly(s: State, ops: seq<Op>, ids: seq<string>)
    decreases |ops|
  {
    ops == [] ||
    (&& (ops[0].Selecting? ==> AvailableIds(s, ops[0].provider, ops[0].now) == ids)
     && FindsOnly(Step(s, ops[0]), ops[1..], ids))
  }

  function Somes(ids: seq<string>): (r: seq<Option<string>>)
    ensures |r| == |ids| && forall i :: 0 <= i < |ids| ==> r[i] == Some(ids[i])
  {
    seq(|ids|, i requires 0 <= i < |ids| => Some(ids[i]))
  }

  lemma OneTurn(s: State, op: Op, ids: seq<string>)
    requires s.cfg.fixedId == "" && s.cfg.mode == Performance && ids != []
    requires op.Selecting? && AvailableIds(s, op.provider, op.now) == ids
    ensures var i := Mod(s.roundRobin, |ids|);
            Choice(s, op) == Some(ids[i]) && Step(s, op) == s.(roundRobin := i + 1)
  {
    hide Mod;
    var ks := AvailableIn(s, op.provider, op.now);
    assert |ks| == |ids|;
    hide AvailableUpTo;
  }

  lemma IndexUntouched(s: State, op: Op)
    requires !op.Selecting?
    ensures Step(s, op).roundRobin == s.roundRobin && Step(s, op).cfg == s.cfg
  {}

  /** In performance mode the selections of a run rotate over the available
      accounts, whatever reports, additions and removals come in between, as long
      as every selection finds the same accounts available. */
  lemma {:induction false} PerformanceRotates(s: State, ops: seq<Op>, ids: seq<string>)
    requires s.cfg.fixedId == "" && s.cfg.mode == Performance && ids != [] && FindsOnly(s, ops, ids)
    ensures Choices(s, ops) == Rounds(Somes(ids), s.roundRobin, Selections(ops))
    decreases |ops|
  {
    hide Mod, Step, Choice, AvailableIds;
    if ops != [] {
      var t, n, xs := Step(s, ops[0]), Selections(ops[1..]), Somes(ids);
      if ops[0].Selecting? {
        OneTurn(s, ops[0], ids);
        PerformanceRotates(t, ops[1..], ids);
        var i := Mod(s.roundRobin, |ids|);
        assert Rounds(xs, s.roundRobin, n + 1) == [xs[i]] + Rounds(xs, i + 1, n);
      } else {
        IndexUntouched(s, ops[0]);
        PerformanceRotates(t, ops[1..], ids);
      }
    }
  }

  lemma OneRound<T>(xs: seq<T>, i: nat, k: nat)
    requires xs != [] && i <= |xs| && k > 0
    ensures var at := if i < |xs| then i else 0;
            Rounds(xs, i, k) == [xs[at]] + Rounds(xs, at + 1, k - 1)
  {
    hide Mod;
    if i < |xs| {
      ModSmall(i, |xs|);
    } else {
      ModTurn(0, |xs|);
      ModSmall(0, |xs|);
    }
  }

  lemma {:induction false} RoundsFromWithin<T>(xs: seq<T>, i: nat, k: nat)
    requires xs != [] && i <= |xs| && k <= |xs|
    ensures Rounds(xs, i, k) == (xs[i..] + xs)[..k]
    decreases k
  {
    if k > 0 {
      hide Rounds;
      var at := if i < |xs| then i else 0;
      OneRound(xs, i, k);
      RoundsFromWithin(xs, at + 1, k - 1);
      TakeFront(xs, at, k);
      if i == |xs| { WrapsAround(xs, k); }
    }
  }

  lemma WrapsAround<T>(xs: seq<T>, k: nat)
    requires k <= |xs|
    ensures (xs[|xs|..] + xs)[..k] == (xs[0..] + xs)[..k]
  {}

  lemma TakeFront<T>(xs: seq<T>, i: nat, k: nat)
    requires i < |xs| && 0 < k <= |xs|
    ensures (xs[i..] + xs)[..k] == [xs[i]] + (xs[i + 1..] + xs)[..k - 1]
  {
    assert xs[i..] + xs == [xs[i]] + (xs[i + 1..] + xs);
  }

  lemma WholeRound<T>(xs: seq<T>, roundRobin: nat)
    requires xs != []
    ensures multiset(Rounds(xs, roundRobin, |xs|)) == multiset(xs)
  {
    hide Mod;
    var n, i := |xs|, Mod(roundRobin, |xs|);
    ModSmall(i, n);
    assert Rounds(xs, roundRobin, n) == Rounds(xs, i, n);
    RoundsFromWithin(xs, i, n);
    assert (xs[i..] + xs)[..n] == xs[i..] + xs[..i];
    assert xs == xs[..i] + xs[i..];
  }

  /** Any n consecutive selections in performance mode that find the same n
      accounts available return each of them exactly once, wherever the index
      stands and whatever is reported in between. */
  lemma EachExactlyOnce(s: State, ops: seq<Op>, ids: seq<string>)
    requires s.cfg.fixedId == "" && s.cfg.mode == Performance && ids != [] && FindsOnly(s, ops, ids)
    requires Selections(ops) == |ids|
    ensures multiset(Choices(s, ops)) == multiset(Somes(ids))
  {
    PerformanceRotates(s, ops, ids);
    WholeRound(Somes(ids), s.roundRobin);
  }

  // ------------------------------------------------------------------
  // Sticky sessions over runs
  // ------------------------------------------------------------------

  predicate Bound(s: State, session: string, id: string) {
    session in s.sessions && s.sessions[session] == id
  }

  predicate Sticky(s: State) {
    s.cfg.fixedId == "" && (s.cfg.mode == CachePriority || s.cfg.mode == Balance)
  }

  /** A bound session whose account is available gets it, and nothing changes. */
  lemma BoundGetsOwn(s: State, session: string, id: string, provider: string, now: int, later: int)
    requires Sticky(s) && session != "" && Bound(s, session, id) && IdAvailable(s, id, provider, now)
    ensures var (r, t) := Select(s, session, provider, now, later);
            && r.Some? && r.value < |s.accounts| && s.accounts[r.value].id == id
            && Available(s.cfg, s.accounts[r.value], provider, now) && t == s
  {
    ListedIffAvailable(s, id, provider, now);
    NonEmptyIff(s, provider, now);
  }

  /** A session that is unbound, or whose account is neither available nor worth
      waiting for, is bound to the least recently used available account, the
      earliest in the list of equals; the other sessions keep theirs. */
  lemma RebindsToLeastUsed(s: State, session: string, provider: string, now: int, later: int)
    requires Sticky(s) && session != "" && SomeAvailable(s, provider, now)
    requires session in s.sessions ==> !IdAvailable(s, s.sessions[session], provider, now)
    requires !Waits(s, session, provider, now)
    ensures var (r, t) := Select(s, session, provider, now, later);
            && r.Some? && r.value < |s.accounts| && Available(s.cfg, s.accounts[r.value], provider, now)
            && t == s.(sessions := s.sessions[session := s.accounts[r.value].id])
            && forall k: nat :: k < |s.accounts| && Available(s.cfg, s.accounts[k], provider, now) ==> Before(s, r.value, k)
  {
    NonEmptyIff(s, provider, now);
    var ks := AvailableIn(s, provider, now);
    if session in s.sessions { ListedIffAvailable(s, s.sessions[session], provider, now); }
    assert Kept(s, ks, session, now) == None;
    var m := LeastUsed(s.accounts, ks);
    forall k: nat | k < |s.accounts| && Available(s.cfg, s.accounts[k], provider, now) ensures Before(s, m, k) {
      var j :| 0 <= j < |ks| && ks[j] == k;
    }
  }

  /** After the bindings are cleared every session is served as a new one. */
  lemma ClearedForgets(s: State, session: string, provider: string, now: int, later: int)
    requires Sticky(s) && session != "" && SomeAvailable(s, provider, now)
    ensures var (r, t) := Select(Step(s, ClearSessions), session, provider, now, later);
            && r.Some? && r.value < |s.accounts| && t.accounts == s.accounts
            && t.sessions == map[session := s.accounts[r.value].id]
            && forall k: nat :: k < |s.accounts| && Available(s.cfg, s.accounts[k], provider, now) ==> Before(s, r.value, k)
  {
    var c := Step(s, ClearSessions);
    var k :| 0 <= k < |s.accounts| && Available(s.cfg, s.accounts[k], provider, now);
    assert Available(c.cfg, c.accounts[k], provider, now);
    RebindsToLeastUsed(c, session, provider, now, later);
    forall k: nat | k < |s.accounts| && Available(s.cfg, s.accounts[k], provider, now)
      ensures Before(s, Select(c, session, provider, now, later).0.value, k)
    {
      assert Before(c, Select(c, session, provider, now, later).0.value, k);
    }
  }

  /** The run neither drops the binding nor asks for the session while its account is unavailable. */
  predicate Undisturbed(s: State, ops: seq<Op>, session: string, id: string)
    decreases |ops|
  {
    ops == [] ||
    (&& !ops[0].ClearSessions? && ops[0] != Remove(id)
     && (ops[0].Selecting? && ops[0].session == session ==> IdAvailable(s, id, ops[0].provider, ops[0].now))
     && Undisturbed(Step(s, ops[0]), ops[1..], session, id))
  }

  /** The ids returned to one session along a run. */
  function Served(s: State, ops: seq<Op>, session: string): seq<Option<string>>
    decreases |ops|
  {
    if ops == [] then []
    else
      var later := Served(Step(s, ops[0]), ops[1..], session);
      if ops[0].Selecting? && ops[0].session == session then
        [Choice(s, ops[0])] + later
      else later
  }

  lemma OthersKeepBinding(s: State, op: Op, session: string, id: string)
    requires Sticky(s) && Bound(s, session, id)
    requires !op.ClearSessions? && op != Remove(id) && !(op.Selecting? && op.session == session)
    ensures Sticky(Step(s, op)) && Bound(Step(s, op), session, id)
  {}

  /** In the sticky modes a bound session keeps its account through any run of
      calls by anyone, as long as the account is available whenever it is asked for. */
  lemma {:induction false} SessionKeepsAccount(s: State, ops: seq<Op>, session: string, id: string)
    requires Sticky(s) && session != "" && Bound(s, session, id) && Undisturbed(s, ops, session, id)
    ensures forall r :: r in Served(s, ops, session) ==> r == Some(id)
    decreases |ops|
  {
    if ops != [] {
      var op := ops[0];
      if op.Selecting? && op.session == session {
        BoundGetsOwn(s, session, id, op.provider, op.now, op.later);
      } else {
        OthersKeepBinding(s, op, session, id);
      }
      SessionKeepsAccount(Step(s, op), ops[1..], session, id);
    }
  }

  // ------------------------------------------------------------------
  // Reports
  // ------------------------------------------------------------------

  /** A quota error opens the circuit: the account is not available again, for any
      provider, until the backoff of its new level has passed. */
  lemma QuotaErrorBacksOff(s: State, id: string, now: int, k: nat)
    requires s.cfg.breakerOn && Lookup(s, id) == Some(k)
    ensures k < |s.accounts|
    ensures var a := s.accounts[k];
            var b := Step(s, Failure(id, true, now)).accounts[k];
            var level := if a.circuitBreakerLevel < 3 then a.circuitBreakerLevel else 3;
            && b.circuitBreakerLevel == level + 1
            && forall provider, t: int ::
                 Available(s.cfg, b, provider, t) <==>
                 Serves(b, provider) && t >= now + 1000 * s.cfg.backoff[level]
  {}

  function AfterSuccesses(a: Account, times: seq<int>): Account
    decreases |times|
  {
    if times == [] then a else AfterSuccesses(Succeeded(a, times[0]), times[1..])
  }

  /** Each success takes the circuit down one level and leaves its opening time
      alone: it takes as many successes as the level to close it early. */
  lemma {:induction false} SuccessesCloseCircuit(a: Account, times: seq<int>)
    ensures var b := AfterSuccesses(a, times);
            && b.circuitBreakerLevel == (if |times| < a.circuitBreakerLevel then a.circuitBreakerLevel - |times| else 0)
            && b.circuitBreakerUntil == a.circuitBreakerUntil
    ensures forall cfg: Config, t: int ::
              CircuitOpen(cfg, AfterSuccesses(a, times), t) <==> CircuitOpen(cfg, a, t) && |times| < a.circuitBreakerLevel
    decreases |times|
  {
    if times != [] {
      SuccessesCloseCircuit(Succeeded(a, times[0]), times[1..]);
    }
  }

  /** A 429 holds the account back until its reset time, one minute if none was given. */
  lemma RateLimitHoldsBack(s: State, id: string, retryAfterMs: int, now: int, k: nat)
    requires Lookup(s, id) == Some(k)
    ensures k < |s.accounts|
    ensures var b := Step(s, RateLimit(id, retryAfterMs, now)).accounts[k];
            forall provider, t: int ::
              Available(s.cfg, b, provider, t) <==>
              Serves(b, provider) && !CircuitOpen(s.cfg, b, t)
              && t >= now + if retryAfterMs == 0 then 60000 else retryAfterMs
  {}

  /** Removing an id keeps exactly the other accounts, in order, and exactly the
      sessions bound to another id, with their bindings. */
  lemma RemovedLeavesNothing(s: State, id: string) returns (ps: seq<nat>)
    ensures var t := Step(s, Remove(id));
            && Indices(|s.accounts|, ps)
            && (forall k: nat :: k < |s.accounts| ==> (k in ps <==> s.accounts[k].id != id))
            && |t.accounts| == |ps| && (forall i :: 0 <= i < |ps| ==> t.accounts[i] == s.accounts[ps[i]])
            && (forall x :: x in t.sessions <==> x in s.sessions && s.sessions[x] != id)
            && (forall x :: x in t.sessions ==> t.sessions[x] == s.sessions[x])
  {
    ps := Survivors(s.accounts, id, |s.accounts|);
  }

  lemma {:induction false} Survivors(accounts: seq<Account>, id: string, n: nat) returns (ps: seq<nat>)
    requires n <= |accounts|
    ensures Indices(n, ps) && forall k: nat :: k < n ==> (k in ps <==> accounts[k].id != id)
    ensures var kept := WithoutUpTo(accounts, id, n);
            |kept| == |ps| && forall i :: 0 <= i < |ps| ==> kept[i] == accounts[ps[i]]
  {
    ps := [];
    if n > 0 {
      ps := Survivors(accounts, id, n - 1);
      if accounts[n - 1].id != id { ps := ps + [n - 1]; }
    }
  }

  // ------------------------------------------------------------------
  // Disabled accounts
  // ------------------------------------------------------------------

  /** The account an id names: the first that carries it. */
  function AccountOf(accounts: seq<Account>, id: string): Option<Account> {
    if accounts == [] then None
    else if accounts[0].id == id then Some(accounts[0])
    else AccountOf(accounts[1..], id)
  }

  lemma {:induction false} FindFromFront(accounts: seq<Account>, id: string, i: nat)
    requires i <= |accounts|
    ensures var r := FindFrom(accounts, Everyone(|accounts|), id, i);
            && AccountOf(accounts[i..], id) == (if r.Some? then Some(accounts[r.value]) else None)
            && (r.Some? ==> i <= r.value && forall j :: i <= j < r.value ==> accounts[j].id != id)
    decreases |accounts| - i
  {
    if i < |accounts| {
      FindFromFront(accounts, id, i + 1);
      assert accounts[i..][1..] == accounts[i + 1..];
    }
  }

  /** Reports look the account up the same way. */
  lemma LookupIsFirst(s: State, id: string)
    ensures var r := Lookup(s, id);
            && AccountOf(s.accounts, id) == (if r.Some? then Some(s.accounts[r.value]) else None)
            && (r.Some? ==> r.value < |s.accounts| && s.accounts[r.value].id == id
                            && forall j :: 0 <= j < r.value ==> s.accounts[j].id != id)
  {
    FindFromFront(s.accounts, id, 0);
    assert s.accounts[0..] == s.accounts;
  }

  lemma {:induction false} AccountOfAppend(a: seq<Account>, b: seq<Account>, id: string)
    ensures AccountOf(a + b, id) == if AccountOf(a, id).Some? then AccountOf(a, id) else AccountOf(b, id)
    decreases |a|
  {
    if a == [] {
      assert a + b == b;
    } else {
      assert (a + b)[1..] == a[1..] + b;
      AccountOfAppend(a[1..], b, id);
    }
  }

  lemma {:induction false} AccountOfUpdate(accounts: seq<Account>, k: nat, b: Account, id: string)
    requires k < |accounts| && b.id == accounts[k].id && forall j :: 0 <= j < k ==> accounts[j].id != b.id
    ensures AccountOf(accounts[k := b], id) == if id == b.id then Some(b) else AccountOf(accounts, id)
    decreases k
  {
    if k > 0 {
      assert accounts[k := b][1..] == accounts[1..][k - 1 := b];
      AccountOfUpdate(accounts[1..], k - 1, b, id);
    } else {
      assert accounts[k := b][1..] == accounts[1..];
    }
  }

  lemma {:induction false} AccountOfWithout(accounts: seq<Account>, other: string, id: string, n: nat)
    requires n <= |accounts| && id != other
    ensures AccountOf(WithoutUpTo(accounts, other, n), id) == AccountOf(accounts[..n], id)
    decreases n
  {
    if n > 0 {
      var last := accounts[n - 1];
      AccountOfWithout(accounts, other, id, n - 1);
      assert accounts[..n] == accounts[..n - 1] + [last];
      AccountOfAppend(accounts[..n - 1], [last], id);
      AccountOfAppend(WithoutUpTo(accounts, other, n - 1), if last.id != other then [last] else [], id);
    }
  }

  /** The op reports on the id. */
  predicate Reports(op: Op, id: string) {
    (op.Success? || op.RateLimit? || op.Failure?) && op.id == id
  }

  function Reported(cfg: Config, a: Account, op: Op): Account {
    match op
    case Success(_, now) => Succeeded(a, now)
    case RateLimit(_, ms, now) => Limited(a, ms, now)
    case Failure(_, quota, now) => Failed(cfg, a, quota, now)
    case _ => a
  }

  lemma UpdatedAccount(s: State, target: string, change: Account -> Account, id: string)
    requires forall a :: change(a).id == a.id
    ensures var t := Updated(s, target, change);
            && t.cfg == s.cfg
            && AccountOf(t.accounts, id) ==
               match AccountOf(s.accounts, id)
               case None => None
               case Some(a) => Some(if id == target then change(a) else a)
  {
    LookupIsFirst(s, target);
    LookupIsFirst(s, id);
    match Lookup(s, target)
    case None =>
    case Some(k) => AccountOfUpdate(s.accounts, k, change(s.accounts[k]), id);
  }

  /** What a call does to the account of an id it does not remove: a report on it
      changes it, an addition may supply it, and nothing else touches it. */
  lemma AccountAfter(s: State, op: Op, id: string)
    requires op != Remove(id)
    ensures var before := AccountOf(s.accounts, id);
            AccountOf(Step(s, op).accounts, id) ==
            if before.None? then (if op.Add? && op.account.id == id then Some(op.account) else None)
            else Some(if Reports(op, id) then Reported(s.cfg, before.value, op) else before.value)
  {
    match op
    case Selecting(_, _, _, _) => SelectKeepsAccounts(s, op);
    case Success(target, now) => UpdatedAccount(s, target, a => Succeeded(a, now), id);
    case RateLimit(target, ms, now) => UpdatedAccount(s, target, a => Limited(a, ms, now), id);
    case Failure(target, quota, now) => UpdatedAccount(s, target, a => Failed(s.cfg, a, quota, now), id);
    case ClearSessions =>
    case Add(account) => AccountOfAppend(s.accounts, [account], id);
    case Remove(other) =>
      AccountOfWithout(s.accounts, other, id, |s.accounts|);
      assert s.accounts[..|s.accounts|] == s.accounts;
  }

  lemma SelectKeepsAccounts(s: State, op: Op)
    requires op.Selecting?
    ensures Step(s, op).accounts == s.accounts && Step(s, op).cfg == s.cfg
  {}

  function Ran(s: State, ops: seq<Op>): State
    decreases |ops|
  {
    if ops == [] then s else Ran(Step(s, ops[0]), ops[1..])
  }

  predicate IsDisabled(a: Option<Account>) {
    a.Some? && a.value.status == Disabled
  }

  /** One call: a disabled account is enabled by any report on it and by nothing else. */
  lemma DisabledStep(s: State, op: Op, id: string)
    requires op != Remove(id) && AccountOf(s.accounts, id).Some?
    ensures var after := AccountOf(Step(s, op).accounts, id);
            after.Some? && (IsDisabled(after) <==> IsDisabled(AccountOf(s.accounts, id)) && !Reports(op, id))
  {
    AccountAfter(s, op, id);
  }

  /** Over a run of calls by anyone that does not remove it, a disabled account is
      still disabled at the end if and only if no success, error or rate limit was
      reported for it. */
  lemma {:induction false} DisabledUntilReported(s: State, ops: seq<Op>, id: string)
    requires AccountOf(s.accounts, id).Some? && Remove(id) !in ops
    ensures var after := AccountOf(Ran(s, ops).accounts, id);
            && after.Some?
            && (IsDisabled(after) <==>
                IsDisabled(AccountOf(s.accounts, id)) && forall op :: op in ops ==> !Reports(op, id))
    decreases |ops|
  {
    if ops != [] {
      hide Step, Reports;
      var t := Step(s, ops[0]);
      assert ops[0] in ops && ops == [ops[0]] + ops[1..];
      DisabledStep(s, ops[0], id);
      DisabledUntilReported(t, ops[1..], id);
    }
  }

  // ------------------------------------------------------------------
  // What reports add up to
  // ------------------------------------------------------------------

  function ReportCount(ops: seq<Op>, id: string): nat {
    if ops == [] then 0 else (if Reports(ops[0], id) then 1 else 0) + ReportCount(ops[1..], id)
  }

  function ErrorCount(ops: seq<Op>, id: string): nat {
    if ops == [] then 0
    else (if Reports(ops[0], id) && !ops[0].Success? then 1 else 0) + ErrorCount(ops[1..], id)
  }

  /** Failures since the last success; a 429 neither counts nor resets. */
  function Streak(before: nat, ops: seq<Op>, id: string): nat
    decreases |ops|
  {
    if ops == [] then before
    else
      Streak(if !Reports(ops[0], id) || ops[0].RateLimit? then before else if ops[0].Success? then 0 else before + 1,
             ops[1..], id)
  }

  function LastReport(ops: seq<Op>, id: string): (r: Option<Op>)
    ensures r.Some? ==> Reports(r.value, id)
  {
    if ops == [] then None
    else
      var later := LastReport(ops[1..], id);
      if later.Some? then later else if Reports(ops[0], id) then Some(ops[0]) else None
  }

  /** The last report's mark: its time and status, and the reset time a 429 sets. */
  predicate Marked(a: Account, op: Op) {
    match op
    case Success(_, now) => a.lastUsedAt == now && a.status == Active
    case Failure(_, _, now) => a.lastUsedAt == now && a.status == Errored
    case RateLimit(_, ms, now) =>
      a.lastUsedAt == now && a.status == RateLimited && a.rateLimitResetAt == now + (if ms == 0 then 60000 else ms)
    case _ => false
  }

  /** Over any run that does not remove it, an account counts exactly the reports on
      its id, its errors and its current streak of failures, and bears the mark of
      the last report; without a report it does not change at all. */
  lemma {:induction false} ReportsAddUp(s: State, ops: seq<Op>, id: string)
    requires AccountOf(s.accounts, id).Some? && Remove(id) !in ops
    ensures AccountOf(Ran(s, ops).accounts, id).Some?
    ensures var a, b := AccountOf(s.accounts, id).value, AccountOf(Ran(s, ops).accounts, id).value;
            && b.totalRequests == a.totalRequests + ReportCount(ops, id)
            && b.totalErrors == a.totalErrors + ErrorCount(ops, id)
            && b.consecutiveFailures == Streak(a.consecutiveFailures, ops, id)
            && match LastReport(ops, id)
               case None => b == a
               case Some(op) => Marked(b, op)
    decreases |ops|
  {
    if ops != [] {
      var a := AccountOf(s.accounts, id).value;
      assert ops[0] in ops && ops == [ops[0]] + ops[1..];
      AccountAfter(s, ops[0], id);
      if Reports(ops[0], id) { ReportedMarks(s.cfg, a, ops[0], id); }
      hide Step, Marked, Reported;
      ReportsAddUp(Step(s, ops[0]), ops[1..], id);
    }
  }

  lemma ReportedMarks(cfg: Config, a: Account, op: Op, id: string)
    requires Reports(op, id)
    ensures var b := Reported(cfg, a, op);
            && Marked(b, op) && b.totalRequests == a.totalRequests + 1
            && b.totalErrors == a.totalErrors + (if op.Success? then 0 else 1)
            && b.consecutiveFailures == if op.RateLimit? then a.consecutiveFailures
                                        else if op.Success? then 0 else a.consecutiveFailures + 1
  {}

  /** Only a quota error with the breaker on, or a success, touches the circuit. */
  lemma CircuitUntouched(cfg: Config, a: Account, op: Op)
    requires op.RateLimit? || (op.Failure? && !(op.quota && cfg.breakerOn))
    ensures var b := Reported(cfg, a, op);
            b.circuitBreakerLevel == a.circuitBreakerLevel && b.circuitBreakerUntil == a.circuitBreakerUntil
  {}

  predicate DistinctIds(accounts: seq<Account>) {
    forall i, j :: 0 <= i < j < |accounts| ==> accounts[i].id != accounts[j].id
  }

  /** The account just reported on is the most recently used: a new session gets
      another one while another is available. */
  lemma ReportedGoesLast(s: State, op: Op, id: string, session: string, provider: string, now: int, later: int)
    requires Sticky(s) && session != "" && session !in s.sessions && Reports(op, id) && Lookup(s, id).Some?
    requires DistinctIds(s.accounts) && forall a :: a in s.accounts ==> a.lastUsedAt < op.now
    requires exists k :: 0 <= k < |s.accounts| && s.accounts[k].id != id && Available(s.cfg, s.accounts[k], provider, now)
    ensures var (r, t) := Select(Step(s, op), session, provider, now, later);
            r.Some? && r.value < |t.accounts| && t.accounts[r.value].id != id
  {
    LookupIsFirst(s, id);
    var i, t := Lookup(s, id).value, Step(s, op);
    assert t == WithAccount(s, i, Reported(s.cfg, s.accounts[i], op));
    var k :| 0 <= k < |s.accounts| && s.accounts[k].id != id && Available(s.cfg, s.accounts[k], provider, now);
    assert t.accounts[k] == s.accounts[k] && s.accounts[k] in s.accounts;
    hide Step, Select;
    assert Available(t.cfg, t.accounts[k], provider, now);
    RebindsToLeastUsed(t, session, provider, now, later);
    var r := Select(t, session, provider, now, later).0.value;
    assert Before(t, r, k);
  }

  /** When a late report makes a disabled account available: a success or a plain
      error at once unless its circuit is open, a 429 after its reset time. */
  lemma LateReportReenables(s: State, id: string, now: int, ms: int, k: nat)
    requires Lookup(s, id) == Some(k) && k < |s.accounts| && s.accounts[k].status == Disabled
    ensures var a := s.accounts[k];
            var b := Step(s, Success(id, now)).accounts[k];
            && b.status == Active
            && forall p, t: int :: Available(s.cfg, b, p, t) <==>
                 (p == "" || a.provider == p) && (a.circuitBreakerLevel <= 1 || !CircuitOpen(s.cfg, a, t))
    ensures var a := s.accounts[k];
            var b := Step(s, Failure(id, false, now)).accounts[k];
            forall p, t: int :: Available(s.cfg, b, p, t) <==>
              (p == "" || a.provider == p) && !CircuitOpen(s.cfg, a, t)
    ensures var a := s.accounts[k];
            var b := Step(s, RateLimit(id, ms, now)).accounts[k];
            forall p, t: int :: Available(s.cfg, b, p, t) <==>
              && (p == "" || a.provider == p) && !CircuitOpen(s.cfg, a, t)
              && t >= now + if ms == 0 then 60000 else ms
  {}

  /** A disabled account, and a plain error reported late for it. */
  lemma LateErrorExample()
    ensures var cfg := Config(Balance, 60, "", true, [60, 300, 1800, 7200]);
            var a := Account("a", "google", Disabled, 0, 0, 0, 0, 0, 0, 0);
            var s := State([a], map[], 0, cfg);
            && Select(s, "", "", 1, 1).0 == None
            && Select(Step(s, Failure("a", false, 1)), "", "", 1, 1).0 == Some(0)
  {
    var cfg := Config(Balance, 60, "", true, [60, 300, 1800, 7200]);
    var a := Account("a", "google", Disabled, 0, 0, 0, 0, 0, 0, 0);
    var s := State([a], map[], 0, cfg);
    var t := Step(s, Failure("a", false, 1));
    hide Select, FindId;
    assert s.accounts[0] == a && !Serves(a, "");
    LookupIsFirst(s, "a");
    assert t == s.(accounts := [Failed(cfg, a, false, 1)]);
    assert Available(cfg, t.accounts[0], "", 1);
    NoneAvailable(s, "", "", 1, 1);
    SelectsAvailable(t, "", "", 1, 1);
  }
}
