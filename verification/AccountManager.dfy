/**
 Account selection of auto-anti/src/accountManager.ts. Times are milliseconds
 and are parameters: Date.now() is read once by selectAccount (`now`) and again
 by findSoonestAvailable (`later`). An absent session, provider or fixed id is
 "", which the code's truth tests treat the same way.
 */
module AccountManager {
  import opened Modulo
  import opened Wrappers

  datatype Status = Active | RateLimited | Errored | Disabled

  datatype Account = Account(
    id: string, provider: string, status: Status, rateLimitResetAt: int,
    circuitBreakerLevel: nat, circuitBreakerUntil: int,
    consecutiveFailures: nat, totalRequests: nat, totalErrors: nat, lastUsedAt: int)

  /** OtherMode is the switch's default. */
  datatype Mode = CachePriority | Balance | Performance | OtherMode

  type Backoff = b: seq<int> | |b| == 4 witness [60, 300, 1800, 7200]

  datatype Config = Config(mode: Mode, maxWaitSeconds: int, fixedId: string, breakerOn: bool, backoff: Backoff)

  datatype State = State(accounts: seq<Account>, sessions: map<string, string>, roundRobin: nat, cfg: Config)

  // ------------------------------------------------------------------
  // Selection on values; accounts are named by index
  // ------------------------------------------------------------------

  predicate CircuitOpen(cfg: Config, a: Account, now: int) {
    cfg.breakerOn && a.circuitBreakerLevel > 0 && a.circuitBreakerUntil > now
  }

  predicate Serves(a: Account, provider: string) {
    a.status != Disabled && (provider == "" || a.provider == provider)
  }

  predicate Available(cfg: Config, a: Account, provider: string, now: int) {
    && Serves(a, provider) && !CircuitOpen(cfg, a, now)
    && !(a.status == RateLimited && a.rateLimitResetAt > now)
  }

  /** Ascending positions in a list of n accounts. */
  predicate Indices(n: nat, ks: seq<nat>) {
    && (forall i :: 0 <= i < |ks| ==> ks[i] < n)
    && (forall i, j :: 0 <= i < j < |ks| ==> ks[i] < ks[j])
  }

  /** The available accounts among the first `n`, in order. */
  function AvailableUpTo(s: State, provider: string, now: int, n: nat): (ks: seq<nat>)
    requires n <= |s.accounts|
    ensures Indices(n, ks)
    ensures forall i :: 0 <= i < |ks| ==> Available(s.cfg, s.accounts[ks[i]], provider, now)
    ensures forall k: nat :: k < n && Available(s.cfg, s.accounts[k], provider, now) ==> k in ks
  {
    if n == 0 then []
    else
      var before := AvailableUpTo(s, provider, now, n - 1);
      if Available(s.cfg, s.accounts[n - 1], provider, now) then before + [n - 1] else before
  }

  function AvailableIn(s: State, provider: string, now: int): seq<nat> {
    AvailableUpTo(s, provider, now, |s.accounts|)
  }

  /** Array.find by id over the listed accounts, from position i of the list. */
  function FindFrom(accounts: seq<Account>, ks: seq<nat>, id: string, i: nat): (r: Option<nat>)
    requires Indices(|accounts|, ks) && i <= |ks|
    ensures r.Some? ==> r.value in ks && r.value < |accounts| && accounts[r.value].id == id
    ensures r.None? ==> forall j :: i <= j < |ks| ==> accounts[ks[j]].id != id
    decreases |ks| - i
  {
    if i == |ks| then None
    else if accounts[ks[i]].id == id then Some(ks[i])
    else FindFrom(accounts, ks, id, i + 1)
  }

  function FindId(accounts: seq<Account>, ks: seq<nat>, id: string): (r: Option<nat>)
    requires Indices(|accounts|, ks)
    ensures r.Some? ==> r.value in ks && r.value < |accounts| && accounts[r.value].id == id
  {
    FindFrom(accounts, ks, id, 0)
  }

  function Everyone(n: nat): (ks: seq<nat>)
    ensures |ks| == n && forall i :: 0 <= i < n ==> ks[i] == i
  {
    seq(n, i => i)
  }

  /** reduce, over the first `n` listed, to the least recently used; the earliest of equals. */
  function LeastUsedUpTo(accounts: seq<Account>, ks: seq<nat>, n: nat): (m: nat)
    requires Indices(|accounts|, ks) && 0 < n <= |ks|
    ensures m < |accounts| && exists j :: 0 <= j < n && ks[j] == m
    ensures forall j :: 0 <= j < n ==> accounts[m].lastUsedAt <= accounts[ks[j]].lastUsedAt
    ensures forall j :: 0 <= j < n && accounts[ks[j]].lastUsedAt == accounts[m].lastUsedAt ==> m <= ks[j]
  {
    if n == 1 then ks[0]
    else
      var m := LeastUsedUpTo(accounts, ks, n - 1);
      if accounts[ks[n - 1]].lastUsedAt < accounts[m].lastUsedAt then ks[n - 1] else m
  }

  function LeastUsed(accounts: seq<Account>, ks: seq<nat>): (m: nat)
    requires Indices(|accounts|, ks) && ks != []
    ensures m in ks && m < |accounts|
  {
    LeastUsedUpTo(accounts, ks, |ks|)
  }

  function ResetTime(cfg: Config, a: Account, now: int): int {
    if CircuitOpen(cfg, a, now) then a.circuitBreakerUntil
    else if a.status == RateLimited then a.rateLimitResetAt
    else 0
  }

  /** The soonest reset among the first `n` accounts. */
  function Soonest(s: State, provider: string, now: int, n: nat): (r: Option<nat>)
    requires n <= |s.accounts|
    ensures r.Some? ==> r.value < n
  {
    if n == 0 then None
    else
      var a, before := s.accounts[n - 1], Soonest(s, provider, now, n - 1);
      var t := ResetTime(s.cfg, a, now);
      if Serves(a, provider) && t > 0
         && (before.None? || t < ResetTime(s.cfg, s.accounts[before.value], now))
      then Some(n - 1) else before
  }

  /** The first enabled account with the fixed id, from position i. */
  function FixedFrom(accounts: seq<Account>, id: string, i: nat): (r: Option<nat>)
    requires i <= |accounts|
    ensures r.Some? ==> r.value < |accounts| && accounts[r.value].id == id && accounts[r.value].status != Disabled
    ensures r.None? ==> forall j :: i <= j < |accounts| && accounts[j].id == id ==> accounts[j].status == Disabled
    decreases |accounts| - i
  {
    if i == |accounts| then None
    else if accounts[i].id == id && accounts[i].status != Disabled then Some(i)
    else FixedFrom(accounts, id, i + 1)
  }

  predicate WorthWaiting(cfg: Config, a: Account, now: int) {
    a.status == RateLimited && 0 < a.rateLimitResetAt - now <= 1000 * cfg.maxWaitSeconds
  }

  /** The account a session keeps: its own if available, or, in cachePriority, worth waiting for. */
  function Kept(s: State, ks: seq<nat>, session: string, now: int): (r: Option<nat>)
    requires Indices(|s.accounts|, ks)
    ensures r.Some? ==> r.value < |s.accounts|
  {
    if session == "" || session !in s.sessions then None
    else
      var id := s.sessions[session];
      var bound := FindId(s.accounts, ks, id);
      if bound.Some? then bound
      else if s.cfg.mode != CachePriority then None
      else
        var original := FindId(s.accounts, Everyone(|s.accounts|), id);
        if original.Some? && WorthWaiting(s.cfg, s.accounts[original.value], now) then original else None
  }

  function SelectSticky(s: State, ks: seq<nat>, session: string, now: int): (Option<nat>, State)
    requires Indices(|s.accounts|, ks) && ks != []
  {
    var kept := Kept(s, ks, session, now);
    if kept.Some? then (kept, s)
    else
      var m := LeastUsed(s.accounts, ks);
      (Some(m), if session == "" then s else s.(sessions := s.sessions[session := s.accounts[m].id]))
  }

  function SelectPerformance(s: State, ks: seq<nat>): (Option<nat>, State)
    requires ks != []
  {
    var i := Mod(s.roundRobin, |ks|);
    (Some(ks[i]), s.(roundRobin := i + 1))
  }

  function Select(s: State, session: string, provider: string, now: int, later: int): (Option<nat>, State) {
    if s.cfg.fixedId != "" then (FixedFrom(s.accounts, s.cfg.fixedId, 0), s)
    else
      var ks := AvailableIn(s, provider, now);
      if ks == [] then (Soonest(s, provider, later, |s.accounts|), s)
      else
        match s.cfg.mode
        case CachePriority => SelectSticky(s, ks, session, now)
        case Balance => SelectSticky(s, ks, session, now)
        case Performance => SelectPerformance(s, ks)
        case OtherMode => (Some(ks[0]), s)
  }

  // ------------------------------------------------------------------
  // Reports on values
  // ------------------------------------------------------------------

  function Succeeded(a: Account, now: int): Account {
    a.(totalRequests := a.totalRequests + 1, lastUsedAt := now, consecutiveFailures := 0, status := Active,
       circuitBreakerLevel := if a.circuitBreakerLevel > 0 then a.circuitBreakerLevel - 1 else 0)
  }

  /** retryAfterMs || 60000. */
  function RetryAfter(ms: int): int {
    if ms == 0 then 60000 else ms
  }

  function Limited(a: Account, retryAfterMs: int, now: int): Account {
    a.(totalRequests := a.totalRequests + 1, totalErrors := a.totalErrors + 1, lastUsedAt := now,
       status := RateLimited, rateLimitResetAt := now + RetryAfter(retryAfterMs))
  }

  function Failed(cfg: Config, a: Account, quota: bool, now: int): Account {
    var b := a.(totalRequests := a.totalRequests + 1, totalErrors := a.totalErrors + 1,
                consecutiveFailures := a.consecutiveFailures + 1, lastUsedAt := now, status := Errored);
    if quota && cfg.breakerOn then
      var level := if a.circuitBreakerLevel + 1 < 4 then a.circuitBreakerLevel + 1 else 4;
      b.(circuitBreakerLevel := level, circuitBreakerUntil := now + cfg.backoff[level - 1] * 1000)
    else b
  }

  function WithAccount(s: State, k: nat, a: Account): State
    requires k < |s.accounts|
  {
    s.(accounts := s.accounts[k := a])
  }

  function Lookup(s: State, id: string): Option<nat> {
    FindId(s.accounts, Everyone(|s.accounts|), id)
  }

  /** Array.filter on the id, over the first `n`. */
  function WithoutUpTo(accounts: seq<Account>, id: string, n: nat): seq<Account>
    requires n <= |accounts|
  {
    if n == 0 then []
    else WithoutUpTo(accounts, id, n - 1) + (if accounts[n - 1].id != id then [accounts[n - 1]] else [])
  }

  function Removed(s: State, id: string): State {
    s.(accounts := WithoutUpTo(s.accounts, id, |s.accounts|), sessions := map x | x in s.sessions && s.sessions[x] != id :: s.sessions[x])
  }

  // ------------------------------------------------------------------
  // The objects
  // ------------------------------------------------------------------

  class ProxyAccount {
    const id: string
    const provider: string
    var status: Status
    var rateLimitResetAt: int
    var circuitBreakerLevel: nat
    var circuitBreakerUntil: int
    var consecutiveFailures: nat
    var totalRequests: nat
    var totalErrors: nat
    var lastUsedAt: int

    ghost function View(): Account
      reads this
    {
      Account(id, provider, status, rateLimitResetAt, circuitBreakerLevel, circuitBreakerUntil,
              consecutiveFailures, totalRequests, totalErrors, lastUsedAt)
    }

    constructor (a: Account)
      ensures View() == a
    {
      id, provider, status := a.id, a.provider, a.status;
      rateLimitResetAt, circuitBreakerLevel, circuitBreakerUntil := a.rateLimitResetAt, a.circuitBreakerLevel, a.circuitBreakerUntil;
      consecutiveFailures, totalRequests, totalErrors := a.consecutiveFailures, a.totalRequests, a.totalErrors;
      lastUsedAt := a.lastUsedAt;
    }

    method Succeed(now: int)
      modifies this
      ensures View() == Succeeded(old(View()), now)
    {
      totalRequests := totalRequests + 1;
      lastUsedAt := now;
      consecutiveFailures := 0;
      status := Active;
      if circuitBreakerLevel > 0 { circuitBreakerLevel := circuitBreakerLevel - 1; }
    }

    method Limit(retryAfterMs: int, now: int)
      modifies this
      ensures View() == Limited(old(View()), retryAfterMs, now)
    {
      totalRequests := totalRequests + 1;
      totalErrors := totalErrors + 1;
      lastUsedAt := now;
      status := RateLimited;
      rateLimitResetAt := now + (if retryAfterMs == 0 then 60000 else retryAfterMs);
    }

    method Fail(cfg: Config, isQuotaExhaustion: bool, now: int)
      modifies this
      ensures View() == Failed(cfg, old(View()), isQuotaExhaustion, now)
    {
      totalRequests := totalRequests + 1;
      totalErrors := totalErrors + 1;
      consecutiveFailures := consecutiveFailures + 1;
      lastUsedAt := now;
      if isQuotaExhaustion && cfg.breakerOn {
        circuitBreakerLevel := if circuitBreakerLevel + 1 < 4 then circuitBreakerLevel + 1 else 4;
        var i := if circuitBreakerLevel - 1 < 3 then circuitBreakerLevel - 1 else 3;
        circuitBreakerUntil := now + cfg.backoff[i] * 1000;
        status := Errored;
      } else {
        status := Errored;
      }
    }
  }

  class Manager {
    var accounts: seq<ProxyAccount>
    var sessions: map<string, string>
    var roundRobinIndex: nat
    var cfg: Config

    ghost predicate Valid()
      reads this
    {
      forall i, j :: 0 <= i < j < |accounts| ==> accounts[i] != accounts[j]
    }

    ghost function Accounts(): (r: seq<Account>)
      reads this, accounts
      ensures |r| == |accounts| && forall i :: 0 <= i < |accounts| ==> r[i] == accounts[i].View()
    {
      seq(|accounts|, i requires 0 <= i < |accounts| reads this, accounts => accounts[i].View())
    }

    ghost function View(): State
      reads this, accounts
    {
      State(Accounts(), sessions, roundRobinIndex, cfg)
    }

    constructor (cfg: Config)
      ensures Valid() && View() == State([], map[], 0, cfg)
    {
      this.cfg := cfg;
      accounts, sessions, roundRobinIndex := [], map[], 0;
    }

    predicate IsCircuitOpen(acc: ProxyAccount, now: int)
      reads this, acc
    {
      cfg.breakerOn && acc.circuitBreakerLevel > 0 && acc.circuitBreakerUntil > now
    }

    /** The filter of selectAccount. */
    method FilterAvailable(provider: string, now: int) returns (available: seq<nat>)
      ensures available == AvailableIn(View(), provider, now)
    {
      available := [];
      for i := 0 to |accounts|
        invariant available == AvailableUpTo(View(), provider, now, i)
      {
        var a := accounts[i];
        var ok := true;
        if a.status == Disabled { ok := false; }
        else if provider != "" && a.provider != provider { ok := false; }
        else if IsCircuitOpen(a, now) { ok := false; }
        else if a.status == RateLimited && a.rateLimitResetAt > now { ok := false; }
        if ok { available := available + [i]; }
      }
    }

    /** Array.find on an id. */
    method Find(ks: seq<nat>, id: string) returns (r: Option<nat>)
      requires Indices(|accounts|, ks)
      ensures r == FindId(Accounts(), ks, id)
    {
      var i := 0;
      while i < |ks|
        invariant 0 <= i <= |ks|
        invariant FindId(Accounts(), ks, id) == FindFrom(Accounts(), ks, id, i)
      {
        if accounts[ks[i]].id == id { return Some(ks[i]); }
        i := i + 1;
      }
      return None;
    }

    method FindLeastUsed(ks: seq<nat>) returns (m: nat)
      requires Indices(|accounts|, ks) && ks != []
      ensures m == LeastUsed(Accounts(), ks)
    {
      m := ks[0];
      for i := 1 to |ks|
        invariant m == LeastUsedUpTo(Accounts(), ks, i)
      {
        if accounts[ks[i]].lastUsedAt < accounts[m].lastUsedAt { m := ks[i]; }
      }
    }

    method FindSoonestAvailable(provider: string, now: int) returns (soonest: Option<nat>)
      ensures soonest == Soonest(View(), provider, now, |accounts|)
    {
      soonest := None;
      var soonestTime := 0;
      for i := 0 to |accounts|
        invariant soonest == Soonest(View(), provider, now, i)
        invariant soonest.Some? ==> soonestTime == ResetTime(cfg, accounts[soonest.value].View(), now)
      {
        var acc := accounts[i];
        if acc.status != Disabled && (provider == "" || acc.provider == provider) {
          var resetTime := 0;
          if IsCircuitOpen(acc, now) {
            resetTime := acc.circuitBreakerUntil;
          } else if acc.status == RateLimited {
            resetTime := acc.rateLimitResetAt;
          }
          if resetTime > 0 && (soonest.None? || resetTime < soonestTime) {
            soonestTime, soonest := resetTime, Some(i);
          }
        }
      }
    }

    method FindFixed() returns (r: Option<nat>)
      ensures r == FixedFrom(Accounts(), cfg.fixedId, 0)
    {
      var i := 0;
      while i < |accounts|
        invariant 0 <= i <= |accounts|
        invariant FixedFrom(Accounts(), cfg.fixedId, 0) == FixedFrom(Accounts(), cfg.fixedId, i)
      {
        var a := accounts[i];
        if a.id == cfg.fixedId && a.status != Disabled { return Some(i); }
        i := i + 1;
      }
      return None;
    }

    /** The account a bound session keeps, if any. */
    method FindKept(available: seq<nat>, session: string, now: int) returns (r: Option<nat>)
      requires Indices(|accounts|, available)
      ensures r == Kept(View(), available, session, now)
    {
      hide FindId;
      if session == "" || session !in sessions { return None; }
      var bound := Find(available, sessions[session]);
      if bound.Some? { return bound; }
      if cfg.mode != CachePriority { return None; }
      var original := Find(Everyone(|accounts|), sessions[session]);
      if original.Some? && accounts[original.value].status == RateLimited {
        var wait := accounts[original.value].rateLimitResetAt - now;
        if wait > 0 && wait <= 1000 * cfg.maxWaitSeconds { return original; }
      }
      return None;
    }

    /** selectCachePriority and selectBalance, which differ in the wait alone. */
    method PickSticky(available: seq<nat>, session: string, now: int) returns (r: Option<nat>)
      requires Valid() && Indices(|accounts|, available) && available != []
      modifies this`sessions
      ensures Valid() && (r, View()) == SelectSticky(old(View()), available, session, now)
    {
      hide Kept, LeastUsed;
      r := FindKept(available, session, now);
      if r.None? {
        var m := FindLeastUsed(available);
        if session != "" { sessions := sessions[session := accounts[m].id]; }
        assert Accounts() == old(Accounts());
        r := Some(m);
      }
    }

    method SelectAccount(session: string, provider: string, now: int, later: int) returns (r: Option<nat>)
      requires Valid()
      modifies this
      ensures Valid() && accounts == old(accounts)
      ensures (r, View()) == Select(old(View()), session, provider, now, later)
    {
      hide SelectSticky, FixedFrom, Soonest, AvailableUpTo;
      if cfg.fixedId != "" {
        r := FindFixed();
        return;
      }
      var available := FilterAvailable(provider, now);
      if |available| == 0 {
        r := FindSoonestAvailable(provider, later);
        return;
      }
      match cfg.mode {
        case CachePriority => r := PickSticky(available, session, now);
        case Balance => r := PickSticky(available, session, now);
        case Performance =>
          roundRobinIndex := Mod(roundRobinIndex, |available|);
          r := Some(available[roundRobinIndex]);
          roundRobinIndex := roundRobinIndex + 1;
          assert Accounts() == old(Accounts());
        case OtherMode => r := Some(available[0]);
      }
    }

    /** Changing one account object changes one entry of the list. */
    twostate lemma OneChanged(k: nat)
      requires old(Valid()) && k < |old(accounts)| && accounts == old(accounts)
      requires sessions == old(sessions) && roundRobinIndex == old(roundRobinIndex) && cfg == old(cfg)
      requires forall i :: 0 <= i < |accounts| && i != k ==> accounts[i].View() == old(accounts[i].View())
      ensures View() == WithAccount(old(View()), k, accounts[k].View())
    {
      assert Accounts() == old(Accounts())[k := accounts[k].View()];
    }

    method ReportSuccess(id: string, now: int)
      requires Valid()
      modifies accounts
      ensures View() == match Lookup(old(View()), id)
                        case None => old(View())
                        case Some(k) => WithAccount(old(View()), k, Succeeded(old(View()).accounts[k], now))
    {
      var k := Find(Everyone(|accounts|), id);
      if k.None? { return; }
      accounts[k.value].Succeed(now);
      OneChanged(k.value);
    }

    method ReportRateLimit(id: string, retryAfterMs: int, now: int)
      requires Valid()
      modifies accounts
      ensures View() == match Lookup(old(View()), id)
                        case None => old(View())
                        case Some(k) => WithAccount(old(View()), k, Limited(old(View()).accounts[k], retryAfterMs, now))
    {
      var k := Find(Everyone(|accounts|), id);
      if k.None? { return; }
      accounts[k.value].Limit(retryAfterMs, now);
      OneChanged(k.value);
    }

    method ReportError(id: string, isQuotaExhaustion: bool, now: int)
      requires Valid()
      modifies accounts
      ensures View() == match Lookup(old(View()), id)
                        case None => old(View())
                        case Some(k) => WithAccount(old(View()), k, Failed(cfg, old(View()).accounts[k], isQuotaExhaustion, now))
    {
      var k := Find(Everyone(|accounts|), id);
      if k.None? { return; }
      accounts[k.value].Fail(cfg, isQuotaExhaustion, now);
      OneChanged(k.value);
    }

    method AddAccount(account: ProxyAccount)
      requires Valid() && account !in accounts
      modifies this`accounts
      ensures Valid() && View() == old(View()).(accounts := old(View()).accounts + [account.View()])
    {
      accounts := accounts + [account];
      assert Accounts() == old(Accounts()) + [account.View()];
    }

    method ClearSessions()
      requires Valid()
      modifies this`sessions
      ensures Valid() && View() == old(View()).(sessions := map[])
    {
      sessions := map[];
    }

    method RemoveAccount(id: string)
      requires Valid()
      modifies this
      ensures Valid() && View() == Removed(old(View()), id)
    {
      hide WithoutUpTo;
      var kept := FilterOut(id);
      accounts := kept;
      assert Accounts() == Views(kept);
      DropSessions(id);
    }

    /** The loop over the bindings, in any order. */
    method DropSessions(id: string)
      modifies this`sessions
      ensures sessions == map x | x in old(sessions) && old(sessions)[x] != id :: old(sessions)[x]
    {
      var keys := sessions.Keys;
      while keys != {}
        invariant keys <= old(sessions).Keys
        invariant forall x :: x in sessions <==> x in old(sessions) && (x in keys || old(sessions)[x] != id)
        invariant forall x :: x in sessions ==> sessions[x] == old(sessions)[x]
        decreases keys
      {
        var sid :| sid in keys;
        if sessions[sid] == id { sessions := sessions - {sid}; }
        keys := keys - {sid};
      }
    }

    method FilterOut(id: string) returns (kept: seq<ProxyAccount>)
      requires Valid()
      ensures forall j, k :: 0 <= j < k < |kept| ==> kept[j] != kept[k]
      ensures Views(kept) == WithoutUpTo(Accounts(), id, |accounts|)
    {
      kept := [];
      for i := 0 to |accounts|
        invariant forall j :: 0 <= j < |kept| ==> kept[j] in accounts[..i]
        invariant forall j, k :: 0 <= j < k < |kept| ==> kept[j] != kept[k]
        invariant Views(kept) == WithoutUpTo(Accounts(), id, i)
      {
        ViewsSnoc(kept, accounts[i]);
        if accounts[i].id != id { kept := kept + [accounts[i]]; }
      }
    }
  }

  lemma ViewsSnoc(objects: seq<ProxyAccount>, a: ProxyAccount)
    ensures Views(objects + [a]) == Views(objects) + [a.View()]
  {}

  ghost function Views(objects: seq<ProxyAccount>): (r: seq<Account>)
    reads objects
    ensures |r| == |objects| && forall i :: 0 <= i < |objects| ==> r[i] == objects[i].View()
  {
    seq(|objects|, i requires 0 <= i < |objects| reads objects => objects[i].View())
  }
}
