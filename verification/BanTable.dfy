/**
 The ban table of mango-waf/core/pipeline.go against a log of the calls made on
 it. Times and durations are nanoseconds; each call is one atomic step and reads
 the clock once.
 */
module BanTable {
  import opened Wrappers

  datatype Table = Table(banned: map<string, int>, bannedIPs: int)

  const FRESH: Table := Table(map[], 0)

  datatype Op = IsBanned(ip: string) | Ban(ip: string, duration: int) | Cleanup

  datatype Event = Event(op: Op, at: int)

  function Expired(t: Table, now: int): set<string> {
    set ip | ip in t.banned && now > t.banned[ip]
  }

  predicate Banned(t: Table, ip: string, now: int) {
    ip in t.banned && now <= t.banned[ip]
  }

  function Banning(t: Table, ip: string, duration: int, now: int): Table {
    Table(t.banned[ip := now + duration], if ip in t.banned then t.bannedIPs else t.bannedIPs + 1)
  }

  function Step(t: Table, e: Event): Table {
    match e.op
    case IsBanned(ip) => if ip in Expired(t, e.at) then t.(banned := t.banned - {ip}) else t
    case Ban(ip, duration) => Banning(t, ip, duration, e.at)
    case Cleanup => Table(t.banned - Expired(t, e.at), t.bannedIPs - |Expired(t, e.at)|)
  }

  class Pipeline {
    var banned: map<string, int>
    var bannedIPs: int

    ghost function View(): Table
      reads this
    {
      Table(banned, bannedIPs)
    }

    constructor ()
      ensures View() == FRESH
    {
      banned, bannedIPs := map[], 0;
    }

    method IsBanned(ip: string, now: int) returns (r: bool)
      modifies this
      ensures r == Banned(old(View()), ip, now)
      ensures View() == Step(old(View()), Event(Op.IsBanned(ip), now))
    {
      if ip !in banned { return false; }
      var expiry := banned[ip];
      if now > expiry {
        banned := banned - {ip};
        return false;
      }
      return true;
    }

    /** LoadOrStore, then count or overwrite. */
    method BanIP(ip: string, duration: int, now: int)
      modifies this
      ensures View() == Banning(old(View()), ip, duration, now)
    {
      if ip !in banned {
        banned := banned[ip := now + duration];
        bannedIPs := bannedIPs + 1;
      } else {
        banned := banned[ip := now + duration];
      }
    }

    /** The Range over `banned`, in any order. */
    method CleanupBans(now: int)
      modifies this
      ensures View() == Step(old(View()), Event(Cleanup, now))
    {
      var keys := banned.Keys;
      ghost var gone: set<string> := {};
      while keys != {}
        invariant keys <= old(banned).Keys
        invariant gone == (set ip | ip in old(banned) && ip !in keys && now > old(banned)[ip])
        invariant banned == old(banned) - gone
        invariant bannedIPs == old(bannedIPs) - |gone|
        decreases keys
      {
        var ip :| ip in keys;
        keys := keys - {ip};
        if now > banned[ip] {
          banned := banned - {ip};
          bannedIPs := bannedIPs - 1;
          gone := gone + {ip};
        }
      }
      assert gone == Expired(old(View()), now);
    }
  }

  // ------------------------------------------------------------------
  // The log
  // ------------------------------------------------------------------

  function After(evs: seq<Event>): Table {
    if evs == [] then FRESH else Step(After(evs[..|evs| - 1]), evs[|evs| - 1])
  }

  /** The expiry set by the last ban of an address. */
  function LastBan(evs: seq<Event>, ip: string): Option<int> {
    if evs == [] then None
    else
      var e := evs[|evs| - 1];
      if e.op.Ban? && e.op.ip == ip then Some(e.at + e.op.duration) else LastBan(evs[..|evs| - 1], ip)
  }

  /** How many times isBanned itself dropped an expired entry. */
  function LazyDeletions(evs: seq<Event>): nat {
    if evs == [] then 0
    else
      var e, before := evs[|evs| - 1], evs[..|evs| - 1];
      LazyDeletions(before) + (if e.op.IsBanned? && e.op.ip in Expired(After(before), e.at) then 1 else 0)
  }

  ghost predicate InOrder(evs: seq<Event>) {
    forall i, j :: 0 <= i < j < |evs| ==> evs[i].at <= evs[j].at
  }

  /** An entry is the last ban; a missing entry means the last ban, if any, is over. */
  ghost predicate Refines(t: Table, evs: seq<Event>, ip: string) {
    if ip in t.banned then LastBan(evs, ip) == Some(t.banned[ip])
    else LastBan(evs, ip).Some? ==> LastBan(evs, ip).value < evs[|evs| - 1].at
  }

  lemma {:induction false} TableRefinesLog(evs: seq<Event>, ip: string)
    requires InOrder(evs)
    ensures Refines(After(evs), evs, ip)
    decreases |evs|
  {
    if evs != [] {
      var n := |evs| - 1;
      assert forall i :: 0 <= i < n ==> evs[..n][i] == evs[i];
      TableRefinesLog(evs[..n], ip);
      assert n > 0 ==> evs[n - 1].at <= evs[n].at;
      assert evs[..n] == [] ==> LastBan(evs[..n], ip) == None;
    }
  }

  /** At any time not before the last call, isBanned answers what the log says,
      whatever lazy deletions and cleanups ran in between. */
  lemma BannedIffLogged(evs: seq<Event>, ip: string, now: int)
    requires InOrder(evs) && (evs != [] ==> evs[|evs| - 1].at <= now)
    ensures Banned(After(evs), ip, now) <==> LastBan(evs, ip).Some? && now <= LastBan(evs, ip).value
  {
    TableRefinesLog(evs, ip);
  }

  /** After a cleanup every entry left is unexpired, and every unexpired entry is left. */
  lemma CleanupExact(evs: seq<Event>, now: int)
    ensures var t, after := After(evs), After(evs + [Event(Cleanup, now)]);
            && (forall ip :: ip in after.banned <==> ip in t.banned && now <= t.banned[ip])
            && (forall ip :: ip in after.banned ==> after.banned[ip] == t.banned[ip])
  {
    assert (evs + [Event(Cleanup, now)])[..|evs|] == evs;
  }

  /** The counter is the size of the table plus the lazy deletions, which nothing
      subtracts: it is the size exactly when isBanned never met an expired entry. */
  lemma {:induction false} CounterDrift(evs: seq<Event>)
    ensures After(evs).bannedIPs == |After(evs).banned| + LazyDeletions(evs)
    decreases |evs|
  {
    if evs != [] {
      var n := |evs| - 1;
      var t, e := After(evs[..n]), evs[n];
      CounterDrift(evs[..n]);
      match e.op
      case IsBanned(ip) =>
        if ip in Expired(t, e.at) { SizeAfterRemoval(t.banned, {ip}); }
      case Ban(ip, duration) =>
        assert t.banned[ip := e.at + duration].Keys == t.banned.Keys + {ip};
      case Cleanup => SizeAfterRemoval(t.banned, Expired(t, e.at));
    }
  }

  /** A ban looked up after it ended leaves an empty table that counts one address. */
  lemma DriftExample(ip: string)
    ensures After([Event(Ban(ip, 0), 0), Event(IsBanned(ip), 1)]) == Table(map[], 1)
  {
    var evs := [Event(Ban(ip, 0), 0), Event(IsBanned(ip), 1)];
    assert evs[..1] == [evs[0]] && evs[..1][..0] == [];
    assert After(evs[..1]) == Table(map[ip := 0], 1);
  }

  lemma SizeAfterRemoval(m: map<string, int>, gone: set<string>)
    requires gone <= m.Keys
    ensures |m - gone| == |m| - |gone|
  {
    assert (m - gone).Keys == m.Keys - gone;
  }
}
