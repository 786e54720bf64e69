/**
 Round-robin selection and health debouncing of mango-waf/core/upstream.go, for
 one pool. Probe results are inputs.
 */
module Upstream {
  import opened Modulo
  import opened Wrappers

  class UpstreamBackend {
    const url: string
    var isAlive: bool
    var failures: nat

    constructor (url: string)
      ensures this.url == url && isAlive && failures == 0
    {
      this.url, isAlive, failures := url, true, 0;
    }
  }

  /** One health check of one backend: an unparsable URL is skipped. */
  datatype Probe = BadUrl | NoConnection | Answered(status: int)

  predicate Healthy(p: Probe) {
    p.Answered? && p.status != 500 && p.status != 502 && p.status != 504
  }

  datatype Health = Health(isAlive: bool, failures: nat)

  function AfterProbe(h: Health, p: Probe): Health {
    if p.BadUrl? then h
    else if Healthy(p) then Health(true, 0)
    else Health(h.isAlive && h.failures + 1 < 3, h.failures + 1)
  }

  // ------------------------------------------------------------------
  // Selection, on values
  // ------------------------------------------------------------------

  /** The alive indices in [lo, hi), ascending. */
  function AliveIn(alive: seq<bool>, lo: nat, hi: nat): (r: seq<nat>)
    requires lo <= hi <= |alive|
    ensures forall i :: i in r <==> lo <= i < hi && alive[i]
    ensures forall i, j :: 0 <= i < j < |r| ==> r[i] < r[j]
    decreases hi - lo
  {
    if lo == hi then []
    else
      var later := AliveIn(alive, lo + 1, hi);
      assert forall j :: 0 <= j < |later| ==> later[j] in later;
      if alive[lo] then [lo] + later else later
  }

  /** The alive indices in the order a scan from `cur` meets them. */
  function Cycle(alive: seq<bool>, cur: nat): seq<nat>
    requires cur < |alive|
  {
    AliveIn(alive, cur, |alive|) + AliveIn(alive, 0, cur)
  }

  /** The index picked from `cur`, which is then the one before the new `cur`. */
  function Pick(alive: seq<bool>, cur: nat): Option<nat> {
    if |alive| == 0 || Cycle(alive, Mod(cur, |alive|)) == [] then None
    else Some(Cycle(alive, Mod(cur, |alive|))[0])
  }

  /** The indices returned by `k` successive calls, as long as calls succeed. */
  function Picks(alive: seq<bool>, cur: nat, k: nat): seq<nat>
    decreases k
  {
    if k == 0 then []
    else
      match Pick(alive, cur)
      case None => []
      case Some(i) => [i] + Picks(alive, Mod(i + 1, |alive|), k - 1)
  }

  // ------------------------------------------------------------------
  // The pool
  // ------------------------------------------------------------------

  class UpstreamPool {
    var backends: seq<UpstreamBackend>
    var current: nat

    ghost predicate Valid()
      reads this
    {
      forall i, j :: 0 <= i < j < |backends| ==> backends[i] != backends[j]
    }

    ghost function Alive(): (alive: seq<bool>)
      reads this, backends
      ensures |alive| == |backends|
      ensures forall i :: 0 <= i < |backends| ==> alive[i] == backends[i].isAlive
    {
      seq(|backends|, i requires 0 <= i < |backends| reads this, backends => backends[i].isAlive)
    }

    ghost function HealthOf(i: nat): Health
      requires i < |backends|
      reads this, backends
    {
      Health(backends[i].isAlive, backends[i].failures)
    }

    /** The locked loop of GetNext; None is "no upstream". */
    method GetNext() returns (url: Option<string>)
      modifies this`current
      ensures match Pick(old(Alive()), old(current))
              case None => url == None && current == old(current)
              case Some(i) => i < |backends| && url == Some(backends[i].url) && current == Mod(i + 1, |backends|)
    {
      hide Mod;
      if |backends| == 0 { return None; }
      ghost var alive := Alive();
      var startIdx := current;
      var n := |backends|;
      var i := 0;
      while i < n
        invariant 0 <= i <= n && current == startIdx
        invariant forall k :: 0 <= k < i ==> !alive[At(Mod(startIdx, n), k, n)]
      {
        var idx := Mod(startIdx + i, n);
        Wrap(startIdx, i, n);
        var backend := backends[idx];
        if backend.isAlive {
          FirstAlive(alive, Mod(startIdx, n), i);
          current := Mod(idx + 1, n);
          return Some(backend.url);
        }
        i := i + 1;
      }
      NoneAlive(alive, Mod(startIdx, n));
      assert Pick(alive, startIdx) == None;
      return None;
    }

    /** The loop body of runHealthChecks, once per backend; `probes[i]` is what backend i answered. */
    method RunHealthChecks(probes: seq<Probe>)
      requires Valid() && |probes| == |backends|
      modifies backends
      ensures forall i :: 0 <= i < |backends| ==> HealthOf(i) == AfterProbe(old(HealthOf(i)), probes[i])
    {
      for k := 0 to |backends|
        invariant forall i :: 0 <= i < k ==> HealthOf(i) == AfterProbe(old(HealthOf(i)), probes[i])
        invariant forall i :: k <= i < |backends| ==> HealthOf(i) == old(HealthOf(i))
      {
        Check(backends[k], probes[k]);
      }
    }

    static method Check(backend: UpstreamBackend, probe: Probe)
      modifies backend
      ensures Health(backend.isAlive, backend.failures) == AfterProbe(old(Health(backend.isAlive, backend.failures)), probe)
    {
      if probe.BadUrl? { return; }
      var isAlive := !probe.NoConnection?;
      if probe.Answered? && probe.status >= 500 && probe.status != 503 {
        if probe.status == 500 || probe.status == 502 || probe.status == 504 { isAlive := false; }
      }
      if isAlive {
        backend.isAlive := true;
        backend.failures := 0;
      } else {
        backend.failures := backend.failures + 1;
        if backend.isAlive && backend.failures >= 3 { backend.isAlive := false; }
      }
    }
  }

  // ------------------------------------------------------------------
  // The scan meets the cycle
  // ------------------------------------------------------------------

  /** The k-th index of a scan of n backends from c. */
  ghost function At(c: nat, k: nat, n: nat): (r: nat)
    requires c < n && k < n
    ensures r < n
  {
    if c + k < n then c + k else c + k - n
  }

  lemma {:induction false} Wrap(start: nat, k: nat, n: nat)
    requires 0 < n && k < n
    ensures Mod(start + k, n) == At(Mod(start, n), k, n)
    decreases start
  {
    hide Mod;
    if start >= n {
      Wrap(start - n, k, n);
      ModTurn(start - n, n);
      ModTurn(start - n + k, n);
    } else {
      ModSmall(start, n);
      if start + k >= n {
        ModTurn(start + k - n, n);
        ModSmall(start + k - n, n);
      } else {
        ModSmall(start + k, n);
      }
    }
  }

  lemma {:induction false} AliveSplit(alive: seq<bool>, lo: nat, mid: nat, hi: nat)
    requires lo <= mid <= hi <= |alive|
    ensures AliveIn(alive, lo, hi) == AliveIn(alive, lo, mid) + AliveIn(alive, mid, hi)
    decreases mid - lo
  {
    if lo < mid {
      AliveSplit(alive, lo + 1, mid, hi);
    }
  }

  lemma {:induction false} NoAliveIn(alive: seq<bool>, lo: nat, hi: nat)
    requires lo <= hi <= |alive| && forall i :: lo <= i < hi ==> !alive[i]
    ensures AliveIn(alive, lo, hi) == []
    decreases hi - lo
  {
    if lo < hi {
      NoAliveIn(alive, lo + 1, hi);
    }
  }

  /** The first alive backend met by the scan is the one picked. */
  lemma FirstAlive(alive: seq<bool>, c: nat, i: nat)
    requires c < |alive| && i < |alive| && alive[At(c, i, |alive|)]
    requires forall k :: 0 <= k < i ==> !alive[At(c, k, |alive|)]
    ensures Cycle(alive, c) != [] && Cycle(alive, c)[0] == At(c, i, |alive|)
  {
    var n, idx := |alive|, At(c, i, |alive|);
    if c + i < n {
      forall j | c <= j < idx ensures !alive[j] {
        assert At(c, j - c, n) == j;
      }
      NoAliveIn(alive, c, idx);
      AliveSplit(alive, c, idx, n);
    } else {
      forall j | c <= j < n ensures !alive[j] {
        assert At(c, j - c, n) == j;
      }
      forall j | 0 <= j < idx ensures !alive[j] {
        assert At(c, j + n - c, n) == j;
      }
      NoAliveIn(alive, c, n);
      NoAliveIn(alive, 0, idx);
      AliveSplit(alive, 0, idx, c);
    }
  }

  lemma NoneAlive(alive: seq<bool>, c: nat)
    requires c < |alive| && forall k :: 0 <= k < |alive| ==> !alive[At(c, k, |alive|)]
    ensures Cycle(alive, c) == []
  {
    var n := |alive|;
    forall j | 0 <= j < n ensures !alive[j] {
      assert At(c, if j >= c then j - c else j + n - c, n) == j;
    }
    NoAliveIn(alive, c, n);
    NoAliveIn(alive, 0, c);
  }

  /** GetNext fails exactly when nothing is alive. */
  lemma FailsIffAllDead(alive: seq<bool>, cur: nat)
    ensures Pick(alive, cur) == None <==> forall i :: 0 <= i < |alive| ==> !alive[i]
  {
    if |alive| > 0 {
      var c := Mod(cur, |alive|);
      if Cycle(alive, c) == [] {
        forall i | 0 <= i < |alive| ensures !alive[i] {
          assert i !in AliveIn(alive, c, |alive|) && i !in AliveIn(alive, 0, c);
        }
      } else {
        assert Cycle(alive, c)[0] in AliveIn(alive, c, |alive|) + AliveIn(alive, 0, c);
      }
    }
  }

  /** How far ahead of c index i lies, wrapping around. */
  function Ahead(c: nat, i: nat, n: nat): int
    requires c < n && i < n
  {
    if i >= c then i - c else i + n - c
  }

  /** The index picked is the alive one least far ahead of the current one. */
  lemma PickExact(alive: seq<bool>, cur: nat, i: nat)
    requires |alive| > 0
    ensures Pick(alive, cur) == Some(i) <==>
            && i < |alive| && alive[i]
            && forall j: nat :: j < |alive| && alive[j] ==>
                 Ahead(Mod(cur, |alive|), i, |alive|) <= Ahead(Mod(cur, |alive|), j, |alive|)
  {
    var n, c := |alive|, Mod(cur, |alive|);
    hide Mod, AliveIn;
    if AliveIn(alive, c, n) != [] {
      FirstIn(alive, c, n);
      assert Pick(alive, cur) == Some(AliveIn(alive, c, n)[0]);
    } else if AliveIn(alive, 0, c) != [] {
      FirstIn(alive, 0, c);
      assert Pick(alive, cur) == Some(AliveIn(alive, 0, c)[0]);
      EmptyMeansDead(alive, c, n);
    } else {
      EmptyMeansDead(alive, c, n);
      EmptyMeansDead(alive, 0, c);
    }
  }

  lemma EmptyMeansDead(alive: seq<bool>, lo: nat, hi: nat)
    requires lo <= hi <= |alive| && AliveIn(alive, lo, hi) == []
    ensures forall j :: lo <= j < hi ==> !alive[j]
  {
    forall j | lo <= j < hi ensures !alive[j] {
      assert j !in AliveIn(alive, lo, hi);
    }
  }

  // ------------------------------------------------------------------
  // Fairness
  // ------------------------------------------------------------------

  /** The cycle lists every alive index exactly once. */
  lemma CycleIsEveryAlive(alive: seq<bool>, cur: nat)
    requires cur < |alive|
    ensures forall i :: i in Cycle(alive, cur) <==> 0 <= i < |alive| && alive[i]
    ensures forall i, j :: 0 <= i < j < |Cycle(alive, cur)| ==> Cycle(alive, cur)[i] != Cycle(alive, cur)[j]
  {
    var a, b := AliveIn(alive, cur, |alive|), AliveIn(alive, 0, cur);
    forall i, j | 0 <= i < |a| && 0 <= j < |b| ensures a[i] != b[j] {
      assert a[i] in a && b[j] in b;
    }
  }

  /** After a pick the cycle has turned by one. */
  lemma CycleTurns(alive: seq<bool>, cur: nat)
    requires cur < |alive| && Cycle(alive, cur) != []
    ensures var c := Cycle(alive, cur);
            c[0] < |alive| && Cycle(alive, Mod(c[0] + 1, |alive|)) == c[1..] + [c[0]]
  {
    if AliveIn(alive, cur, |alive|) != [] {
      TurnsAhead(alive, cur);
    } else {
      TurnsBehind(alive, cur);
    }
  }

  lemma TurnsAhead(alive: seq<bool>, cur: nat)
    requires cur < |alive| && AliveIn(alive, cur, |alive|) != []
    ensures var c := Cycle(alive, cur);
            c[0] < |alive| && Cycle(alive, Mod(c[0] + 1, |alive|)) == c[1..] + [c[0]]
  {
    hide Mod, AliveIn;
    var n := |alive|;
    FirstIn(alive, cur, n);
    var i := AliveIn(alive, cur, n)[0];
    TurnedUpTo(alive, cur, i);
    Turned(AliveIn(alive, i + 1, n), AliveIn(alive, 0, cur), i);
    NextIndex(i, n);
    if i + 1 == n {
      NoAliveIn(alive, 0, 0);
      NoAliveIn(alive, n, n);
      assert Cycle(alive, 0) == AliveIn(alive, 0, n);
    }
  }

  lemma TurnsBehind(alive: seq<bool>, cur: nat)
    requires cur < |alive| && AliveIn(alive, cur, |alive|) == [] && AliveIn(alive, 0, cur) != []
    ensures var c := Cycle(alive, cur);
            c[0] < |alive| && Cycle(alive, Mod(c[0] + 1, |alive|)) == c[1..] + [c[0]]
  {
    hide Mod, AliveIn, Cycle;
    var c := AliveIn(alive, 0, cur);
    OnlyBehind(alive, cur);
    FirstIn(alive, 0, cur);
    NextIndex(c[0], |alive|);
    PastBehind(alive, cur, c[0]);
    assert c[1..] == AliveIn(alive, c[0] + 1, cur);
  }

  lemma OnlyBehind(alive: seq<bool>, cur: nat)
    requires cur < |alive| && AliveIn(alive, cur, |alive|) == []
    ensures Cycle(alive, cur) == AliveIn(alive, 0, cur)
  {
    hide AliveIn;
  }

  lemma PastBehind(alive: seq<bool>, cur: nat, i: nat)
    requires i < cur < |alive| && alive[i] && AliveIn(alive, cur, |alive|) == [] && AliveIn(alive, 0, i) == []
    ensures Cycle(alive, i + 1) == AliveIn(alive, i + 1, cur) + [i]
  {
    hide AliveIn;
    AliveSplit(alive, i + 1, cur, |alive|);
    AliveSplit(alive, 0, i, i + 1);
    Single(alive, i);
  }

  lemma Single(alive: seq<bool>, i: nat)
    requires i < |alive| && alive[i]
    ensures AliveIn(alive, i, i + 1) == [i]
  {}

  lemma TurnedUpTo(alive: seq<bool>, cur: nat, i: nat)
    requires cur <= i < |alive| && alive[i] && AliveIn(alive, cur, i) == []
    ensures AliveIn(alive, 0, i + 1) == AliveIn(alive, 0, cur) + [i]
  {
    AliveSplit(alive, 0, i, i + 1);
    AliveSplit(alive, 0, cur, i);
  }

  /** The front of a cycle moved to its back. */
  lemma Turned(a: seq<nat>, b: seq<nat>, i: nat)
    ensures (([i] + a) + b)[0] == i && (([i] + a) + b)[1..] + [i] == a + (b + [i])
  {}

  /** The first alive index of a range: nothing alive before it, the rest after it. */
  lemma {:induction false} FirstIn(alive: seq<bool>, lo: nat, hi: nat)
    requires lo <= hi <= |alive| && AliveIn(alive, lo, hi) != []
    ensures var i := AliveIn(alive, lo, hi)[0];
            && lo <= i < hi && alive[i]
            && AliveIn(alive, lo, i) == []
            && AliveIn(alive, lo, hi) == [i] + AliveIn(alive, i + 1, hi)
            && forall j :: lo <= j < i ==> !alive[j]
    decreases hi - lo
  {
    if !alive[lo] {
      FirstIn(alive, lo + 1, hi);
    }
  }

  /** Up to one round of successive calls walks along the starting cycle. */
  lemma {:induction false} PicksFollowCycle(alive: seq<bool>, cur: nat, k: nat)
    requires |alive| > 0 && k <= |Cycle(alive, Mod(cur, |alive|))|
    ensures Picks(alive, cur, k) == Cycle(alive, Mod(cur, |alive|))[..k]
    decreases k
  {
    hide Mod;
    if k > 0 {
      var c := Cycle(alive, Mod(cur, |alive|));
      CycleTurns(alive, Mod(cur, |alive|));
      var next := Mod(c[0] + 1, |alive|);
      ModSmall(next, |alive|);
      PicksFollowCycle(alive, next, k - 1);
      assert c[..k] == [c[0]] + (c[1..] + [c[0]])[..k - 1];
    }
  }

  /** While liveness does not change, any m consecutive calls on a pool with m
      alive backends return each of them exactly once, wherever the index stands. */
  lemma EachAliveOnce(alive: seq<bool>, cur: nat)
    requires exists i :: 0 <= i < |alive| && alive[i]
    ensures var m := |AliveIn(alive, 0, |alive|)|;
            var picks := Picks(alive, cur, m);
            && |picks| == m
            && (forall i :: i in picks <==> 0 <= i < |alive| && alive[i])
            && (forall i, j :: 0 <= i < j < m ==> picks[i] != picks[j])
  {
    hide *;
    CycleIsEveryAlive(alive, Mod(cur, |alive|));
    RoundIsCycle(alive, cur);
  }

  lemma RoundIsCycle(alive: seq<bool>, cur: nat)
    requires |alive| > 0
    ensures var c := Cycle(alive, Mod(cur, |alive|));
            |c| == |AliveIn(alive, 0, |alive|)| && Picks(alive, cur, |c|) == c
  {
    hide Mod, Picks, AliveIn;
    var s := Mod(cur, |alive|);
    var c := Cycle(alive, s);
    AliveSplit(alive, 0, s, |alive|);
    PicksFollowCycle(alive, cur, |c|);
    assert c[..|c|] == c;
  }

  // ------------------------------------------------------------------
  // Health debouncing
  // ------------------------------------------------------------------

  function AfterProbes(ps: seq<Probe>): Health {
    if ps == [] then Health(true, 0) else AfterProbe(AfterProbes(ps[..|ps| - 1]), ps[|ps| - 1])
  }

  /** No connection, or a status that counts as down: 503 and the other 5xx do not. */
  predicate Fails(p: Probe) {
    p.NoConnection? || (p.Answered? && (p.status == 500 || p.status == 502 || p.status == 504))
  }

  /** Failed probes since the last healthy one, skipped probes aside. */
  function FailingRun(ps: seq<Probe>): nat {
    if ps == [] then 0
    else
      var p, before := ps[|ps| - 1], FailingRun(ps[..|ps| - 1]);
      if p.BadUrl? then before else if Fails(p) then before + 1 else 0
  }

  /** A backend is alive exactly while its current run of failed probes is shorter than three. */
  lemma {:induction false} AliveIffShortRun(ps: seq<Probe>)
    ensures AfterProbes(ps) == Health(FailingRun(ps) < 3, FailingRun(ps))
    decreases |ps|
  {
    if ps != [] {
      AliveIffShortRun(ps[..|ps| - 1]);
    }
  }
}
