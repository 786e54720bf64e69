/**
 The TTL and LRU cache of proxvn-tunnel/src/backend/internal/cache/cache.go.
 Items are reachable only through the map, so they are values in it. Each call
 takes the clock once; each locked region is one atomic call.
 */
module LruCache {
  import opened Wrappers

  /** The cache never looks inside a value. */
  type Value = string

  datatype Item = Item(value: Value, expiry: int, accessTime: int, hits: nat)

  type Items = map<string, Item>

  // ------------------------------------------------------------------
  // Steps on values. Map iteration order is arbitrary, so which of several
  // equally old items is evicted is not determined: eviction is a relation.
  // ------------------------------------------------------------------

  ghost predicate Oldest(items: Items, k: string) {
    k in items && forall j :: j in items ==> items[k].accessTime <= items[j].accessTime
  }

  /** What evictLRU may do: drop an oldest item, unless its key is "". */
  ghost predicate Evicted(before: Items, after: Items) {
    if before == map[] then after == before
    else exists k :: Oldest(before, k) && after == (if k != "" then before - {k} else before)
  }

  /** What Set does first: evict when at capacity, even to overwrite a key. */
  ghost predicate Room(before: Items, room: Items, maxSize: int) {
    if |before| >= maxSize then Evicted(before, room) else room == before
  }

  predicate Live(item: Item, now: int) {
    now <= item.expiry
  }

  datatype Op =
    | Get(key: string)
    | Set(key: string, value: Value)
    | Delete(key: string)
    | Clear
    | CleanupTick

  function Lookup(items: Items, key: string, now: int): Option<Value> {
    if key in items && Live(items[key], now) then Some(items[key].value) else None
  }

  function Touched(items: Items, key: string, now: int): Items {
    if key in items && Live(items[key], now) then
      items[key := items[key].(accessTime := now, hits := items[key].hits + 1)]
    else items
  }

  function Unexpired(items: Items, now: int): Items {
    map k | k in items && Live(items[k], now) :: items[k]
  }

  ghost predicate Stepped(before: Items, op: Op, now: int, maxSize: int, ttl: int, after: Items) {
    match op
    case Get(key) => after == Touched(before, key, now)
    case Set(key, value) =>
      exists room :: Room(before, room, maxSize) && after == room[key := Item(value, now + ttl, now, 0)]
    case Delete(key) => after == before - {key}
    case Clear => after == map[]
    case CleanupTick => after == Unexpired(before, now)
  }

  // ------------------------------------------------------------------
  // The object
  // ------------------------------------------------------------------

  class Cache {
    var items: Items
    const maxSize: int
    const ttl: int

    constructor (maxSize: int, ttl: int)
      ensures items == map[] && this.maxSize == maxSize && this.ttl == ttl
    {
      items := map[];
      this.maxSize, this.ttl := maxSize, ttl;
    }

    method Get(key: string, now: int) returns (r: Option<Value>)
      modifies this
      ensures Stepped(old(items), Op.Get(key), now, maxSize, ttl, items)
      ensures r == Lookup(old(items), key, now)
    {
      if key !in items { return None; }
      var item := items[key];
      if now > item.expiry { return None; }
      items := items[key := item.(accessTime := now, hits := item.hits + 1)];
      return Some(item.value);
    }

    method Set(key: string, value: Value, now: int)
      modifies this
      ensures Stepped(old(items), Op.Set(key, value), now, maxSize, ttl, items)
    {
      if |items| >= maxSize { EvictLRU(); }
      assert Room(old(items), items, maxSize);
      items := items[key := Item(value, now + ttl, now, 0)];
    }

    method Delete(key: string)
      modifies this
      ensures forall now :: Stepped(old(items), Op.Delete(key), now, maxSize, ttl, items)
    {
      items := items - {key};
    }

    method Clear()
      modifies this
      ensures forall now :: Stepped(old(items), Op.Clear, now, maxSize, ttl, items)
    {
      items := map[];
    }

    method EvictLRU()
      modifies this
      ensures Evicted(old(items), items)
    {
      var oldestKey, oldestTime, first := "", 0, true;
      var keys := items.Keys;
      while keys != {}
        invariant keys <= items.Keys && items == old(items)
        invariant first ==> keys == items.Keys && oldestKey == ""
        invariant !first ==> oldestKey in items && items[oldestKey].accessTime == oldestTime
        invariant !first ==> forall j :: j in items && j !in keys ==> oldestTime <= items[j].accessTime
        decreases keys
      {
        var key :| key in keys;
        if first || items[key].accessTime < oldestTime {
          oldestKey, oldestTime, first := key, items[key].accessTime, false;
        }
        keys := keys - {key};
      }
      assert !first ==> Oldest(items, oldestKey);
      if oldestKey != "" { items := items - {oldestKey}; }
    }

    /** One tick of the cleanup goroutine. */
    method Cleanup(now: int)
      modifies this
      ensures Stepped(old(items), CleanupTick, now, maxSize, ttl, items)
    {
      var keys := items.Keys;
      while keys != {}
        invariant keys <= old(items).Keys
        invariant forall k :: k in items <==> k in old(items) && (k in keys || Live(old(items)[k], now))
        invariant forall k :: k in items ==> items[k] == old(items)[k]
        decreases keys
      {
        var key :| key in keys;
        if key in items && now > items[key].expiry { items := items - {key}; }
        keys := keys - {key};
      }
      assert items == Unexpired(old(items), now);
    }
  }

  // ------------------------------------------------------------------
  // Runs
  // ------------------------------------------------------------------

  /** One call: what was asked, when, and the items after it. */
  datatype Event = Event(op: Op, at: int, after: Items)

  function ItemsAfter(evs: seq<Event>): Items {
    if evs == [] then map[] else evs[|evs| - 1].after
  }

  /** A run from an empty cache with a strictly increasing clock. */
  ghost predicate IsRun(evs: seq<Event>, maxSize: int, ttl: int) {
    evs == [] ||
    (var n := |evs| - 1;
     && IsRun(evs[..n], maxSize, ttl)
     && (n > 0 ==> evs[n - 1].at < evs[n].at)
     && Stepped(ItemsAfter(evs[..n]), evs[n].op, evs[n].at, maxSize, ttl, evs[n].after))
  }

  /** The last Set of a key not undone by Delete or Clear: its value and its time. */
  function LastSet(evs: seq<Event>, key: string): Option<(Value, int)> {
    if evs == [] then None
    else
      var e, before := evs[|evs| - 1], LastSet(evs[..|evs| - 1], key);
      match e.op
      case Set(k, v) => if k == key then Some((v, e.at)) else before
      case Delete(k) => if k == key then None else before
      case Clear => None
      case _ => before
  }

  /** The key the last event touched: by Set, or by a Get that hit. */
  function TouchOf(evs: seq<Event>): Option<string>
    requires evs != []
  {
    var e, items := evs[|evs| - 1], ItemsAfter(evs[..|evs| - 1]);
    match e.op
    case Set(key, _) => Some(key)
    case Get(key) => if key in items && Live(items[key], e.at) then Some(key) else None
    case _ => None
  }

  /** When a key was last touched. */
  function LastTouch(evs: seq<Event>, key: string): Option<int> {
    if evs == [] then None
    else if TouchOf(evs) == Some(key) then Some(evs[|evs| - 1].at)
    else LastTouch(evs[..|evs| - 1], key)
  }

  /** How often a key was hit since it was last Set. */
  function HitCount(evs: seq<Event>, key: string): nat {
    if evs == [] then 0
    else
      var e, before := evs[|evs| - 1], HitCount(evs[..|evs| - 1], key);
      if e.op.Set? && e.op.key == key then 0
      else if e.op.Get? && TouchOf(evs) == Some(key) then before + 1
      else before
  }

  /** The keys touched by the events from index `i` on. */
  function TouchedFrom(evs: seq<Event>, i: nat): set<string> {
    if |evs| <= i then {}
    else
      TouchedFrom(evs[..|evs| - 1], i)
      + (match TouchOf(evs) case Some(k) => {k} case None => {})
  }

  /** The keys touched more recently than `key`. */
  ghost function Newer(evs: seq<Event>, key: string): set<string> {
    set j | j in TouchedFrom(evs, 0) && LastTouch(evs, j).Some? && LastTouch(evs, key).Some?
            && LastTouch(evs, j).value > LastTouch(evs, key).value
  }

  /** Every item is the last Set of its key, stamped with its last touch and its hits since. */
  ghost predicate Faithful(evs: seq<Event>, ttl: int) {
    forall k :: k in ItemsAfter(evs) ==> Tracked(evs, k, ttl)
  }

  ghost predicate Tracked(evs: seq<Event>, k: string, ttl: int)
    requires k in ItemsAfter(evs)
  {
    var item := ItemsAfter(evs)[k];
    && LastSet(evs, k) == Some((item.value, item.expiry - ttl))
    && LastTouch(evs, k) == Some(item.accessTime)
    && item.accessTime <= evs[|evs| - 1].at
    && item.hits == HitCount(evs, k)
  }

  lemma StepTracked(evs: seq<Event>, k: string, maxSize: int, ttl: int)
    requires evs != [] && IsRun(evs, maxSize, ttl) && k in ItemsAfter(evs)
    requires var before := evs[..|evs| - 1];
             k in ItemsAfter(before) ==> Tracked(before, k, ttl)
    ensures Tracked(evs, k, ttl)
  {
    var n := |evs| - 1;
    var before, e := evs[..n], evs[n];
    assert n > 0 ==> before[n - 1].at < e.at;
    StepOrigin(ItemsAfter(before), e, k, maxSize, ttl);
    hide IsRun, Stepped;
    assert LastSet(evs, k) == Some((e.after[k].value, e.after[k].expiry - ttl));
  }

  /** Where an item comes from: the Set of this event, or the item before it,
      touched if this event is a Get of its key. */
  lemma StepOrigin(before: Items, e: Event, k: string, maxSize: int, ttl: int)
    requires Stepped(before, e.op, e.at, maxSize, ttl, e.after) && k in e.after
    ensures if e.op.Set? && e.op.key == k then e.after[k] == Item(e.op.value, e.at + ttl, e.at, 0)
            else
              && k in before && !e.op.Clear? && e.op != Delete(k)
              && e.after[k] == if e.op == Get(k) then Touched(before, k, e.at)[k] else before[k]
  {}

  /** What the cache holds is always the last value Set, stamped with its last touch. */
  lemma {:induction false} RunFaithful(evs: seq<Event>, maxSize: int, ttl: int)
    requires IsRun(evs, maxSize, ttl)
    ensures Faithful(evs, ttl)
    decreases |evs|
  {
    if evs != [] {
      var n := |evs| - 1;
      var before := ItemsAfter(evs[..n]);
      RunFaithful(evs[..n], maxSize, ttl);
      assert n > 0 ==> evs[..n][n - 1] == evs[n - 1];
      forall k | k in evs[n].after ensures Tracked(evs, k, ttl) {
        if k in before { assert Tracked(evs[..n], k, ttl); }
        StepTracked(evs, k, maxSize, ttl);
      }
    }
  }

  // ------------------------------------------------------------------
  // What a caller can rely on
  // ------------------------------------------------------------------

  /** A Get never changes which keys are held, expired or not; a cleanup keeps exactly
      the items unexpired at its time, unchanged. */
  lemma KeptExactly(items: Items, key: string, now: int)
    ensures Touched(items, key, now).Keys == items.Keys
    ensures forall k :: k in Unexpired(items, now) <==> k in items && now <= items[k].expiry
    ensures forall k :: k in Unexpired(items, now) ==> Unexpired(items, now)[k] == items[k]
  {}

  /** A hit returns the last value Set for the key, and not after its lifetime. */
  lemma HitIsLastSet(evs: seq<Event>, key: string, now: int, maxSize: int, ttl: int)
    requires IsRun(evs, maxSize, ttl)
    ensures var r := Lookup(ItemsAfter(evs), key, now);
            r.Some? ==> LastSet(evs, key).Some? && LastSet(evs, key).value.0 == r.value
                        && now <= LastSet(evs, key).value.1 + ttl
  {
    RunFaithful(evs, maxSize, ttl);
    if key in ItemsAfter(evs) { assert Tracked(evs, key, ttl); }
  }

  ghost predicate NamedKeys(evs: seq<Event>) {
    forall e :: e in evs && e.op.Set? ==> e.op.key != ""
  }

  lemma SubsetSmaller(a: Items, b: Items)
    requires a.Keys <= b.Keys
    ensures |a| <= |b|
  {
    if a.Keys == b.Keys {
    } else {
      var k :| k in b && k !in a;
      var rest := b - {k};
      assert rest.Keys == b.Keys - {k};
      SubsetSmaller(a, rest);
    }
  }

  /** Keys held were Set; with no key "", the cache never holds more than maxSize items. */
  lemma {:induction false} SizeBounded(evs: seq<Event>, maxSize: int, ttl: int)
    requires IsRun(evs, maxSize, ttl) && NamedKeys(evs) && maxSize >= 1
    ensures |ItemsAfter(evs)| <= maxSize && "" !in ItemsAfter(evs)
    decreases |evs|
  {
    if evs != [] {
      var n := |evs| - 1;
      var before, e := ItemsAfter(evs[..n]), evs[n];
      assert forall d :: d in evs[..n] ==> d in evs;
      SizeBounded(evs[..n], maxSize, ttl);
      assert e in evs;
      match e.op
      case Get(key) => assert e.after.Keys == before.Keys;
      case Set(key, value) =>
        var room :| Room(before, room, maxSize) && e.after == room[key := Item(value, e.at + ttl, e.at, 0)];
        RoomMade(before, room, maxSize);
        assert e.after.Keys == room.Keys + {key};
      case Delete(key) => SubsetSmaller(e.after, before);
      case Clear =>
      case CleanupTick => SubsetSmaller(e.after, before);
    }
  }

  lemma RoomMade(before: Items, room: Items, maxSize: int)
    requires Room(before, room, maxSize)
    requires |before| <= maxSize && maxSize >= 1 && "" !in before
    ensures |room| < maxSize && "" !in room
  {
    if |before| >= maxSize {
      var k :| Oldest(before, k) && room == (if k != "" then before - {k} else before);
      assert room.Keys == before.Keys - {k};
    }
  }

  ghost predicate DistinctTimes(items: Items) {
    forall j, k :: j in items && k in items && j != k ==> items[j].accessTime != items[k].accessTime
  }

  /** What one Set does to the size: the cache grows exactly when the key is new
      and nothing is evicted, for want of need or because "" is the oldest key. */
  lemma SetGrows(before: Items, key: string, v: Value, now: int, maxSize: int, ttl: int, after: Items)
    requires Stepped(before, Set(key, v), now, maxSize, ttl, after) && DistinctTimes(before)
    ensures |after| <= |before| + 1
    ensures |after| > |before| <==> key !in before && (|before| < maxSize || before == map[] || Oldest(before, ""))
    ensures maxSize >= 1 && |before| <= maxSize ==>
              (|after| > maxSize <==> |before| == maxSize && key !in before && Oldest(before, ""))
  {
    var room :| Room(before, room, maxSize) && after == room[key := Item(v, now + ttl, now, 0)];
    assert after.Keys == room.Keys + {key};
    if |before| >= maxSize && before != map[] {
      var k :| Oldest(before, k) && room == (if k != "" then before - {k} else before);
      assert k != "" ==> room.Keys == before.Keys - {k};
      assert Oldest(before, "") ==> k == "";
    }
  }

  lemma OthersShrink(before: Items, op: Op, now: int, maxSize: int, ttl: int, after: Items)
    requires Stepped(before, op, now, maxSize, ttl, after) && !op.Set?
    ensures |after| <= |before|
  {
    SubsetSmaller(after, before);
  }

  /** The Set at index n of a run meets a full cache, a new key, and "" as its oldest key. */
  ghost predicate Overflows(evs: seq<Event>, n: nat, maxSize: int)
    requires n < |evs|
  {
    var before := ItemsAfter(evs[..n]);
    evs[n].op.Set? && |before| == maxSize && evs[n].op.key !in before && Oldest(before, "")
  }

  lemma TimesDiffer(evs: seq<Event>, maxSize: int, ttl: int)
    requires IsRun(evs, maxSize, ttl)
    ensures DistinctTimes(ItemsAfter(evs))
  {
    RunFaithful(evs, maxSize, ttl);
    forall j, k | j in ItemsAfter(evs) && k in ItemsAfter(evs) && j != k
      ensures ItemsAfter(evs)[j].accessTime != ItemsAfter(evs)[k].accessTime
    {
      assert Tracked(evs, j, ttl) && Tracked(evs, k, ttl);
      TouchTimesDiffer(evs, j, k, maxSize, ttl);
    }
  }

  lemma StepOverflows(evs: seq<Event>, maxSize: int, ttl: int)
    requires evs != [] && IsRun(evs, maxSize, ttl) && maxSize >= 1
    requires |ItemsAfter(evs[..|evs| - 1])| <= maxSize
    ensures |ItemsAfter(evs)| > maxSize <==> Overflows(evs, |evs| - 1, maxSize)
  {
    var n := |evs| - 1;
    var before, e := ItemsAfter(evs[..n]), evs[n];
    TimesDiffer(evs[..n], maxSize, ttl);
    hide IsRun, DistinctTimes, Oldest;
    assert Stepped(before, e.op, e.at, maxSize, ttl, e.after);
    if e.op.Set? {
      SetGrows(before, e.op.key, e.op.value, e.at, maxSize, ttl, e.after);
    } else {
      OthersShrink(before, e.op, e.at, maxSize, ttl, e.after);
    }
  }

  ghost predicate AlwaysFits(evs: seq<Event>, maxSize: int) {
    forall n :: 0 <= n <= |evs| ==> |ItemsAfter(evs[..n])| <= maxSize
  }

  ghost predicate NeverOverflows(evs: seq<Event>, maxSize: int) {
    forall n :: 0 <= n < |evs| ==> !Overflows(evs, n, maxSize)
  }

  /** The cache keeps within maxSize through a run if and only if no Set of a new
      key ever meets a full cache whose oldest key is "". */
  lemma {:induction false} BoundExact(evs: seq<Event>, maxSize: int, ttl: int)
    requires IsRun(evs, maxSize, ttl) && maxSize >= 1
    ensures AlwaysFits(evs, maxSize) <==> NeverOverflows(evs, maxSize)
    decreases |evs|
  {
    hide IsRun, Overflows;
    if evs != [] {
      var n := |evs| - 1;
      var before := evs[..n];
      assert IsRun(before, maxSize, ttl) by { RunFront(evs, maxSize, ttl); }
      BoundExact(before, maxSize, ttl);
      FrontOf(evs, maxSize);
      if AlwaysFits(before, maxSize) {
        assert before[..n] == before;
        StepOverflows(evs, maxSize, ttl);
      }
    }
  }

  lemma FrontOf(evs: seq<Event>, maxSize: int)
    requires evs != []
    ensures var n := |evs| - 1;
            && (AlwaysFits(evs, maxSize) <==> AlwaysFits(evs[..n], maxSize) && |ItemsAfter(evs)| <= maxSize)
            && (NeverOverflows(evs, maxSize) <==> NeverOverflows(evs[..n], maxSize) && !Overflows(evs, n, maxSize))
  {
    var n := |evs| - 1;
    assert evs[..n + 1] == evs;
    forall i | 0 <= i <= n ensures evs[..n][..i] == evs[..i] {}
    assert forall i :: 0 <= i < n ==> (Overflows(evs[..n], i, maxSize) <==> Overflows(evs, i, maxSize));
    if AlwaysFits(evs[..n], maxSize) && |ItemsAfter(evs)| <= maxSize {
      forall i | 0 <= i <= |evs| ensures |ItemsAfter(evs[..i])| <= maxSize {
        if i <= n { assert evs[..n][..i] == evs[..i]; }
      }
    }
    if AlwaysFits(evs, maxSize) {
      forall i | 0 <= i <= n ensures |ItemsAfter(evs[..n][..i])| <= maxSize {
        assert evs[..n][..i] == evs[..i];
      }
    }
  }

  /** The i-th key of a run that starts with "". */
  function NthKey(i: nat): (k: string)
    ensures |k| == i
  {
    if i == 0 then "" else NthKey(i - 1) + "a"
  }

  function Flooded(n: nat, v: Value, ttl: int): (items: Items)
    ensures |items| == n && forall k :: k in items ==> |k| < n && items[k].accessTime >= 0
    ensures n > 0 ==> "" in items && items[""].accessTime == 0
  {
    if n == 0 then map[]
    else
      var before := Flooded(n - 1, v, ttl);
      var after := before[NthKey(n - 1) := Item(v, n - 1 + ttl, n - 1, 0)];
      assert after.Keys == before.Keys + {NthKey(n - 1)};
      after
  }

  function Flood(n: nat, v: Value, ttl: int): (evs: seq<Event>)
    ensures |evs| == n && (n > 0 ==> evs[n - 1].at == n - 1) && ItemsAfter(evs) == Flooded(n, v, ttl)
  {
    if n == 0 then []
    else Flood(n - 1, v, ttl) + [Event(Set(NthKey(n - 1), v), n - 1, Flooded(n, v, ttl))]
  }

  /** The key "" defeats the bound without limit: whatever the size, n Sets of
      distinct keys, "" first, leave n items. */
  lemma {:induction false} EmptyKeyOverflows(n: nat, v: Value, maxSize: int, ttl: int)
    requires maxSize >= 1
    ensures IsRun(Flood(n, v, ttl), maxSize, ttl) && |ItemsAfter(Flood(n, v, ttl))| == n
  {
    hide Flood, Flooded, NthKey, Room, ItemsAfter;
    FloodStep(n, v, ttl);
    if n > 0 {
      hide IsRun;
      EmptyKeyOverflows(n - 1, v, maxSize, ttl);
      RoomInFlood(n - 1, v, maxSize, ttl);
      RunSet(Flood(n - 1, v, ttl), Flooded(n - 1, v, ttl), NthKey(n - 1), v, n - 1, maxSize, ttl);
    }
  }

  lemma FloodStep(n: nat, v: Value, ttl: int)
    ensures n == 0 ==> Flood(n, v, ttl) == []
    ensures n > 0 ==>
              && Flood(n, v, ttl) == Flood(n - 1, v, ttl) + [Event(Set(NthKey(n - 1), v), n - 1, Flooded(n, v, ttl))]
              && Flooded(n, v, ttl) == Flooded(n - 1, v, ttl)[NthKey(n - 1) := Item(v, n - 1 + ttl, n - 1, 0)]
  {}

  lemma RoomInFlood(n: nat, v: Value, maxSize: int, ttl: int)
    requires maxSize >= 1
    ensures Room(Flooded(n, v, ttl), Flooded(n, v, ttl), maxSize)
  {
    hide Flooded;
    var items := Flooded(n, v, ttl);
    if |items| >= maxSize { assert Oldest(items, ""); }
  }

  /** A run goes on with a Set. */
  lemma RunSet(evs: seq<Event>, room: Items, key: string, v: Value, now: int, maxSize: int, ttl: int)
    requires IsRun(evs, maxSize, ttl) && (evs != [] ==> evs[|evs| - 1].at < now)
    requires Room(ItemsAfter(evs), room, maxSize)
    ensures IsRun(evs + [Event(Set(key, v), now, room[key := Item(v, now + ttl, now, 0)])], maxSize, ttl)
  {
    var e := Event(Set(key, v), now, room[key := Item(v, now + ttl, now, 0)]);
    assert (evs + [e])[..|evs|] == evs;
  }

  /** Different keys were never last touched at the same time. */
  lemma {:induction false} TouchTimesDiffer(evs: seq<Event>, j: string, k: string, maxSize: int, ttl: int)
    requires IsRun(evs, maxSize, ttl) && j != k && LastTouch(evs, j).Some?
    ensures LastTouch(evs, j) != LastTouch(evs, k)
    ensures LastTouch(evs, j).value <= evs[|evs| - 1].at && j in TouchedFrom(evs, 0)
    decreases |evs|
  {
    hide TouchOf, Stepped;
    var n := |evs| - 1;
    assert n > 0 ==> evs[..n][n - 1] == evs[n - 1];
    if TouchOf(evs) != Some(j) {
      TouchTimesDiffer(evs[..n], j, k, maxSize, ttl);
    } else if LastTouch(evs, k).Some? {
      TouchTimesDiffer(evs[..n], k, j, maxSize, ttl);
    }
  }

  lemma OthersNewer(evs: seq<Event>, k: string, maxSize: int, ttl: int)
    requires IsRun(evs, maxSize, ttl) && Oldest(ItemsAfter(evs), k)
    ensures ItemsAfter(evs).Keys - {k} <= Newer(evs, k) && k !in Newer(evs, k)
  {
    RunFaithful(evs, maxSize, ttl);
    assert Tracked(evs, k, ttl);
    forall j | j in ItemsAfter(evs).Keys - {k} ensures j in Newer(evs, k) {
      assert Tracked(evs, j, ttl);
      TouchTimesDiffer(evs, j, k, maxSize, ttl);
    }
  }

  /** A key that an event may remove only by evicting it. */
  predicate Spared(op: Op, key: string) {
    !op.Clear? && op != Delete(key)
  }

  /** A key among the maxSize-1 most recently touched is never the victim. */
  lemma RecentNotEvicted(evs: seq<Event>, key: string, maxSize: int, ttl: int)
    requires evs != [] && IsRun(evs, maxSize, ttl)
    requires var before := evs[..|evs| - 1];
             && key in ItemsAfter(before) && key !in ItemsAfter(evs)
             && Spared(evs[|evs| - 1].op, key)
             && evs[|evs| - 1].at <= ItemsAfter(before)[key].expiry
    ensures |Newer(evs[..|evs| - 1], key)| >= maxSize - 1
  {
    var n := |evs| - 1;
    var before, items, e := evs[..n], ItemsAfter(evs[..n]), evs[n];
    assert Stepped(items, e.op, e.at, maxSize, ttl, e.after) && e.op.Set?;
    hide Newer, IsRun, Stepped;
    VictimIsOldest(items, e, key, maxSize, ttl);
    OthersNewer(before, key, maxSize, ttl);
    assert |items.Keys - {key}| == |items| - 1;
    CardinalityMonotone(items.Keys - {key}, Newer(before, key));
  }

  lemma VictimIsOldest(items: Items, e: Event, key: string, maxSize: int, ttl: int)
    requires e.op.Set? && Stepped(items, e.op, e.at, maxSize, ttl, e.after)
    requires key in items && key !in e.after
    ensures |items| >= maxSize && Oldest(items, key)
  {
    var room :| Room(items, room, maxSize) && e.after == room[e.op.key := Item(e.op.value, e.at + ttl, e.at, 0)];
    assert key !in room;
  }

  lemma CardinalityMonotone(a: set<string>, b: set<string>)
    requires a <= b
    ensures |a| <= |b|
  {
    if a != b {
      var k :| k in b && k !in a;
      CardinalityMonotone(a, b - {k});
    }
  }

  /** The last event, a Set, evicted a key among the maxSize most recently touched
      ones, the key being Set counted first. */
  ghost predicate RecentLost(evs: seq<Event>, maxSize: int)
    requires evs != [] && evs[|evs| - 1].op.Set?
  {
    var n := |evs| - 1;
    exists k :: k in ItemsAfter(evs[..n]) && k !in ItemsAfter(evs)
                && |Newer(evs[..n], k) + {evs[n].op.key}| < maxSize
  }

  /** The Set overwrites a key of a full cache while another key is the oldest, and
      every key touched since that one is still held. */
  ghost predicate Overwrites(evs: seq<Event>, maxSize: int)
    requires evs != [] && evs[|evs| - 1].op.Set?
  {
    var n := |evs| - 1;
    var items, key := ItemsAfter(evs[..n]), evs[n].op.key;
    && |items| == maxSize && key in items
    && exists k :: Oldest(items, k) && k != key && k != "" && Newer(evs[..n], k) <= items.Keys
  }

  lemma LostMeansOverwrites(evs: seq<Event>, k: string, maxSize: int, ttl: int)
    requires evs != [] && IsRun(evs, maxSize, ttl) && evs[|evs| - 1].op.Set?
    requires k in ItemsAfter(evs[..|evs| - 1]) && k !in ItemsAfter(evs)
    requires |Newer(evs[..|evs| - 1], k) + {evs[|evs| - 1].op.key}| < maxSize
    ensures Overwrites(evs, maxSize)
  {
    var n := |evs| - 1;
    var before, items, e := evs[..n], ItemsAfter(evs[..n]), evs[n];
    assert IsRun(before, maxSize, ttl) && Stepped(items, e.op, e.at, maxSize, ttl, e.after);
    hide IsRun, Newer, Stepped;
    VictimIsOldest(items, e, k, maxSize, ttl);
    OthersNewer(before, k, maxSize, ttl);
    var others, newer, key := items.Keys - {k}, Newer(before, k), e.op.key;
    assert |others| == |items| - 1;
    CardinalityMonotone(others, newer + {key});
    if key !in items {
      CardinalityMonotone(others + {key}, newer + {key});
      assert false;
    }
    if x :| x in newer && x !in items {
      CardinalityMonotone(others + {x}, newer + {key});
      assert false;
    }
  }

  /** The promise that the maxSize most recent keys survive a Set fails exactly
      when the Set overwrites: never for a key that is not in the cache. */
  lemma RecentLostExact(evs: seq<Event>, maxSize: int, ttl: int)
    requires evs != [] && IsRun(evs, maxSize, ttl) && evs[|evs| - 1].op.Set?
    ensures RecentLost(evs, maxSize) <==> Overwrites(evs, maxSize)
    ensures evs[|evs| - 1].op.key !in ItemsAfter(evs[..|evs| - 1]) ==> !RecentLost(evs, maxSize)
  {
    var n := |evs| - 1;
    var before, items, e := evs[..n], ItemsAfter(evs[..n]), evs[n];
    if RecentLost(evs, maxSize) {
      var k :| k in items && k !in ItemsAfter(evs) && |Newer(before, k) + {e.op.key}| < maxSize;
      LostMeansOverwrites(evs, k, maxSize, ttl);
    }
    if Overwrites(evs, maxSize) {
      var k :| Oldest(items, k) && k != e.op.key && k != "" && Newer(before, k) <= items.Keys;
      OldestGoes(evs, k, maxSize, ttl);
      OthersNewer(before, k, maxSize, ttl);
      hide IsRun, Newer;
      CardinalityMonotone(Newer(before, k) + {e.op.key}, items.Keys - {k});
    }
  }

  /** With distinct access times the oldest item is the one evicted. */
  lemma OldestGoes(evs: seq<Event>, k: string, maxSize: int, ttl: int)
    requires evs != [] && IsRun(evs, maxSize, ttl) && evs[|evs| - 1].op.Set?
    requires var items := ItemsAfter(evs[..|evs| - 1]);
             |items| >= maxSize && Oldest(items, k) && k != evs[|evs| - 1].op.key && k != ""
    ensures k !in ItemsAfter(evs)
  {
    var n := |evs| - 1;
    var items, e := ItemsAfter(evs[..n]), evs[n];
    TimesDiffer(evs[..n], maxSize, ttl);
    SetEvicts(items, k, e.op.key, e.op.value, e.at, maxSize, ttl, e.after);
  }

  lemma SetEvicts(items: Items, k: string, key: string, v: Value, now: int, maxSize: int, ttl: int, after: Items)
    requires Stepped(items, Set(key, v), now, maxSize, ttl, after) && DistinctTimes(items)
    requires |items| >= maxSize && Oldest(items, k) && k != key && k != ""
    ensures k !in after
  {
    var room :| Room(items, room, maxSize) && after == room[key := Item(v, now + ttl, now, 0)];
    var victim :| Oldest(items, victim) && room == (if victim != "" then items - {victim} else items);
    assert victim == k;
  }

  /** The smallest such run: "b" is Set again, and "a", one of the two most recent, is lost. */
  lemma OverwriteEvicts(v: Value)
    ensures var one := map["a" := Item(v, 10, 1, 0)];
            var two := one["b" := Item(v, 11, 2, 0)];
            var three := map["b" := Item(v, 12, 3, 0)];
            var evs := [Event(Set("a", v), 1, one), Event(Set("b", v), 2, two), Event(Set("b", v), 3, three)];
            IsRun(evs, 2, 9) && RecentLost(evs, 2)
  {
    var one := map["a" := Item(v, 10, 1, 0)];
    var two := one["b" := Item(v, 11, 2, 0)];
    var three := map["b" := Item(v, 12, 3, 0)];
    var evs := [Event(Set("a", v), 1, one), Event(Set("b", v), 2, two), Event(Set("b", v), 3, three)];
    OverwriteRun(v);
    hide IsRun, Stepped, TouchedFrom, LastTouch;
    var before := evs[..2];
    assert before == [evs[0], evs[1]] && ItemsAfter(before) == two;
    assert two.Keys == {"a", "b"} && Oldest(two, "a");
    SetsTouch(before, 0, two.Keys);
    assert Newer(before, "a") <= two.Keys;
    RecentLostExact(evs, 2, 9);
  }

  lemma {:induction false} SetsTouch(evs: seq<Event>, i: nat, keys: set<string>)
    requires forall e :: e in evs ==> e.op.Set? && e.op.key in keys
    ensures TouchedFrom(evs, i) <= keys
    decreases |evs|
  {
    if |evs| > i {
      assert evs[|evs| - 1] in evs;
      SetsTouch(evs[..|evs| - 1], i, keys);
    }
  }

  lemma OverwriteRun(v: Value)
    ensures var one := map["a" := Item(v, 10, 1, 0)];
            var two := one["b" := Item(v, 11, 2, 0)];
            var three := map["b" := Item(v, 12, 3, 0)];
            IsRun([Event(Set("a", v), 1, one), Event(Set("b", v), 2, two), Event(Set("b", v), 3, three)], 2, 9)
  {
    hide Stepped;
    var one := map["a" := Item(v, 10, 1, 0)];
    var two := one["b" := Item(v, 11, 2, 0)];
    var three := map["b" := Item(v, 12, 3, 0)];
    var evs := [Event(Set("a", v), 1, one), Event(Set("b", v), 2, two), Event(Set("b", v), 3, three)];
    var nothing: Items := map[];
    RunSet([], nothing, "a", v, 1, 2, 9);
    assert evs[..1] == [] + [Event(Set("a", v), 1, nothing["a" := Item(v, 10, 1, 0)])];
    assert |one.Keys| == 1;
    RunSet(evs[..1], one, "b", v, 2, 2, 9);
    assert evs[..2] == evs[..1] + [evs[1]];
    assert two.Keys == {"a", "b"} && Oldest(two, "a");
    assert Evicted(two, two - {"a"});
    RunSet(evs[..2], two - {"a"}, "b", v, 3, 2, 9);
    assert three == (two - {"a"})["b" := Item(v, 12, 3, 0)];
    assert evs == evs[..2] + [evs[2]];
  }

  // ------------------------------------------------------------------
  // Retention over many events
  // ------------------------------------------------------------------

  lemma {:induction false} TouchInPast(evs: seq<Event>, j: string, maxSize: int, ttl: int)
    requires IsRun(evs, maxSize, ttl) && LastTouch(evs, j).Some?
    ensures evs != [] && LastTouch(evs, j).value <= evs[|evs| - 1].at
    decreases |evs|
  {
    var n := |evs| - 1;
    if TouchOf(evs) != Some(j) {
      TouchInPast(evs[..n], j, maxSize, ttl);
      assert evs[..n][n - 1] == evs[n - 1];
    }
  }

  /** A key last touched after event i was touched by an event after i. */
  lemma {:induction false} TouchedLater(evs: seq<Event>, i: nat, j: string, maxSize: int, ttl: int)
    requires IsRun(evs, maxSize, ttl) && i < |evs|
    requires LastTouch(evs, j).Some? && LastTouch(evs, j).value > evs[i].at
    ensures j in TouchedFrom(evs, i + 1)
    decreases |evs|
  {
    var n := |evs| - 1;
    TouchInPast(evs, j, maxSize, ttl);
    if TouchOf(evs) != Some(j) {
      TouchInPast(evs[..n], j, maxSize, ttl);
      assert evs[..n][n - 1] == evs[n - 1];
      TouchedLater(evs[..n], i, j, maxSize, ttl);
    }
  }

  /** A key touched by event i was last touched no earlier. */
  lemma {:induction false} TouchedSince(evs: seq<Event>, i: nat, key: string, maxSize: int, ttl: int)
    requires IsRun(evs, maxSize, ttl) && i < |evs| && TouchOf(evs[..i + 1]) == Some(key)
    ensures LastTouch(evs, key).Some? && LastTouch(evs, key).value >= evs[i].at
    decreases |evs|
  {
    var n := |evs| - 1;
    if i < n {
      assert evs[..n][..i + 1] == evs[..i + 1];
      TouchedSince(evs[..n], i, key, maxSize, ttl);
      LastIsLatest(evs, i, maxSize, ttl);
    } else {
      assert evs[..i + 1] == evs;
    }
  }

  lemma {:induction false} LastIsLatest(evs: seq<Event>, i: nat, maxSize: int, ttl: int)
    requires IsRun(evs, maxSize, ttl) && i < |evs|
    ensures evs[i].at <= evs[|evs| - 1].at
    decreases |evs|
  {
    var n := |evs| - 1;
    if i < n {
      assert evs[..n][n - 1] == evs[n - 1] && evs[..n][i] == evs[i];
      LastIsLatest(evs[..n], i, maxSize, ttl);
    }
  }

  /** A key touched at event i is still held at the end of the run if, since then,
      it was not deleted, its lifetime has not run out, and at most maxSize-2
      other keys were touched. */
  lemma {:induction false} Retained(evs: seq<Event>, i: nat, key: string, maxSize: int, ttl: int)
    requires IsRun(evs, maxSize, ttl) && i < |evs| && TouchOf(evs[..i + 1]) == Some(key)
    requires forall n :: i < n < |evs| ==> Spared(evs[n].op, key)
    requires key in evs[i].after && evs[|evs| - 1].at <= evs[i].after[key].expiry
    requires |TouchedFrom(evs, i + 1) - {key}| <= maxSize - 2
    ensures key in ItemsAfter(evs) && ItemsAfter(evs)[key].expiry >= evs[i].after[key].expiry
    decreases |evs|
  {
    hide TouchedFrom, TouchOf, Stepped, IsRun, Spared;
    var n := |evs| - 1;
    if i < n {
      var before := evs[..n];
      assert before[..i + 1] == evs[..i + 1] && before[i] == evs[i];
      RunFront(evs, maxSize, ttl);
      FewerTouched(evs, i + 1, key);
      LastIsLatest(evs, n - 1, maxSize, ttl);
      Retained(before, i, key, maxSize, ttl);
      RetainedStep(evs, i, key, maxSize, ttl);
    }
  }

  /** So a Get of that key hits, and returns the last value Set. */
  lemma RetainedHit(evs: seq<Event>, i: nat, key: string, now: int, maxSize: int, ttl: int)
    requires IsRun(evs, maxSize, ttl) && i < |evs| && TouchOf(evs[..i + 1]) == Some(key)
    requires forall n :: i < n < |evs| ==> Spared(evs[n].op, key)
    requires key in evs[i].after && evs[|evs| - 1].at <= now <= evs[i].after[key].expiry
    requires |TouchedFrom(evs, i + 1) - {key}| <= maxSize - 2
    ensures LastSet(evs, key).Some? && Lookup(ItemsAfter(evs), key, now) == Some(LastSet(evs, key).value.0)
  {
    Retained(evs, i, key, maxSize, ttl);
    HitIsLastSet(evs, key, now, maxSize, ttl);
  }

  lemma RunFront(evs: seq<Event>, maxSize: int, ttl: int)
    requires evs != [] && IsRun(evs, maxSize, ttl)
    ensures IsRun(evs[..|evs| - 1], maxSize, ttl)
  {}

  lemma FewerTouched(evs: seq<Event>, i: nat, key: string)
    requires i < |evs|
    ensures |TouchedFrom(evs[..|evs| - 1], i) - {key}| <= |TouchedFrom(evs, i) - {key}|
  {
    CardinalityMonotone(TouchedFrom(evs[..|evs| - 1], i) - {key}, TouchedFrom(evs, i) - {key});
  }

  lemma RetainedStep(evs: seq<Event>, i: nat, key: string, maxSize: int, ttl: int)
    requires IsRun(evs, maxSize, ttl) && i < |evs| - 1 && TouchOf(evs[..i + 1]) == Some(key)
    requires Spared(evs[|evs| - 1].op, key) && |TouchedFrom(evs, i + 1) - {key}| <= maxSize - 2
    requires var before := ItemsAfter(evs[..|evs| - 1]);
             key in before && evs[|evs| - 1].at <= before[key].expiry
    ensures key in ItemsAfter(evs)
    ensures ItemsAfter(evs)[key].expiry >= ItemsAfter(evs[..|evs| - 1])[key].expiry
  {
    var n := |evs| - 1;
    var before := evs[..n];
    assert before[..i + 1] == evs[..i + 1];
    if key !in ItemsAfter(evs) {
      TouchedSince(before, i, key, maxSize, ttl);
      RecentNotEvicted(evs, key, maxSize, ttl);
      forall j | j in Newer(before, key) ensures j in TouchedFrom(evs, i + 1) - {key} {
        TouchedLater(before, i, j, maxSize, ttl);
      }
      CardinalityMonotone(Newer(before, key), TouchedFrom(evs, i + 1) - {key});
      assert false;
    }
    ExpiryGrows(evs, key, maxSize, ttl);
  }

  lemma ExpiryGrows(evs: seq<Event>, key: string, maxSize: int, ttl: int)
    requires evs != [] && IsRun(evs, maxSize, ttl)
    requires key in ItemsAfter(evs) && key in ItemsAfter(evs[..|evs| - 1])
    ensures ItemsAfter(evs)[key].expiry >= ItemsAfter(evs[..|evs| - 1])[key].expiry
  {
    var n := |evs| - 1;
    assert n > 0 ==> evs[..n][n - 1] == evs[n - 1];
    RunFaithful(evs[..n], maxSize, ttl);
    RunFaithful(evs, maxSize, ttl);
    assert Tracked(evs[..n], key, ttl) && Tracked(evs, key, ttl);
    SetTimesBefore(evs[..n], key, maxSize, ttl);
  }

  lemma {:induction false} SetTimesBefore(evs: seq<Event>, key: string, maxSize: int, ttl: int)
    requires IsRun(evs, maxSize, ttl) && LastSet(evs, key).Some?
    ensures evs != [] && LastSet(evs, key).value.1 <= evs[|evs| - 1].at
    decreases |evs|
  {
    var n := |evs| - 1;
    assert n > 0 ==> evs[..n][n - 1] == evs[n - 1];
    if !(evs[n].op.Set? && evs[n].op.key == key) {
      SetTimesBefore(evs[..n], key, maxSize, ttl);
    }
  }
}
