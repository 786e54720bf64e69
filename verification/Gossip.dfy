/**
 Ban gossip between the nodes of a mesh, mango-waf/cluster/gossip.go with
 BanIPLocal and BanIPRemote of mango-waf/core/pipeline.go. Every node runs the
 code; the membership library may deliver a queued message to any node, at any
 later time, any number of times, in any order, or never.
 */
module Gossip {
  import opened BanTable
  import opened Wrappers

  const SECOND: int := 1_000_000_000
  const MAX_AGE: int := 60

  /** Time.Unix: whole seconds, rounded down. */
  function Unix(ns: int): int {
    ns / SECOND
  }

  datatype BanMessage = BanMessage(ip: string, duration: int, source: string, sentAt: int)

  datatype Node = Node(name: string, table: Table, queue: seq<BanMessage>)

  function BanLocally(n: Node, ip: string, duration: int, now: int): Node {
    Node(n.name, Banning(n.table, ip, duration, now),
         n.queue + [BanMessage(ip, duration, n.name, Unix(now))])
  }

  /** The messages NotifyMsg acts on: named, foreign and at most 60 seconds old. */
  predicate Accepts(n: Node, m: BanMessage, now: int) {
    m.ip != "" && m.source != n.name && Unix(now) - m.sentAt <= MAX_AGE
  }

  function Notified(n: Node, m: BanMessage, now: int): Node {
    if Accepts(n, m, now) then n.(table := Banning(n.table, m.ip, m.duration, now)) else n
  }

  class MeshNode {
    const name: string
    const pipeline: Pipeline
    var queue: seq<BanMessage>

    ghost function View(): Node
      reads this, pipeline
    {
      Node(name, pipeline.View(), queue)
    }

    constructor (name: string)
      ensures View() == Node(name, BanTable.FRESH, []) && fresh(pipeline)
    {
      this.name := name;
      pipeline := new Pipeline();
      queue := [];
    }

    method BanIPLocal(ip: string, duration: int, now: int)
      modifies this, pipeline
      ensures View() == BanLocally(old(View()), ip, duration, now)
    {
      pipeline.BanIP(ip, duration, now);
      BroadcastBan(ip, duration, now);
    }

    method BroadcastBan(ip: string, duration: int, now: int)
      modifies this`queue
      ensures queue == old(queue) + [BanMessage(ip, duration, name, Unix(now))]
    {
      queue := queue + [BanMessage(ip, duration, name, Unix(now))];
    }

    method NotifyMsg(m: BanMessage, now: int)
      modifies pipeline
      ensures View() == Notified(old(View()), m, now)
    {
      if m.ip != "" {
        if m.source == name { return; }
        if Unix(now) - m.sentAt > MAX_AGE { return; }
        pipeline.BanIP(m.ip, m.duration, now);
      }
    }
  }

  // ------------------------------------------------------------------
  // The mesh
  // ------------------------------------------------------------------

  datatype World = World(nodes: seq<Node>, now: int)

  datatype Step =
    | Wait(ns: nat)
    | Local(node: nat, ip: string, duration: int)
    | Deliver(to: nat, from: nat, k: nat)
    | Check(node: nat, ip: string)
    | Sweep(node: nat)

  predicate Enabled(w: World, s: Step) {
    match s
    case Wait(_) => true
    case Local(i, _, _) => i < |w.nodes|
    case Deliver(to, from, k) => to < |w.nodes| && from < |w.nodes| && k < |w.nodes[from].queue|
    case Check(i, _) => i < |w.nodes|
    case Sweep(i) => i < |w.nodes|
  }

  function Next(w: World, s: Step): World
    requires Enabled(w, s)
  {
    match s
    case Wait(ns) => w.(now := w.now + ns)
    case Local(i, ip, duration) => Put(w, i, BanLocally(w.nodes[i], ip, duration, w.now))
    case Deliver(to, from, k) => Put(w, to, Notified(w.nodes[to], w.nodes[from].queue[k], w.now))
    case Check(i, ip) => PutTable(w, i, BanTable.Step(w.nodes[i].table, Event(Op.IsBanned(ip), w.now)))
    case Sweep(i) => PutTable(w, i, BanTable.Step(w.nodes[i].table, Event(Op.Cleanup, w.now)))
  }

  function Put(w: World, i: nat, n: Node): World
    requires i < |w.nodes|
  {
    w.(nodes := w.nodes[i := n])
  }

  function PutTable(w: World, i: nat, t: Table): World
    requires i < |w.nodes|
  {
    Put(w, i, w.nodes[i].(table := t))
  }

  function Start(names: seq<string>, now: int): World {
    World(seq(|names|, i requires 0 <= i < |names| => Node(names[i], BanTable.FRESH, [])), now)
  }

  function Run(w: World, steps: seq<Step>): Option<World> {
    if steps == [] then Some(w)
    else
      var n := |steps| - 1;
      match Run(w, steps[..n])
      case None => None
      case Some(v) => if Enabled(v, steps[n]) then Some(Next(v, steps[n])) else None
  }

  /** A call of BanIPLocal. */
  datatype Record = Record(node: nat, ip: string, duration: int, at: int)

  /** Every call of BanIPLocal in a run, in order. */
  function LocalBans(w: World, steps: seq<Step>): seq<Record> {
    if steps == [] then []
    else
      var n := |steps| - 1;
      var before, s := LocalBans(w, steps[..n]), steps[n];
      match Run(w, steps[..n])
      case None => before
      case Some(v) => if s.Local? then before + [Record(s.node, s.ip, s.duration, v.now)] else before
  }

  function MessagesOf(bans: seq<Record>, i: nat, name: string): seq<BanMessage> {
    if bans == [] then []
    else
      var r, before := bans[|bans| - 1], MessagesOf(bans[..|bans| - 1], i, name);
      if r.node == i then before + [BanMessage(r.ip, r.duration, name, Unix(r.at))] else before
  }

  // ------------------------------------------------------------------
  // Every ban has an origin
  // ------------------------------------------------------------------

  /** The record explains an entry of node i: its own ban exactly, or another
      node's ban received within the accepted age. */
  predicate Explains(r: Record, i: nat, ip: string, expiry: int) {
    && r.ip == ip
    && (if r.node == i then expiry == r.at + r.duration
        else r.at + r.duration <= expiry < (r.at / 1_000_000_000 + 61) * 1_000_000_000 + r.duration)
  }

  ghost predicate Explained(bans: seq<Record>, i: nat, ip: string, expiry: int) {
    exists k :: 0 <= k < |bans| && Explains(bans[k], i, ip, expiry)
  }

  ghost predicate NodeSound(n: Node, i: nat, name: string, bans: seq<Record>) {
    && n.name == name
    && n.queue == MessagesOf(bans, i, name)
    && forall ip :: ip in n.table.banned ==> Explained(bans, i, ip, n.table.banned[ip])
  }

  ghost predicate Sound(w: World, names: seq<string>, bans: seq<Record>) {
    && |w.nodes| == |names|
    && (forall i :: 0 <= i < |names| ==> NodeSound(w.nodes[i], i, names[i], bans))
    && (forall k :: 0 <= k < |bans| ==> bans[k].at <= w.now && bans[k].node < |names|)
  }

  predicate Distinct(names: seq<string>) {
    forall i, j :: 0 <= i < j < |names| ==> names[i] != names[j]
  }

  /** A queued message comes from a ban its node made. */
  lemma {:induction false} MessageOrigin(bans: seq<Record>, i: nat, name: string, k: nat) returns (j: nat)
    requires k < |MessagesOf(bans, i, name)|
    ensures j < |bans| && bans[j].node == i
    ensures MessagesOf(bans, i, name)[k] == BanMessage(bans[j].ip, bans[j].duration, name, Unix(bans[j].at))
    decreases |bans|
  {
    var n := |bans| - 1;
    if k < |MessagesOf(bans[..n], i, name)| {
      j := MessageOrigin(bans[..n], i, name, k);
    } else {
      j := n;
    }
  }

  lemma StillExplained(bans: seq<Record>, r: Record, i: nat, ip: string, expiry: int)
    requires Explained(bans, i, ip, expiry)
    ensures Explained(bans + [r], i, ip, expiry)
  {
    var k :| 0 <= k < |bans| && Explains(bans[k], i, ip, expiry);
    assert (bans + [r])[k] == bans[k];
  }

  lemma LocalSound(w: World, names: seq<string>, bans: seq<Record>, i: nat, ip: string, duration: int)
    requires Sound(w, names, bans) && i < |names|
    ensures Sound(Next(w, Local(i, ip, duration)), names, bans + [Record(i, ip, duration, w.now)])
  {
    var v, r := Next(w, Local(i, ip, duration)), Record(i, ip, duration, w.now);
    var all := bans + [r];
    assert all[..|all| - 1] == bans && all[|all| - 1] == r;
    forall j | 0 <= j < |names| ensures NodeSound(v.nodes[j], j, names[j], all) {
      assert NodeSound(w.nodes[j], j, names[j], bans);
      forall a | a in v.nodes[j].table.banned ensures Explained(all, j, a, v.nodes[j].table.banned[a]) {
        if j == i && a == ip {
          assert Explains(all[|bans|], j, a, w.now + duration);
        } else {
          StillExplained(bans, r, j, a, v.nodes[j].table.banned[a]);
        }
      }
    }
  }

  lemma AcceptedInTime(sent: int, now: int, duration: int)
    requires sent <= now && Unix(now) - Unix(sent) <= MAX_AGE
    ensures sent + duration <= now + duration < (sent / 1_000_000_000 + 61) * 1_000_000_000 + duration
  {}

  lemma DeliverSound(w: World, names: seq<string>, bans: seq<Record>, to: nat, from: nat, k: nat)
    requires Sound(w, names, bans) && Distinct(names) && Enabled(w, Deliver(to, from, k))
    ensures Sound(Next(w, Deliver(to, from, k)), names, bans)
  {
    var v, n, m := Next(w, Deliver(to, from, k)), w.nodes[to], w.nodes[from].queue[k];
    assert NodeSound(n, to, names[to], bans) && NodeSound(w.nodes[from], from, names[from], bans);
    if Accepts(n, m, w.now) {
      var j := MessageOrigin(bans, from, names[from], k);
      AcceptedInTime(bans[j].at, w.now, m.duration);
      assert to != from;
      assert Explains(bans[j], to, m.ip, w.now + m.duration);
    }
    forall i | 0 <= i < |names| ensures NodeSound(v.nodes[i], i, names[i], bans) {
      assert NodeSound(w.nodes[i], i, names[i], bans);
    }
  }

  /** A step that only forgets entries of one table. */
  lemma ForgetSound(w: World, names: seq<string>, bans: seq<Record>, i: nat, t: Table)
    requires Sound(w, names, bans) && i < |names|
    requires forall ip :: ip in t.banned ==> ip in w.nodes[i].table.banned && t.banned[ip] == w.nodes[i].table.banned[ip]
    ensures Sound(PutTable(w, i, t), names, bans)
  {
    var v := PutTable(w, i, t);
    forall j | 0 <= j < |names| ensures NodeSound(v.nodes[j], j, names[j], bans) {
      assert NodeSound(w.nodes[j], j, names[j], bans);
    }
  }

  /** Over every run of a mesh with distinct names: each node's queue is exactly
      the bans it made itself, in order, so receiving a ban never sends one; and
      each entry of each table traces to a ban some node made, received no more
      than 60 whole seconds after it was sent. */
  lemma {:induction false} RunSound(names: seq<string>, now: int, steps: seq<Step>)
    requires Distinct(names) && Run(Start(names, now), steps).Some?
    ensures Sound(Run(Start(names, now), steps).value, names, LocalBans(Start(names, now), steps))
    decreases |steps|
  {
    var w0 := Start(names, now);
    if steps != [] {
      var n := |steps| - 1;
      RunSound(names, now, steps[..n]);
      var w, bans := Run(w0, steps[..n]).value, LocalBans(w0, steps[..n]);
      match steps[n]
      case Wait(_) =>
      case Local(i, ip, duration) => LocalSound(w, names, bans, i, ip, duration);
      case Deliver(to, from, k) => DeliverSound(w, names, bans, to, from, k);
      case Check(i, ip) =>
        ForgetSound(w, names, bans, i, BanTable.Step(w.nodes[i].table, Event(Op.IsBanned(ip), w.now)));
      case Sweep(i) =>
        ForgetSound(w, names, bans, i, BanTable.Step(w.nodes[i].table, Event(Op.Cleanup, w.now)));
    } else {
      forall i | 0 <= i < |names| ensures NodeSound(w0.nodes[i], i, names[i], []) {}
    }
  }

  /** When every ban ever made of an address is 61 seconds past its end, no node
      of the mesh still bans it: gossip cannot keep a ban alive. */
  lemma EventuallyUnbanned(names: seq<string>, now: int, steps: seq<Step>, ip: string, i: nat)
    requires Distinct(names) && Run(Start(names, now), steps).Some? && i < |names|
    requires var w := Run(Start(names, now), steps).value;
             forall k :: 0 <= k < |LocalBans(Start(names, now), steps)| ==>
               var r := LocalBans(Start(names, now), steps)[k];
               r.ip == ip ==> w.now >= r.at + r.duration + 61_000_000_000
    ensures |Run(Start(names, now), steps).value.nodes| == |names|
    ensures var w := Run(Start(names, now), steps).value; !Banned(w.nodes[i].table, ip, w.now)
  {
    RunSound(names, now, steps);
    var w, bans := Run(Start(names, now), steps).value, LocalBans(Start(names, now), steps);
    assert NodeSound(w.nodes[i], i, names[i], bans);
    if ip in w.nodes[i].table.banned {
      var k :| 0 <= k < |bans| && Explains(bans[k], i, ip, w.nodes[i].table.banned[ip]);
      assert Unix(bans[k].at) * SECOND <= bans[k].at;
    }
  }

  /** What delivering a message does, in every reachable state: a ban of a named
      address sent by another node at most 60 whole seconds ago bans the address
      from now for exactly its duration, and any other changes nothing. */
  lemma DeliveredExactly(names: seq<string>, now: int, steps: seq<Step>, to: nat, from: nat, k: nat)
    requires Distinct(names) && Run(Start(names, now), steps).Some?
    requires Enabled(Run(Start(names, now), steps).value, Deliver(to, from, k))
    ensures var w := Run(Start(names, now), steps).value;
            var m, n, v := w.nodes[from].queue[k], w.nodes[to], Next(w, Deliver(to, from, k)).nodes[to];
            && v.queue == n.queue && v.name == n.name
            && if m.ip != "" && to != from && w.now / 1_000_000_000 - m.sentAt <= 60 then
                 && (forall u :: w.now <= u ==> (Banned(v.table, m.ip, u) <==> u <= w.now + m.duration))
                 && (forall ip, u :: ip != m.ip ==> (Banned(v.table, ip, u) <==> Banned(n.table, ip, u)))
               else v.table == n.table
  {
    RunSound(names, now, steps);
    var w, bans := Run(Start(names, now), steps).value, LocalBans(Start(names, now), steps);
    assert NodeSound(w.nodes[to], to, names[to], bans) && NodeSound(w.nodes[from], from, names[from], bans);
    var j := MessageOrigin(bans, from, names[from], k);
  }

  /** What a local ban does: the same ban here, and one message, stamped in whole seconds. */
  lemma LocalExactly(n: Node, ip: string, duration: int, now: int)
    ensures var v := BanLocally(n, ip, duration, now);
            && v.name == n.name && v.queue == n.queue + [BanMessage(ip, duration, n.name, now / 1_000_000_000)]
            && (forall u :: now <= u ==> (Banned(v.table, ip, u) <==> u <= now + duration))
            && (forall a, u :: a != ip ==> (Banned(v.table, a, u) <==> Banned(n.table, a, u)))
  {}
}
