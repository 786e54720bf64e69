/** What the pending-request protocol promises over all runs. */
module HttpPromises {
  import opened HttpCorrelation
  import opened HttpRuns
  import opened Wrappers

  // ------------------------------------------------------------------
  // What the protocol promises
  // ------------------------------------------------------------------

  /** The first step naming the id after step i. */
  function FirstAfter(steps: seq<Step>, i: nat, id: string): (r: Option<Step>)
    ensures r.None? <==> forall j :: i < j < |steps| ==> !Names(steps[j], id)
  {
    if |steps| <= i + 1 then None
    else
      var n := |steps| - 1;
      var before := FirstAfter(steps[..n], i, id);
      assert forall j :: 0 <= j < n ==> steps[..n][j] == steps[j];
      if before.Some? then before else if Names(steps[n], id) then Some(steps[n]) else None
  }

  lemma {:induction false} StaysRegistered(steps: seq<Step>, i: nat, w: Wid, id: string)
    requires Run(steps).Some? && i < |steps| && steps[i] == Register(w, id)
    ensures w in Run(steps).value.waiters && Run(steps).value.waiters[w].reqId == id
    decreases |steps|
  {
    var n := |steps| - 1;
    if i < n {
      StaysRegistered(steps[..n], i, w, id);
    }
  }

  /** A waiter's fate is decided by the first step naming its id after its own
      registration: a response answers it, its own cleanup closes it, and any
      step of another waiter displaces it. */
  lemma {:induction false} FateByFirst(steps: seq<Step>, i: nat, w: Wid, id: string)
    requires Run(steps).Some? && i < |steps| && steps[i] == Register(w, id)
    ensures FateOf(steps, w) ==
            match FirstAfter(steps, i, id)
            case None => Open(id)
            case Some(Claim(_, m)) => Answered(m)
            case Some(CleanUp(v, _)) => if v == w then Closed else Displaced
            case Some(_) => Displaced
    decreases |steps|
  {
    var n := |steps| - 1;
    if i < n {
      FateByFirst(steps[..n], i, w, id);
      StaysRegistered(steps[..n], i, w, id);
      NamesSome(steps[..n], i, id);
    }
  }

  lemma {:induction false} NamesSome(steps: seq<Step>, i: nat, id: string)
    ensures FirstAfter(steps, i, id).Some? ==> Names(FirstAfter(steps, i, id).value, id)
    decreases |steps|
  {
    if |steps| > i + 1 {
      NamesSome(steps[..|steps| - 1], i, id);
    }
  }

  lemma OpenIffHeld(steps: seq<Step>, w: Wid, id: string)
    requires Run(steps).Some?
    ensures var table := Run(steps).value.table;
            FateOf(steps, w) == Open(id) <==> id in table && table[id] == w
  {
    Reachable(steps);
    hide Run, FateOf, WaitersSound, HandlersSound, NothingLost;
    assert TableSound(Run(steps).value, Fates(steps));
    assert Fates(steps)(w) == FateOf(steps, w);
    if id in Run(steps).value.table {
      assert Fates(steps)(Run(steps).value.table[id]) == Open(id);
    }
  }

  /** A response is handed to waiter w if and only if no other registration,
      response or cleanup has named its id since w registered. */
  lemma ResponseReaches(steps: seq<Step>, i: nat, w: Wid, h: Hid, m: Message)
    requires Run(steps).Some? && i < |steps| && steps[i] == Register(w, m.id)
    requires Enabled(Run(steps).value, Claim(h, m))
    ensures var t := Next(Run(steps).value, Claim(h, m));
            (h in t.handlers && t.handlers[h] == Claimed(m, w))
            <==> forall j :: i < j < |steps| ==> !Names(steps[j], m.id)
  {
    FateByFirst(steps, i, w, m.id);
    NamesSome(steps, i, m.id);
    OpenIffHeld(steps, w, m.id);
  }

  /** A waiter that returns a response returns the one that answered it: the first
      step naming its id since it registered. */
  lemma GotFirstAnswer(steps: seq<Step>, i: nat, w: Wid, m: Message)
    requires Run(steps).Some? && i < |steps| && steps[i].Register? && steps[i].w == w
    requires InPhase(Run(steps).value, w, Returned(Got(m))) || InPhase(Run(steps).value, w, Leaving(Got(m)))
    ensures m.id == steps[i].id && FateOf(steps, w) == Answered(m)
    ensures FirstAfter(steps, i, m.id).Some? && FirstAfter(steps, i, m.id).value.Claim?
    ensures FirstAfter(steps, i, m.id).value.m == m
  {
    Reachable(steps);
    assert WaiterSound(Run(steps).value.waiters[w], FateOf(steps, w));
    StaysRegistered(steps, i, w, steps[i].id);
    FateByFirst(steps, i, w, steps[i].id);
    NamesSome(steps, i, m.id);
  }

  /** The non-blocking send of a claimed response always finds the slot free. */
  lemma ClaimedNeverDropped(steps: seq<Step>, h: Hid)
    requires Run(steps).Some? && h in Run(steps).value.handlers
    ensures var s := Run(steps).value;
            var c := s.handlers[h];
            && Enabled(s, Offer(h))
            && s.waiters[c.target].slot == None
            && Next(s, Offer(h)).waiters[c.target].slot == Some(c.m)
  {
    Reachable(steps);
    assert HandlerSound(Run(steps).value, Run(steps).value.handlers[h], Fates(steps));
  }

  /** Once its waiter has returned, a registration is gone in every run; and if no
      one registered the id since, the id is gone and a response naming it changes
      nothing. */
  lemma LateResponseIgnored(steps: seq<Step>, i: nat, w: Wid, h: Hid, m: Message)
    requires Run(steps).Some? && i < |steps| && steps[i] == Register(w, m.id)
    requires var s := Run(steps).value;
             w in s.waiters && s.waiters[w].phase.Returned? && Enabled(s, Claim(h, m))
    ensures forall id :: id in Run(steps).value.table ==> Run(steps).value.table[id] != w
    ensures (forall j :: i < j < |steps| && steps[j].Register? ==> steps[j].id != m.id) ==>
              m.id !in Run(steps).value.table && Next(Run(steps).value, Claim(h, m)) == Run(steps).value
  {
    Reachable(steps);
    var s := Run(steps).value;
    assert WaiterSound(s.waiters[w], FateOf(steps, w));
    TableIsHolder(steps, m.id);
    FateByFirst(steps, i, w, m.id);
    if forall j :: i < j < |steps| && steps[j].Register? ==> steps[j].id != m.id {
      HeldByLast(steps, i, w, m.id);
    }
  }

  /** The last registrant of an id holds it or nobody does. */
  lemma {:induction false} HeldByLast(steps: seq<Step>, i: nat, w: Wid, id: string)
    requires i < |steps| && steps[i] == Register(w, id)
    requires forall j :: i < j < |steps| && steps[j].Register? ==> steps[j].id != id
    ensures Holder(steps, id) == Some(w) || Holder(steps, id) == None
    decreases |steps|
  {
    var n := |steps| - 1;
    if i < n {
      assert forall j :: 0 <= j < n ==> steps[..n][j] == steps[j];
      HeldByLast(steps[..n], i, w, id);
    }
  }

  /** If an answer arrived and no handler still carries it, a waiter that is still
      waiting has it in its slot, so its select can proceed. */
  lemma NoLostWakeup(steps: seq<Step>, w: Wid)
    requires Run(steps).Some? && InPhase(Run(steps).value, w, Waiting)
    requires FateOf(steps, w).Answered? && !InFlight(Run(steps).value, w)
    ensures Enabled(Run(steps).value, Receive(w))
    ensures Run(steps).value.waiters[w].slot == Some(FateOf(steps, w).m)
  {
    Reachable(steps);
    var s := Run(steps).value;
    assert WaiterSound(s.waiters[w], FateOf(steps, w));
    assert !Fresh(s.waiters[w]);
  }

  // ------------------------------------------------------------------
  // When ids may be shared
  // ------------------------------------------------------------------

  /** No waiter that has not returned uses the id. */
  ghost predicate Unused(s: State, id: string) {
    forall w :: w in s.waiters && s.waiters[w].reqId == id ==> s.waiters[w].phase.Returned?
  }

  /** An id is registered only while unused; it may be used again later. */
  ghost predicate Exclusive(steps: seq<Step>) {
    forall i :: 0 <= i < |steps| && steps[i].Register? && Run(steps[..i]).Some? ==>
      Unused(Run(steps[..i]).value, steps[i].id)
  }

  ghost predicate Unshared(s: State) {
    forall v, w :: v in s.waiters && w in s.waiters && v != w
                   && !s.waiters[v].phase.Returned? && !s.waiters[w].phase.Returned? ==>
                   s.waiters[v].reqId != s.waiters[w].reqId
  }

  lemma UnsharedStep(s: State, step: Step)
    requires Unshared(s) && Enabled(s, step) && (step.Register? ==> Unused(s, step.id))
    ensures Unshared(Next(s, step))
  {}

  lemma ExclusiveFront(steps: seq<Step>)
    requires steps != [] && Exclusive(steps) && Run(steps).Some?
    ensures var n := |steps| - 1;
            && Run(steps[..n]).Some? && Exclusive(steps[..n])
            && (steps[n].Register? ==> Unused(Run(steps[..n]).value, steps[n].id))
  {
    var n := |steps| - 1;
    forall i | 0 <= i < n ensures steps[..n][..i] == steps[..i] {}
  }

  lemma {:induction false} ExclusiveUnshared(steps: seq<Step>)
    requires Run(steps).Some? && Exclusive(steps)
    ensures Unshared(Run(steps).value)
    decreases |steps|
  {
    if steps != [] {
      var n := |steps| - 1;
      ExclusiveFront(steps);
      ExclusiveUnshared(steps[..n]);
      UnsharedStep(Run(steps[..n]).value, steps[n]);
    }
  }

  /** If waiters that overlap in time have different ids, no waiter is ever displaced. */
  lemma {:induction false} ExclusiveNeverDisplaced(steps: seq<Step>, w: Wid)
    requires Run(steps).Some? && Exclusive(steps)
    ensures FateOf(steps, w) != Displaced
    decreases |steps|
  {
    if steps != [] {
      var n := |steps| - 1;
      ExclusiveFront(steps);
      ExclusiveNeverDisplaced(steps[..n], w);
      ExclusiveUnshared(steps[..n]);
      Reachable(steps[..n]);
      var s, before := Run(steps[..n]).value, FateOf(steps[..n], w);
      if before.Open? {
        assert w in s.waiters && WaiterSound(s.waiters[w], before);
      }
    }
  }

  /** Two waiters that have not returned share an id and the response is still to
      come: the other one can give up and clean up, and then w is displaced. */
  lemma SharingLoses(steps: seq<Step>, v: Wid, w: Wid, id: string)
    requires Run(steps).Some? && v != w && FateOf(steps, w) == Open(id)
    requires InPhase(Run(steps).value, v, Waiting) && Run(steps).value.waiters[v].reqId == id
    ensures var later := steps + [Timeout(v)] + [CleanUp(v, id)];
            && Run(later).Some? && FateOf(later, w) == Displaced
            && forall h, m: Message :: m.id == id && Enabled(Run(later).value, Claim(h, m)) ==>
                 Next(Run(later).value, Claim(h, m)) == Run(later).value
  {
    RunStep(steps, Timeout(v));
    RunStep(steps + [Timeout(v)], CleanUp(v, id));
    assert (steps + [Timeout(v)])[..|steps|] == steps;
    var later := steps + [Timeout(v)] + [CleanUp(v, id)];
    assert later[..|later| - 1] == steps + [Timeout(v)];
  }

  /** The smallest such run. */
  lemma SharedIdLosesResponse(id: string, payload: string)
    ensures var steps := [Register(0, id), Register(1, id), Send(0), Send(1), Timeout(0), CleanUp(0, id)];
            && Run(steps).Some? && !Exclusive(steps)
            && var s := Run(steps).value;
            && InPhase(s, 1, Waiting) && Enabled(s, Claim(0, Message(id, payload)))
            && Next(s, Claim(0, Message(id, payload))) == s
  {
    var steps := [Register(0, id), Register(1, id), Send(0), Send(1), Timeout(0), CleanUp(0, id)];
    SharedIdRun(id);
    RunNothing();
    RunStep([], Register(0, id));
    assert steps[..1] == [] + [Register(0, id)];
    assert steps[1].Register? && !Unused(Run(steps[..1]).value, id) by {
      assert Run(steps[..1]).value.waiters[0] == Waiter(id, Registered, None);
    }
  }

  lemma SharedIdRun(id: string)
    ensures var steps := [Register(0, id), Register(1, id), Send(0), Send(1), Timeout(0), CleanUp(0, id)];
            var w := Waiter(id, Waiting, None);
            Run(steps) == Some(State(map[], map[0 := w.(phase := Returned(TimedOut)), 1 := w], map[]))
  {
    hide Run;
    assert Run([]) == Some(EMPTY) by { RunNothing(); }
    var steps := [Register(0, id), Register(1, id), Send(0), Send(1), Timeout(0), CleanUp(0, id)];
    var w0, w1 := Waiter(id, Registered, None), Waiter(id, Waiting, None);
    RunStep([], Register(0, id));
    RunStep([] + [Register(0, id)], Register(1, id));
    assert steps[..2] == [] + [Register(0, id)] + [Register(1, id)];
    var s2 := State(map[id := 1], map[0 := w0, 1 := w0], map[]);
    assert Next(Next(EMPTY, Register(0, id)), Register(1, id)) == s2;
    RunStep(steps[..2], Send(0));
    RunStep(steps[..2] + [Send(0)], Send(1));
    assert steps[..4] == steps[..2] + [Send(0)] + [Send(1)];
    var s4 := State(map[id := 1], map[0 := w1, 1 := w1], map[]);
    assert Next(Next(s2, Send(0)), Send(1)) == s4;
    RunStep(steps[..4], Timeout(0));
    RunStep(steps[..4] + [Timeout(0)], CleanUp(0, id));
    assert steps == steps[..4] + [Timeout(0)] + [CleanUp(0, id)];
    var s6 := State(map[], map[0 := w1.(phase := Returned(TimedOut)), 1 := w1], map[]);
    assert Next(Next(s4, Timeout(0)), CleanUp(0, id)) == s6;
  }

  lemma RunNothing()
    ensures Run([]) == Some(EMPTY)
  {}

  lemma RunStep(before: seq<Step>, step: Step)
    requires Run(before).Some? && Enabled(Run(before).value, step)
    ensures Run(before + [step]) == Some(Next(Run(before).value, step))
  {
    assert (before + [step])[..|before|] == before;
  }

  // ------------------------------------------------------------------
  // Where results come from
  // ------------------------------------------------------------------

  /** A non-blocking send fills a free slot and never overwrites a taken one. */
  lemma OfferExact(s: State, h: Hid, v: Wid)
    requires Enabled(s, Offer(h)) && v in s.waiters
    ensures h !in Next(s, Offer(h)).handlers && Next(s, Offer(h)).table == s.table
    ensures v in Next(s, Offer(h)).waiters
    ensures v != s.handlers[h].target || s.waiters[v].slot.Some? ==> Next(s, Offer(h)).waiters[v] == s.waiters[v]
    ensures v == s.handlers[h].target && s.waiters[v].slot == None ==>
              Next(s, Offer(h)).waiters[v] == s.waiters[v].(slot := Some(s.handlers[h].m))
  {}

  /** The result a waiter is leaving, or has returned, with. */
  function ResultOf(s: State, w: Wid): Option<Result> {
    if w !in s.waiters then None
    else
      match s.waiters[w].phase
      case Leaving(r) => Some(r)
      case Returned(r) => Some(r)
      case _ => None
  }

  predicate GotSomething(r: Option<Result>) {
    r.Some? && r.value.Got?
  }

  /** Over every run, each result comes from its own step and from no other: a send
      failure, a timeout, a disconnect or a response received. */
  lemma {:induction false} ResultByStep(steps: seq<Step>, w: Wid)
    requires Run(steps).Some?
    ensures var r := ResultOf(Run(steps).value, w);
            && (FailSend(w) in steps <==> r == Some(SendFailed))
            && (Timeout(w) in steps <==> r == Some(TimedOut))
            && (Disconnect(w) in steps <==> r == Some(Disconnected))
            && (Receive(w) in steps <==> GotSomething(r))
    decreases |steps|
  {
    if steps != [] {
      var n := |steps| - 1;
      assert steps == steps[..n] + [steps[n]];
      ResultByStep(steps[..n], w);
      ResultAfter(Run(steps[..n]).value, steps[n], w);
    }
  }

  lemma ResultAfter(s: State, step: Step, w: Wid)
    requires Enabled(s, step)
    ensures var r, t := ResultOf(s, w), ResultOf(Next(s, step), w);
            if step == FailSend(w) then r == None && t == Some(SendFailed)
            else if step == Timeout(w) then r == None && t == Some(TimedOut)
            else if step == Disconnect(w) then r == None && t == Some(Disconnected)
            else if step == Receive(w) then r == None && GotSomething(t)
            else t == r
  {}

  /** A waiter waits exactly between its send and its result; if its send failed it
      never waited. It has returned exactly when its cleanup has run. */
  lemma {:induction false} WaitingByStep(steps: seq<Step>, w: Wid)
    requires Run(steps).Some?
    ensures var s := Run(steps).value;
            && (InPhase(s, w, Waiting) <==> Send(w) in steps && ResultOf(s, w) == None)
            && (Send(w) in steps ==> FailSend(w) !in steps && w in s.waiters && s.waiters[w].phase != Registered)
            && (w in s.waiters && s.waiters[w].phase.Returned? <==> CleanedUp(steps, w))
    decreases |steps|
  {
    ResultByStep(steps, w);
    if steps != [] {
      var n := |steps| - 1;
      assert steps == steps[..n] + [steps[n]];
      WaitingByStep(steps[..n], w);
      CleanedSnoc(steps, w);
      PhaseAfter(Run(steps[..n]).value, steps[n], w);
    }
  }

  predicate CleanedUp(steps: seq<Step>, w: Wid) {
    exists i :: 0 <= i < |steps| && steps[i].CleanUp? && steps[i].w == w
  }

  lemma CleanedSnoc(steps: seq<Step>, w: Wid)
    requires steps != []
    ensures var n := |steps| - 1;
            CleanedUp(steps, w) <==> CleanedUp(steps[..n], w) || (steps[n].CleanUp? && steps[n].w == w)
  {
    var n := |steps| - 1;
    if CleanedUp(steps[..n], w) {
      var i :| 0 <= i < n && steps[..n][i].CleanUp? && steps[..n][i].w == w;
      assert steps[i].CleanUp?;
    }
    if CleanedUp(steps, w) && !(steps[n].CleanUp? && steps[n].w == w) {
      var i :| 0 <= i < |steps| && steps[i].CleanUp? && steps[i].w == w;
      assert steps[..n][i] == steps[i];
    }
  }

  lemma PhaseAfter(s: State, step: Step, w: Wid)
    requires Enabled(s, step)
    ensures var t := Next(s, step);
            && (InPhase(t, w, Waiting) <==>
                step == Send(w) || (InPhase(s, w, Waiting) && step != Receive(w) && step != Timeout(w) && step != Disconnect(w)))
            && (w in t.waiters && t.waiters[w].phase.Returned? <==>
                (w in s.waiters && s.waiters[w].phase.Returned?) || (step.CleanUp? && step.w == w))
            && (InPhase(t, w, Registered) <==>
                (step.Register? && step.w == w) || (InPhase(s, w, Registered) && step != Send(w) && step != FailSend(w)))
            && (w in s.waiters ==> w in t.waiters)
            && (step == Send(w) ==> InPhase(s, w, Registered))
            && (step == FailSend(w) ==> InPhase(s, w, Registered))
            && (step.Register? && step.w == w ==> w !in s.waiters)
  {}
}
