/** Runs of the pending-request protocol, and the invariant every run keeps. */
module HttpRuns {
  import opened HttpCorrelation
  import opened Wrappers

  // ------------------------------------------------------------------
  // Runs
  // ------------------------------------------------------------------

  /** The state after a run, None if some step was not enabled. */
  function Run(steps: seq<Step>): Option<State> {
    if steps == [] then Some(EMPTY)
    else
      var n := |steps| - 1;
      match Run(steps[..n])
      case None => None
      case Some(s) => if Enabled(s, steps[n]) then Some(Next(s, steps[n])) else None
  }

  /** The steps that change the table entry of an id. */
  predicate Names(step: Step, id: string) {
    match step
    case Register(_, i) => i == id
    case Claim(_, m) => m.id == id
    case CleanUp(_, i) => i == id
    case _ => false
  }

  /** Whose channel an id names, read off the steps alone. */
  function Holder(steps: seq<Step>, id: string): Option<Wid> {
    if steps == [] then None
    else
      var n := |steps| - 1;
      if !Names(steps[n], id) then Holder(steps[..n], id)
      else if steps[n].Register? then Some(steps[n].w)
      else None
  }

  /** In every run, shared ids or not, the last step naming an id decides its entry. */
  lemma {:induction false} TableIsHolder(steps: seq<Step>, id: string)
    requires Run(steps).Some?
    ensures var table := Run(steps).value.table;
            Holder(steps, id) == if id in table then Some(table[id]) else None
    decreases |steps|
  {
    if steps != [] {
      TableIsHolder(steps[..|steps| - 1], id);
    }
  }

  /** What has happened to a waiter, read off the steps alone. */
  datatype Fate = Unseen | Open(id: string) | Answered(m: Message) | Displaced | Closed

  /** A registration is open until the first response naming its id arrives, its
      own waiter cleans up, or another waiter registers or cleans up the same id. */
  function Updated(before: Fate, step: Step, w: Wid): Fate {
    match step
    case Register(v, id) => if v == w then Open(id) else if before == Open(id) then Displaced else before
    case Claim(_, m) => if before == Open(m.id) then Answered(m) else before
    case CleanUp(v, id) => if before == Open(id) then (if v == w then Closed else Displaced) else before
    case _ => before
  }

  function FateOf(steps: seq<Step>, w: Wid): Fate {
    if steps == [] then Unseen
    else Updated(FateOf(steps[..|steps| - 1], w), steps[|steps| - 1], w)
  }

  // ------------------------------------------------------------------
  // The invariant
  // ------------------------------------------------------------------

  /** The response the waiter's select has taken. */
  function Taken(w: Waiter): Option<Message> {
    match w.phase
    case Leaving(Got(m)) => Some(m)
    case Returned(Got(m)) => Some(m)
    case _ => None
  }

  predicate Fresh(w: Waiter) {
    w.slot == None && Taken(w) == None
  }

  /** A waiter holds nothing but its own answer, and has not returned while open. */
  predicate WaiterSound(w: Waiter, fate: Fate) {
    match fate
    case Unseen => false
    case Open(id) => w.reqId == id && Fresh(w) && !w.phase.Returned?
    case Answered(m) =>
      && w.reqId == m.id
      && (w.slot == None || w.slot == Some(m)) && (Taken(w) == None || Taken(w) == Some(m))
    case Displaced => Fresh(w)
    case Closed => Fresh(w) && w.phase.Returned?
  }

  ghost predicate WaitersSound(s: State, f: Wid -> Fate) {
    && (forall w :: w in s.waiters ==> WaiterSound(s.waiters[w], f(w)))
    && (forall w :: w !in s.waiters ==> f(w) == Unseen)
  }

  /** The table is exactly the open registrations. */
  ghost predicate TableSound(s: State, f: Wid -> Fate) {
    && (forall id :: id in s.table ==> f(s.table[id]) == Open(id))
    && (forall w :: f(w).Open? ==> f(w).id in s.table && s.table[f(w).id] == w)
  }

  /** A claimed response is its target's answer, and its target's slot is free for it. */
  ghost predicate HandlerSound(s: State, c: Claimed, f: Wid -> Fate) {
    c.target in s.waiters && f(c.target) == Answered(c.m) && Fresh(s.waiters[c.target])
  }

  ghost predicate HandlersSound(s: State, f: Wid -> Fate) {
    && (forall h :: h in s.handlers ==> HandlerSound(s, s.handlers[h], f))
    && (forall g, h :: g in s.handlers && h in s.handlers && g != h ==> s.handlers[g].target != s.handlers[h].target)
  }

  /** An answer that has not arrived is still in some handler's hands. */
  ghost predicate NothingLost(s: State, f: Wid -> Fate) {
    forall w :: w in s.waiters && f(w).Answered? && Fresh(s.waiters[w]) ==> InFlight(s, w)
  }

  ghost predicate InFlight(s: State, w: Wid) {
    exists h :: h in s.handlers && s.handlers[h].target == w
  }

  ghost predicate Inv(s: State, f: Wid -> Fate) {
    Sound(s, f) && NothingLost(s, f)
  }

  ghost predicate Sound(s: State, f: Wid -> Fate) {
    TableSound(s, f) && WaitersSound(s, f) && HandlersSound(s, f)
  }

  ghost predicate Follows(f: Wid -> Fate, step: Step, g: Wid -> Fate) {
    forall w :: g(w) == Updated(f(w), step, w)
  }

  /** With the same handlers, an answer stays in the hands it was in. */
  lemma FlightKept(s: State, f: Wid -> Fate, t: State, g: Wid -> Fate)
    requires NothingLost(s, f) && t.handlers == s.handlers
    requires forall v :: v in t.waiters && g(v).Answered? && Fresh(t.waiters[v]) ==>
               v in s.waiters && f(v).Answered? && Fresh(s.waiters[v])
    ensures NothingLost(t, g)
  {
    forall v | v in t.waiters && g(v).Answered? && Fresh(t.waiters[v]) ensures InFlight(t, v) {
      assert InFlight(s, v);
    }
  }

  lemma RegisterSound(s: State, f: Wid -> Fate, g: Wid -> Fate, w: Wid, id: string)
    requires Sound(s, f) && Follows(f, Register(w, id), g) && Enabled(s, Register(w, id))
    ensures Sound(Next(s, Register(w, id)), g)
  {
    RegisterTable(s, f, g, w, id);
    hide TableSound;
    assert f(w) == Unseen;
    assert forall h :: h in s.handlers ==> HandlerSound(s, s.handlers[h], f);
  }

  lemma RegisterTable(s: State, f: Wid -> Fate, g: Wid -> Fate, w: Wid, id: string)
    requires Sound(s, f) && Follows(f, Register(w, id), g) && Enabled(s, Register(w, id))
    ensures TableSound(Next(s, Register(w, id)), g)
  {
    assert f(w) == Unseen;
    hide WaitersSound, HandlersSound;
  }

  lemma RegisterKeeps(s: State, f: Wid -> Fate, g: Wid -> Fate, w: Wid, id: string)
    requires Inv(s, f) && Follows(f, Register(w, id), g) && Enabled(s, Register(w, id))
    ensures Inv(Next(s, Register(w, id)), g)
  {
    RegisterSound(s, f, g, w, id);
    hide Sound;
    FlightKept(s, f, Next(s, Register(w, id)), g);
  }

  lemma PhaseSound(s: State, f: Wid -> Fate, w: Wid, p: Phase)
    requires Sound(s, f) && w in s.waiters
    requires s.waiters[w].phase == Registered || s.waiters[w].phase == Waiting
    requires p == Waiting || (p.Leaving? && !p.result.Got?)
    ensures Sound(SetPhase(s, w, p), f)
  {
    assert WaiterSound(s.waiters[w], f(w));
  }

  /** Moving a waiter that has not left to Waiting, or to giving up. */
  lemma PhaseKeeps(s: State, f: Wid -> Fate, w: Wid, p: Phase)
    requires Inv(s, f) && w in s.waiters
    requires s.waiters[w].phase == Registered || s.waiters[w].phase == Waiting
    requires p == Waiting || (p.Leaving? && !p.result.Got?)
    ensures Inv(SetPhase(s, w, p), f)
  {
    PhaseSound(s, f, w, p);
    hide Sound;
    FlightKept(s, f, SetPhase(s, w, p), f);
  }

  lemma SameFates(s: State, f: Wid -> Fate, g: Wid -> Fate)
    requires Inv(s, f) && forall w :: g(w) == f(w)
    ensures Inv(s, g)
  {}

  lemma ClaimSound(s: State, f: Wid -> Fate, g: Wid -> Fate, h: Hid, m: Message)
    requires Sound(s, f) && Follows(f, Claim(h, m), g) && Enabled(s, Claim(h, m)) && m.id in s.table
    ensures Sound(Next(s, Claim(h, m)), g)
  {
    assert WaiterSound(s.waiters[s.table[m.id]], f(s.table[m.id]));
    assert forall k :: k in s.handlers ==> HandlerSound(s, s.handlers[k], f);
  }

  lemma ClaimKeeps(s: State, f: Wid -> Fate, g: Wid -> Fate, h: Hid, m: Message)
    requires Inv(s, f) && Follows(f, Claim(h, m), g) && Enabled(s, Claim(h, m))
    ensures Inv(Next(s, Claim(h, m)), g)
  {
    var t := Next(s, Claim(h, m));
    if m.id in s.table {
      ClaimSound(s, f, g, h, m);
      hide Sound;
      var w := s.table[m.id];
      assert t.handlers[h].target == w;
      forall v | v in t.waiters && g(v).Answered? && Fresh(t.waiters[v]) ensures InFlight(t, v) {
        if v != w {
          assert InFlight(s, v);
          var k :| k in s.handlers && s.handlers[k].target == v;
          assert k in t.handlers && t.handlers[k].target == v;
        }
      }
    } else {
      SameFates(s, f, g);
    }
  }

  lemma OfferKeeps(s: State, f: Wid -> Fate, g: Wid -> Fate, h: Hid)
    requires Inv(s, f) && Follows(f, Offer(h), g) && Enabled(s, Offer(h))
    ensures Inv(Next(s, Offer(h)), g)
  {
    OfferSound(s, f, h);
    OfferLosesNothing(s, f, h);
    SameFates(Next(s, Offer(h)), f, g);
  }

  lemma OfferSound(s: State, f: Wid -> Fate, h: Hid)
    requires Sound(s, f) && Enabled(s, Offer(h))
    ensures Sound(Next(s, Offer(h)), f)
  {
    assert HandlerSound(s, s.handlers[h], f);
  }

  lemma OfferLosesNothing(s: State, f: Wid -> Fate, h: Hid)
    requires Inv(s, f) && Enabled(s, Offer(h))
    ensures NothingLost(Next(s, Offer(h)), f)
  {
    var t, w := Next(s, Offer(h)), s.handlers[h].target;
    forall v | v in t.waiters && f(v).Answered? && Fresh(t.waiters[v]) ensures InFlight(t, v) {
      assert v != w && InFlight(s, v);
      var k :| k in s.handlers && s.handlers[k].target == v;
      assert k in t.handlers && t.handlers[k].target == v;
    }
  }

  lemma ReceiveSound(s: State, f: Wid -> Fate, g: Wid -> Fate, w: Wid)
    requires Sound(s, f) && Follows(f, Receive(w), g) && Enabled(s, Receive(w))
    ensures Sound(Next(s, Receive(w)), g)
  {
    assert WaiterSound(s.waiters[w], f(w));
  }

  lemma ReceiveKeeps(s: State, f: Wid -> Fate, g: Wid -> Fate, w: Wid)
    requires Inv(s, f) && Follows(f, Receive(w), g) && Enabled(s, Receive(w))
    ensures Inv(Next(s, Receive(w)), g)
  {
    ReceiveSound(s, f, g, w);
    hide Sound;
    FlightKept(s, f, Next(s, Receive(w)), g);
  }

  lemma CleanUpSound(s: State, f: Wid -> Fate, g: Wid -> Fate, w: Wid, id: string)
    requires Sound(s, f) && Follows(f, CleanUp(w, id), g) && Enabled(s, CleanUp(w, id))
    ensures Sound(Next(s, CleanUp(w, id)), g)
  {
    CleanUpTable(s, f, g, w, id);
    CleanUpWaiters(s, f, g, w, id);
    hide TableSound, WaitersSound;
    assert forall h :: h in s.handlers ==> HandlerSound(s, s.handlers[h], f);
  }

  lemma CleanUpWaiters(s: State, f: Wid -> Fate, g: Wid -> Fate, w: Wid, id: string)
    requires WaitersSound(s, f) && Follows(f, CleanUp(w, id), g) && Enabled(s, CleanUp(w, id))
    ensures WaitersSound(Next(s, CleanUp(w, id)), g)
  {
    var t := Next(s, CleanUp(w, id));
    forall v | v in t.waiters ensures WaiterSound(t.waiters[v], g(v)) {
      assert WaiterSound(s.waiters[v], f(v));
    }
  }

  lemma CleanUpTable(s: State, f: Wid -> Fate, g: Wid -> Fate, w: Wid, id: string)
    requires TableSound(s, f) && Follows(f, CleanUp(w, id), g) && Enabled(s, CleanUp(w, id))
    ensures TableSound(Next(s, CleanUp(w, id)), g)
  {}

  lemma CleanUpKeeps(s: State, f: Wid -> Fate, g: Wid -> Fate, w: Wid, id: string)
    requires Inv(s, f) && Follows(f, CleanUp(w, id), g) && Enabled(s, CleanUp(w, id))
    ensures Inv(Next(s, CleanUp(w, id)), g)
  {
    CleanUpSound(s, f, g, w, id);
    hide Sound;
    FlightKept(s, f, Next(s, CleanUp(w, id)), g);
  }

  lemma StepKeeps(s: State, f: Wid -> Fate, g: Wid -> Fate, step: Step)
    requires Inv(s, f) && Follows(f, step, g) && Enabled(s, step)
    ensures Inv(Next(s, step), g)
  {
    hide Inv;
    match step
    case Register(w, id) => RegisterKeeps(s, f, g, w, id);
    case Send(w) => PhaseKeeps(s, f, w, Waiting); SameFates(Next(s, step), f, g);
    case FailSend(w) => PhaseKeeps(s, f, w, Leaving(SendFailed)); SameFates(Next(s, step), f, g);
    case Claim(h, m) => ClaimKeeps(s, f, g, h, m);
    case Offer(h) => OfferKeeps(s, f, g, h);
    case Receive(w) => ReceiveKeeps(s, f, g, w);
    case Timeout(w) => PhaseKeeps(s, f, w, Leaving(TimedOut)); SameFates(Next(s, step), f, g);
    case Disconnect(w) => PhaseKeeps(s, f, w, Leaving(Disconnected)); SameFates(Next(s, step), f, g);
    case CleanUp(w, id) => CleanUpKeeps(s, f, g, w, id);
  }

  ghost function Fates(steps: seq<Step>): Wid -> Fate {
    (w: Wid) => FateOf(steps, w)
  }

  /** Every reachable state of every run, whatever ids are registered. */
  lemma {:induction false} Reachable(steps: seq<Step>)
    requires Run(steps).Some?
    ensures Inv(Run(steps).value, Fates(steps))
    decreases |steps|
  {
    if steps != [] {
      var n := |steps| - 1;
      Reachable(steps[..n]);
      StepKeeps(Run(steps[..n]).value, Fates(steps[..n]), Fates(steps), steps[n]);
    }
  }
}
