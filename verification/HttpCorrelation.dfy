/**
 The pending-request map of the tunnel server,
 proxvn-tunnel/src/backend/cmd/server/http_handler.go, as a state machine. A
 waiter is one SendHTTPRequest call with its own one-slot channel; a handler is
 one handleHTTPResponse goroutine. Every locked region, channel operation and
 select outcome is one atomic step, and the steps of different goroutines
 interleave in any order.
 */
module HttpCorrelation {
  import opened Wrappers

  type Wid = nat
  type Hid = nat

  /** A response message; the server forwards its payload, the id says whose it is. */
  datatype Message = Message(id: string, payload: string)

  datatype Result = Got(m: Message) | TimedOut | Disconnected | SendFailed

  /** Registered: before the request is sent. Leaving: the deferred cleanup is still to run. */
  datatype Phase = Registered | Waiting | Leaving(result: Result) | Returned(result: Result)

  datatype Waiter = Waiter(reqId: string, phase: Phase, slot: Option<Message>)

  datatype Claimed = Claimed(m: Message, target: Wid)

  datatype State = State(table: map<string, Wid>, waiters: map<Wid, Waiter>, handlers: map<Hid, Claimed>)

  datatype Step =
    | Register(w: Wid, id: string)
    | Send(w: Wid)
    | FailSend(w: Wid)
    | Claim(h: Hid, m: Message)
    | Offer(h: Hid)
    | Receive(w: Wid)
    | Timeout(w: Wid)
    | Disconnect(w: Wid)
    | CleanUp(w: Wid, id: string)

  const EMPTY: State := State(map[], map[], map[])

  predicate InPhase(s: State, w: Wid, p: Phase) {
    w in s.waiters && s.waiters[w].phase == p
  }

  predicate Enabled(s: State, step: Step) {
    match step
    case Register(w, _) => w !in s.waiters
    case Send(w) => InPhase(s, w, Registered)
    case FailSend(w) => InPhase(s, w, Registered)
    case Claim(h, _) => h !in s.handlers
    case Offer(h) => h in s.handlers && s.handlers[h].target in s.waiters
    case Receive(w) => InPhase(s, w, Waiting) && s.waiters[w].slot.Some?
    case Timeout(w) => InPhase(s, w, Waiting)
    case Disconnect(w) => InPhase(s, w, Waiting)
    case CleanUp(w, id) => w in s.waiters && s.waiters[w].phase.Leaving? && s.waiters[w].reqId == id
  }

  function SetPhase(s: State, w: Wid, p: Phase): State
    requires w in s.waiters
  {
    s.(waiters := s.waiters[w := s.waiters[w].(phase := p)])
  }

  function Next(s: State, step: Step): State
    requires Enabled(s, step)
  {
    match step
    case Register(w, id) =>
      s.(table := s.table[id := w], waiters := s.waiters[w := Waiter(id, Registered, None)])
    case Send(w) => SetPhase(s, w, Waiting)
    case FailSend(w) => SetPhase(s, w, Leaving(SendFailed))
    case Claim(h, m) =>
      if m.id in s.table then
        s.(table := s.table - {m.id}, handlers := s.handlers[h := Claimed(m, s.table[m.id])])
      else s
    case Offer(h) =>
      var c := s.handlers[h];
      var w := s.waiters[c.target];
      // the default branch of the select drops the response when the slot is taken
      var w' := if w.slot.None? then w.(slot := Some(c.m)) else w;
      s.(waiters := s.waiters[c.target := w'], handlers := s.handlers - {h})
    case Receive(w) =>
      var m := s.waiters[w].slot.value;
      s.(waiters := s.waiters[w := s.waiters[w].(phase := Leaving(Got(m)), slot := None)])
    case Timeout(w) => SetPhase(s, w, Leaving(TimedOut))
    case Disconnect(w) => SetPhase(s, w, Leaving(Disconnected))
    case CleanUp(w, id) =>
      SetPhase(s, w, Returned(s.waiters[w].phase.result)).(table := s.table - {id})
  }

  // ------------------------------------------------------------------
  // The server object: one method per locked region or channel operation
  // ------------------------------------------------------------------

  class TunnelServer {
    var httpRequests: map<string, Wid>
    var waiters: map<Wid, Waiter>
    var handlers: map<Hid, Claimed>

    ghost function View(): State
      reads this
    {
      State(httpRequests, waiters, handlers)
    }

    constructor ()
      ensures View() == EMPTY
    {
      httpRequests, waiters, handlers := map[], map[], map[];
    }

    /** SendHTTPRequest, up to the encoder. */
    method RegisterRequest(w: Wid, id: string)
      requires Enabled(View(), Register(w, id))
      modifies this
      ensures View() == Next(old(View()), Register(w, id))
    {
      waiters := waiters[w := Waiter(id, Registered, None)];
      httpRequests := httpRequests[id := w];
    }

    /** SendHTTPRequest's encoder call. */
    method Encode(w: Wid, failed: bool)
      requires Enabled(View(), Send(w))
      modifies this
      ensures View() == Next(old(View()), if failed then FailSend(w) else Send(w))
    {
      var p := if failed then Leaving(SendFailed) else Waiting;
      waiters := waiters[w := waiters[w].(phase := p)];
    }

    /** One ready case of SendHTTPRequest's select. */
    method SelectResponse(w: Wid) returns (m: Message)
      requires Enabled(View(), Receive(w))
      modifies this
      ensures View() == Next(old(View()), Receive(w)) && InPhase(View(), w, Leaving(Got(m)))
    {
      m := waiters[w].slot.value;
      waiters := waiters[w := waiters[w].(phase := Leaving(Got(m)), slot := None)];
    }

    method SelectGiveUp(w: Wid, disconnected: bool)
      requires Enabled(View(), Timeout(w))
      modifies this
      ensures View() == Next(old(View()), if disconnected then Disconnect(w) else Timeout(w))
    {
      waiters := waiters[w := waiters[w].(phase := Leaving(if disconnected then Disconnected else TimedOut))];
    }

    /** SendHTTPRequest's deferred function. */
    method Unregister(w: Wid, id: string)
      requires Enabled(View(), CleanUp(w, id))
      modifies this
      ensures View() == Next(old(View()), CleanUp(w, id))
    {
      httpRequests := httpRequests - {id};
      waiters := waiters[w := waiters[w].(phase := Returned(waiters[w].phase.result))];
    }

    /** handleHTTPResponse's locked lookup and delete. */
    method ClaimResponse(h: Hid, m: Message) returns (exists_: bool)
      requires Enabled(View(), Claim(h, m))
      modifies this
      ensures View() == Next(old(View()), Claim(h, m)) && (exists_ <==> m.id in old(httpRequests))
    {
      exists_ := m.id in httpRequests;
      if exists_ {
        handlers := handlers[h := Claimed(m, httpRequests[m.id])];
        httpRequests := httpRequests - {m.id};
      }
    }

    /** handleHTTPResponse's non-blocking send. */
    method TrySend(h: Hid) returns (sent: bool)
      requires Enabled(View(), Offer(h))
      modifies this
      ensures View() == Next(old(View()), Offer(h))
      ensures sent <==> old(waiters[handlers[h].target].slot).None?
    {
      var c := handlers[h];
      sent := waiters[c.target].slot.None?;
      if sent {
        waiters := waiters[c.target := waiters[c.target].(slot := Some(c.m))];
      }
      handlers := handlers - {h};
      assert View().waiters == Next(old(View()), Offer(h)).waiters;
    }
  }
}
