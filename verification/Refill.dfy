/** The arithmetic of a bucket that refills with time, over `real` tokens and seconds. */
module Refill {

  datatype Bucket = Bucket(tokens: real, capacity: real, rate: real, last: real)

  /** Tokens produced in `seconds` at `rate`. */
  function Yield(rate: real, seconds: real): real {
    seconds * rate
  }

  function Refilled(b: Bucket, now: real): real {
    var t := b.tokens + Yield(b.rate, now - b.last);
    if t > b.capacity then b.capacity else t
  }

  lemma YieldMonotone(r: real, q: real, x: real, y: real)
    requires 0.0 <= r <= q && 0.0 <= x <= y
    ensures 0.0 <= Yield(r, x) <= Yield(q, y)
  {
    assert x * r <= x * q;
    assert x * q <= y * q;
  }

  lemma YieldIsOne(r: real)
    ensures Yield(r, 1.0) == r
  {}

  lemma YieldAdds(r: real, x: real, y: real)
    ensures Yield(r, x + y) == Yield(r, x) + Yield(r, y)
  {}

  lemma RefillBounds(b: Bucket, now: real, lo: real, hi: real)
    requires 0.0 <= b.tokens <= b.capacity && 0.0 <= lo <= b.rate <= hi && b.last <= now
    ensures 0.0 <= Refilled(b, now) <= b.capacity
    ensures Refilled(b, now) <= b.tokens + Yield(hi, now - b.last)
    ensures Refilled(b, now) == b.capacity || Refilled(b, now) >= b.tokens + Yield(lo, now - b.last)
    ensures b.last == now ==> Refilled(b, now) == b.tokens
  {
    hide Yield;
    YieldMonotone(lo, b.rate, now - b.last, now - b.last);
    YieldMonotone(b.rate, hi, now - b.last, now - b.last);
    YieldAdds(b.rate, 0.0, 0.0);
  }

  // ------------------------------------------------------------------
  // Windows
  // ------------------------------------------------------------------

  /** One request served: when, the bonus added before it, and what it took. */
  datatype Turn = Turn(at: real, gift: real, paid: real)

  function Outlay(ts: seq<Turn>, i: nat, n: nat): real
    requires i <= n <= |ts|
  {
    if i == n then 0.0 else Outlay(ts, i, n - 1) + ts[n - 1].paid
  }

  function Gifts(ts: seq<Turn>, i: nat, n: nat): real
    requires i <= n <= |ts|
  {
    if i == n then 0.0 else Gifts(ts, i, n - 1) + ts[n - 1].gift
  }

  /** What a bucket that was full at the first turn holds when turn n is served. */
  function LevelAt(capacity: real, rate: real, ts: seq<Turn>, n: nat): real
    requires n < |ts|
  {
    if n == 0 then capacity + ts[0].gift
    else
      var t := LevelAt(capacity, rate, ts, n - 1) - ts[n - 1].paid + Yield(rate, ts[n].at - ts[n - 1].at);
      (if t > capacity then capacity else t) + ts[n].gift
  }

  /** What the turns from i to n may take at n: a full bucket, the yield of the time
      between them and their bonuses, less what was taken since turn i. */
  function Window(capacity: real, rate: real, ts: seq<Turn>, i: nat, n: nat): real
    requires i <= n < |ts|
  {
    capacity + Yield(rate, ts[n].at - ts[i].at) + Gifts(ts, i, n + 1) - Outlay(ts, i, n)
  }

  lemma WindowGrows(capacity: real, rate: real, ts: seq<Turn>, i: nat, n: nat)
    requires i < n < |ts|
    ensures Window(capacity, rate, ts, i, n) ==
            Window(capacity, rate, ts, i, n - 1) - ts[n - 1].paid + Yield(rate, ts[n].at - ts[n - 1].at) + ts[n].gift
  {
    hide Yield;
    YieldAdds(rate, ts[n - 1].at - ts[i].at, ts[n].at - ts[n - 1].at);
    assert (ts[n - 1].at - ts[i].at) + (ts[n].at - ts[n - 1].at) == ts[n].at - ts[i].at;
  }

  lemma WindowStarts(capacity: real, rate: real, ts: seq<Turn>, n: nat)
    requires n < |ts|
    ensures Window(capacity, rate, ts, n, n) == capacity + ts[n].gift
  {
    assert Gifts(ts, n, n + 1) == Gifts(ts, n, n) + ts[n].gift;
    assert Yield(rate, 0.0) == 0.0;
  }

  /** The level is the tightest of the windows that end now. */
  lemma {:induction false} Tightest(capacity: real, rate: real, ts: seq<Turn>, n: nat) returns (i: nat)
    requires n < |ts|
    ensures i <= n && LevelAt(capacity, rate, ts, n) == Window(capacity, rate, ts, i, n)
    ensures forall j: nat :: j <= n ==> LevelAt(capacity, rate, ts, n) <= Window(capacity, rate, ts, j, n)
    decreases n
  {
    hide Yield, Window;
    WindowStarts(capacity, rate, ts, n);
    i := n;
    if n > 0 {
      var k := Tightest(capacity, rate, ts, n - 1);
      WindowGrows(capacity, rate, ts, k, n);
      forall j: nat | j < n
        ensures Window(capacity, rate, ts, j, n) >= Window(capacity, rate, ts, k, n)
      {
        WindowGrows(capacity, rate, ts, j, n);
      }
      if LevelAt(capacity, rate, ts, n) != capacity + ts[n].gift { i := k; }
    }
  }

  /** There is enough for a cost if and only if no window that ends now forbids it. */
  lemma EnoughExact(capacity: real, rate: real, ts: seq<Turn>, n: nat, cost: real)
    requires n < |ts|
    ensures LevelAt(capacity, rate, ts, n) >= cost <==>
            forall i: nat :: i <= n ==> Window(capacity, rate, ts, i, n) >= cost
  {
    hide Window, LevelAt;
    var i := Tightest(capacity, rate, ts, n);
  }
}
