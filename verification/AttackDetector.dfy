/** The attack-mode debouncer of mango-waf/core/server.go against its window. */
module AttackDetector {

  const QUIET_TICKS: nat := 10

  datatype Detector = Detector(underAttack: bool, normalCount: nat, attacksDetected: nat, startTime: int)

  const IDLE: Detector := Detector(false, 0, 0, 0)

  /** One sample: whether it exceeded the threshold, and when it was taken. */
  datatype Sample = Sample(hot: bool, at: int)

  function Step(d: Detector, s: Sample): Detector {
    if s.hot then
      if d.underAttack then d.(normalCount := 0) else Detector(true, 0, d.attacksDetected + 1, s.at)
    else if !d.underAttack then d
    else if d.normalCount + 1 >= QUIET_TICKS then d.(underAttack := false, normalCount := 0)
    else d.(normalCount := d.normalCount + 1)
  }

  class Shield {
    var normalCount: nat
    var isUnderAttack: bool
    var attacksDetected: nat
    var attackStartTime: int

    ghost function View(): Detector
      reads this
    {
      Detector(isUnderAttack, normalCount, attacksDetected, attackStartTime)
    }

    constructor ()
      ensures View() == IDLE
    {
      normalCount, isUnderAttack, attacksDetected, attackStartTime := 0, false, 0, 0;
    }

    /** One tick of attackDetector. */
    method Tick(rps: int, threshold: int, now: int)
      modifies this
      ensures View() == Step(old(View()), Sample(rps > threshold, now))
    {
      if rps > threshold {
        normalCount := 0;
        if !isUnderAttack {
          isUnderAttack := true;
          attackStartTime := now;
          attacksDetected := attacksDetected + 1;
        }
      } else if isUnderAttack {
        normalCount := normalCount + 1;
        if normalCount >= QUIET_TICKS {
          isUnderAttack := false;
          normalCount := 0;
        }
      }
    }
  }

  function After(ss: seq<Sample>): Detector {
    if ss == [] then IDLE else Step(After(ss[..|ss| - 1]), ss[|ss| - 1])
  }

  /** One of the last ten samples exceeded the threshold. */
  ghost predicate RecentlyHot(ss: seq<Sample>) {
    exists i :: 0 <= i < |ss| && |ss| - 10 <= i && ss[i].hot
  }

  /** The last sample exceeded the threshold and none of the ten before it did. */
  ghost predicate RisesAtEnd(ss: seq<Sample>) {
    ss != [] && ss[|ss| - 1].hot && !RecentlyHot(ss[..|ss| - 1])
  }

  ghost function RisingEdges(ss: seq<Sample>): nat {
    if ss == [] then 0 else RisingEdges(ss[..|ss| - 1]) + (if RisesAtEnd(ss) then 1 else 0)
  }

  /** When the last rising edge was sampled; 0 before the first. */
  ghost function LastEdge(ss: seq<Sample>): int {
    if ss == [] then 0 else if RisesAtEnd(ss) then ss[|ss| - 1].at else LastEdge(ss[..|ss| - 1])
  }

  /** Normal samples since the last hot one; all of them if there was none. */
  function Quiet(ss: seq<Sample>): nat {
    if ss == [] then 0
    else if ss[|ss| - 1].hot then 0
    else Quiet(ss[..|ss| - 1]) + 1
  }

  lemma {:induction false} QuietIsTail(ss: seq<Sample>)
    ensures Quiet(ss) <= |ss|
    ensures forall i :: |ss| - Quiet(ss) <= i < |ss| ==> !ss[i].hot
    ensures Quiet(ss) < |ss| ==> ss[|ss| - Quiet(ss) - 1].hot
    decreases |ss|
  {
    if ss != [] && !ss[|ss| - 1].hot {
      QuietIsTail(ss[..|ss| - 1]);
    }
  }

  lemma RecentIffShortQuiet(ss: seq<Sample>)
    ensures RecentlyHot(ss) <==> Quiet(ss) < 10 && Quiet(ss) < |ss|
  {
    QuietIsTail(ss);
    if Quiet(ss) < 10 && Quiet(ss) < |ss| {
      assert ss[|ss| - Quiet(ss) - 1].hot;
    }
  }

  /** Over every sequence of samples, attack mode is on exactly when one of the
      last ten exceeded the threshold, the attack counter is the number of rising
      edges, and the start time is that of the last one. */
  lemma {:induction false} DetectorIsWindow(ss: seq<Sample>)
    ensures After(ss).underAttack <==> RecentlyHot(ss)
    ensures After(ss).attacksDetected == RisingEdges(ss) && After(ss).startTime == LastEdge(ss)
    ensures After(ss).underAttack ==> After(ss).normalCount == Quiet(ss)
    decreases |ss|
  {
    RecentIffShortQuiet(ss);
    if ss != [] {
      var before := ss[..|ss| - 1];
      DetectorIsWindow(before);
      RecentIffShortQuiet(before);
    }
  }
}
