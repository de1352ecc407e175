/** The traffic light: its phase, one iteration of the timing loop that
    toggles the phase and publishes it on the message queue, a bounded run of
    that loop over a series of clock readings, and the consumer that waits
    for green. Threads, sleeps, the clock and the random generator are not
    modelled: clock readings and the drawn cycle length are parameters. */
module TrafficLights {
  import opened MessageQueues

  datatype Phase = Red | Green

  datatype Option<T> = None | Some(value: T)

  /** The bounds of the uniform draw of the cycle length, in milliseconds. */
  const MinCycle: int := 4000
  const MaxCycle: int := 6000

  /** The phase a toggle moves to: red becomes green, green becomes red. */
  function Toggle(p: Phase): (r: Phase)
    ensures r != p
  {
    if p == Red then Green else Red
  }

  /** Two toggles restore the phase. */
  lemma ToggleTwiceRestores(p: Phase)
    ensures Toggle(Toggle(p)) == p
  {
  }

  /** Whether an iteration of the timing loop toggles: the milliseconds
      elapsed since the loop started have reached the drawn cycle length.
      Because the draw lies in [MinCycle, MaxCycle], nothing toggles before
      MinCycle and everything toggles from MaxCycle on. */
  function Fires(elapsed: int, randomNo: int): (b: bool)
    requires MinCycle <= randomNo <= MaxCycle
    ensures elapsed < MinCycle ==> !b
    ensures elapsed >= MaxCycle ==> b
  {
    elapsed >= randomNo
  }

  /** Clock readings that never go backwards. */
  ghost predicate NonDecreasing(readings: seq<int>)
  {
    forall k :: 0 < k < |readings| ==> readings[k - 1] <= readings[k]
  }

  /** `timeNow` and `randomNo` are fixed for the whole loop, so once an
      iteration toggles, every later iteration toggles too as long as the
      clock does not go backwards. */
  lemma {:induction false} FiringPersists(timeNow: int, readings: seq<int>, randomNo: int, i: nat, j: nat)
    requires MinCycle <= randomNo <= MaxCycle
    requires NonDecreasing(readings)
    requires i <= j < |readings|
    requires Fires(readings[i] - timeNow, randomNo)
    ensures Fires(readings[j] - timeNow, randomNo)
  {
    if i < j {
      FiringPersists(timeNow, readings, randomNo, i, j - 1);
      assert readings[j - 1] <= readings[j];
    }
  }

  /** The state after a run of the timing loop: one iteration per clock
      reading, with the start time and the cycle length fixed. The loop only
      appends to the queue, at most once per iteration. */
  function Run(phase: Phase, buf: seq<Phase>, timeNow: int, readings: seq<int>, randomNo: int): (r: (Phase, seq<Phase>))
    requires MinCycle <= randomNo <= MaxCycle
    ensures |buf| <= |r.1| <= |buf| + |readings|
    ensures r.1[..|buf|] == buf
    decreases |readings|
  {
    if readings == [] then (phase, buf)
    else if Fires(readings[0] - timeNow, randomNo) then
      Run(Toggle(phase), buf + [Toggle(phase)], timeNow, readings[1..], randomNo)
    else
      Run(phase, buf, timeNow, readings[1..], randomNo)
  }

  /** How many of the readings make their iteration toggle. */
  function FiringCount(timeNow: int, readings: seq<int>, randomNo: int): (n: nat)
    requires MinCycle <= randomNo <= MaxCycle
    ensures n <= |readings|
    ensures (forall k :: 0 <= k < |readings| ==> !Fires(readings[k] - timeNow, randomNo)) ==> n == 0
  {
    if readings == [] then 0
    else (if Fires(readings[0] - timeNow, randomNo) then 1 else 0)
         + FiringCount(timeNow, readings[1..], randomNo)
  }

  /** The phases published by `n` successive toggles starting from `p`:
      they alternate, beginning with the phase opposite to `p`. */
  function Alternation(p: Phase, n: nat): (r: seq<Phase>)
    ensures |r| == n
    ensures forall i :: 0 <= i < n ==> r[i] == (if i % 2 == 0 then Toggle(p) else p)
    decreases n
  {
    if n == 0 then [] else [Toggle(p)] + Alternation(Toggle(p), n - 1)
  }

  /** The phase after `n` toggles from `p`. */
  function Flipped(p: Phase, n: nat): (r: Phase)
  {
    if n % 2 == 0 then p else Toggle(p)
  }

  /** One toggle followed by `m` more is `m + 1` toggles. */
  lemma ToggleThenAlternate(p: Phase, buf: seq<Phase>, m: nat)
    ensures Flipped(Toggle(p), m) == Flipped(p, m + 1)
    ensures buf + [Toggle(p)] + Alternation(Toggle(p), m) == buf + Alternation(p, m + 1)
  {
    assert Alternation(p, m + 1) == [Toggle(p)] + Alternation(Toggle(p), m);
  }

  /** A run of the loop appends to the queue exactly one phase per toggling
      iteration, those phases alternate starting from the opposite of the
      initial phase, and the final phase is that of the parity of toggles. */
  lemma {:induction false} RunPublishesAlternation(phase: Phase, buf: seq<Phase>, timeNow: int, readings: seq<int>, randomNo: int)
    requires MinCycle <= randomNo <= MaxCycle
    ensures Run(phase, buf, timeNow, readings, randomNo)
         == (Flipped(phase, FiringCount(timeNow, readings, randomNo)),
             buf + Alternation(phase, FiringCount(timeNow, readings, randomNo)))
    decreases |readings|
  {
    if readings == [] {
      assert buf + Alternation(phase, 0) == buf;
    } else {
      var rest := readings[1..];
      var m := FiringCount(timeNow, rest, randomNo);
      if Fires(readings[0] - timeNow, randomNo) {
        var next := Toggle(phase);
        assert Run(phase, buf, timeNow, readings, randomNo) == Run(next, buf + [next], timeNow, rest, randomNo);
        assert FiringCount(timeNow, readings, randomNo) == m + 1;
        RunPublishesAlternation(next, buf + [next], timeNow, rest, randomNo);
        ToggleThenAlternate(phase, buf, m);
      } else {
        assert Run(phase, buf, timeNow, readings, randomNo) == Run(phase, buf, timeNow, rest, randomNo);
        assert FiringCount(timeNow, readings, randomNo) == m;
        RunPublishesAlternation(phase, buf, timeNow, rest, randomNo);
      }
    }
  }

  /** After a run in which the light toggled at least once, the last phase
      on the queue is the light's current phase. */
  lemma RunEndsOnLastPublished(phase: Phase, buf: seq<Phase>, timeNow: int, readings: seq<int>, randomNo: int)
    requires MinCycle <= randomNo <= MaxCycle
    requires FiringCount(timeNow, readings, randomNo) > 0
    ensures var (p, q) := Run(phase, buf, timeNow, readings, randomNo);
            |q| > |buf| && q[|q| - 1] == p
  {
    RunPublishesAlternation(phase, buf, timeNow, readings, randomNo);
  }

  /** Once the threshold is crossed at the first reading of a run whose
      clock never goes backwards, every iteration toggles: the queue gains
      one phase per reading. */
  lemma {:induction false} EveryIterationFiresAfterThreshold(timeNow: int, readings: seq<int>, randomNo: int)
    requires MinCycle <= randomNo <= MaxCycle
    requires NonDecreasing(readings)
    requires |readings| > 0 && Fires(readings[0] - timeNow, randomNo)
    ensures FiringCount(timeNow, readings, randomNo) == |readings|
    decreases |readings|
  {
    if |readings| > 1 {
      var rest := readings[1..];
      FiringPersists(timeNow, readings, randomNo, 0, 1);
      assert NonDecreasing(rest) by {
        forall k | 0 < k < |rest|
          ensures rest[k - 1] <= rest[k]
        {
          assert rest[k - 1] == readings[k] && rest[k] == readings[k + 1];
        }
      }
      EveryIterationFiresAfterThreshold(timeNow, rest, randomNo);
    }
  }

  /** The traffic light: its current phase and the queue on which it
      publishes every change of phase. */
  class TrafficLight {
    var currentPhase: Phase
    const queue: MessageQueue<Phase>

    /** A new light is red and has published nothing. */
    constructor ()
      ensures currentPhase == Red
      ensures fresh(queue) && queue.queue == []
    {
      currentPhase := Red;
      queue := new MessageQueue<Phase>();
    }

    /** The phase last committed by the timing loop; reading it changes
        nothing. */
    function GetCurrentPhase(): (p: Phase)
      reads this
      ensures p == currentPhase
    {
      currentPhase
    }

    /** One iteration of the timing loop, given the milliseconds elapsed
        since the loop started and the drawn cycle length. When the cycle
        length is reached the phase toggles and the new phase is sent;
        otherwise nothing changes. */
    method CycleStep(elapsed: int, randomNo: int)
      requires MinCycle <= randomNo <= MaxCycle
      modifies this, queue
      ensures Fires(elapsed, randomNo) ==>
                currentPhase == Toggle(old(currentPhase))
                && queue.queue == old(queue.queue) + [currentPhase]
      ensures !Fires(elapsed, randomNo) ==>
                currentPhase == old(currentPhase) && queue.queue == old(queue.queue)
    {
      if elapsed >= randomNo {
        if GetCurrentPhase() == Red {
          currentPhase := Green;
        } else {
          currentPhase := Red;
        }
        queue.Send(currentPhase);
      }
    }

    /** The timing loop bounded to one iteration per clock reading. The
        cycle length is drawn once and the start time read once, before the
        loop; neither is renewed after a toggle. */
    method CycleThroughPhases(timeNow: int, readings: seq<int>, randomNo: int)
      requires MinCycle <= randomNo <= MaxCycle
      modifies this, queue
      ensures (currentPhase, queue.queue)
           == Run(old(currentPhase), old(queue.queue), timeNow, readings, randomNo)
    {
      for i := 0 to |readings|
        invariant Run(old(currentPhase), old(queue.queue), timeNow, readings, randomNo)
               == Run(currentPhase, queue.queue, timeNow, readings[i..], randomNo)
      {
        assert readings[i..][1..] == readings[i + 1..];
        var laterTime := readings[i];
        CycleStep(laterTime - timeNow, randomNo);
      }
    }

    /** Takes phases from the queue until one is green. Returns true when a
        green was taken; returns false, with the queue emptied, at the point
        where the source's receive would block waiting for a new phase. */
    method WaitForGreen() returns (returned: bool)
      modifies queue
      ensures returned == ConsumeUntilGreen(old(queue.queue)).Some?
      ensures returned ==> queue.queue == ConsumeUntilGreen(old(queue.queue)).value
      ensures !returned ==> queue.queue == []
    {
      while true
        invariant ConsumeUntilGreen(queue.queue) == ConsumeUntilGreen(old(queue.queue))
        decreases |queue.queue|
      {
        if |queue.queue| == 0 {
          return false;
        }
        var msg := queue.Receive();
        if msg == Green {
          return true;
        }
      }
    }
  }

  /** Popping from the back of `buf` until a green is popped. `None` when no
      green is in the buffer (the waiter would block); otherwise the buffer
      that is left, which ends just before the last green, with only reds
      popped after it. */
  function ConsumeUntilGreen(buf: seq<Phase>): (r: Option<seq<Phase>>)
    ensures r.Some? <==> Green in buf
    ensures r.Some? ==>
              |r.value| < |buf| && r.value == buf[..|r.value|] && buf[|r.value|] == Green
              && forall k :: |r.value| < k < |buf| ==> buf[k] == Red
    decreases |buf|
  {
    if buf == [] then None
    else if buf[|buf| - 1] == Green then Some(buf[..|buf| - 1])
    else ConsumeUntilGreen(buf[..|buf| - 1])
  }

  /** A light just built reports red. */
  method NewLightIsRed() returns (p: Phase)
    ensures p == Red
  {
    var light := new TrafficLight();
    p := light.GetCurrentPhase();
  }

  /** A new light runs one iteration of its loop and then a waiter waits for
      green: the waiter returns exactly when that iteration toggled, and the
      light is then green. */
  method FirstToggleReleasesWaiter(elapsed: int, randomNo: int) returns (returned: bool, p: Phase)
    requires MinCycle <= randomNo <= MaxCycle
    ensures returned == Fires(elapsed, randomNo)
    ensures p == (if returned then Green else Red)
  {
    var light := new TrafficLight();
    light.CycleStep(elapsed, randomNo);
    returned := light.WaitForGreen();
    p := light.GetCurrentPhase();
  }
}
