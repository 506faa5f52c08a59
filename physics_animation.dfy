/**
 * The time-stepping driver shared by the physics solvers. An animation is
 * updated frame by frame; each frame is advanced in sub-steps, either a
 * fixed number of equal ones or adaptively, where the solver chooses how
 * many sub-steps the remaining interval needs. The solver's own hooks
 * (`onInitialize`, `onAdvanceTimeStep`) are recorded as events in `log`.
 */
module Animation {
  import opened Wrappers

  /** `kEpsilonD`: the machine epsilon of `double`, 2^-52. */
  const kEpsilonD: real := 1.0 / 0x10_0000_0000_0000 as real

  /** A frame: its index and the length of one frame in seconds. */
  datatype Frame = Frame(index: int, timeIntervalInSeconds: real)

  /** A call into the solver's hooks. */
  datatype Event = Initialized | Advanced(dt: real)

  /** The number of occurrences of `e` in the log. */
  function Count(log: seq<Event>, e: Event): nat
  {
    if |log| == 0 then 0 else Count(log[..|log| - 1], e) + (if log[|log| - 1] == e then 1 else 0)
  }

  lemma {:induction false} CountAppend(a: seq<Event>, b: seq<Event>, e: Event)
    ensures Count(a + b, e) == Count(a, e) + Count(b, e)
    decreases |b|
  {
    if |b| > 0 {
      assert (a + b)[..|a + b| - 1] == a + b[..|b| - 1];
      assert (a + b)[|a + b| - 1] == b[|b| - 1];
      CountAppend(a, b[..|b| - 1], e);
      assert Count(a + b, e) == Count(a + b[..|b| - 1], e) + (if b[|b| - 1] == e then 1 else 0);
    } else {
      assert a + b == a;
    }
  }

  /** The sum of the sub-step lengths, in order. */
  function Sum(steps: seq<real>): real
  {
    if |steps| == 0 then 0.0 else Sum(steps[..|steps| - 1]) + steps[|steps| - 1]
  }

  lemma {:induction false} SumAppend(a: seq<real>, b: seq<real>)
    ensures Sum(a + b) == Sum(a) + Sum(b)
    decreases |b|
  {
    if |b| > 0 {
      assert (a + b)[..|a + b| - 1] == a + b[..|b| - 1];
      assert (a + b)[|a + b| - 1] == b[|b| - 1];
      SumAppend(a, b[..|b| - 1]);
      assert Sum(a + b) == Sum(a + b[..|b| - 1]) + b[|b| - 1];
    } else {
      assert a + b == a;
    }
  }

  lemma SumSnoc(a: seq<real>, x: real)
    ensures Sum(a + [x]) == Sum(a) + x
  {
    assert (a + [x])[..|a|] == a;
  }

  /** `onAdvanceTimeStep` called once per sub-step, in order. */
  function Advances(steps: seq<real>): (r: seq<Event>)
    ensures |r| == |steps| && forall k :: 0 <= k < |steps| ==> r[k] == Advanced(steps[k])
  {
    seq(|steps|, k requires 0 <= k < |steps| => Advanced(steps[k]))
  }

  lemma AdvancesAppend(a: seq<real>, b: seq<real>)
    ensures Advances(a + b) == Advances(a) + Advances(b)
  {
  }

  lemma ConcatAssoc<T>(a: seq<T>, b: seq<T>, c: seq<T>)
    ensures (a + b) + c == a + (b + c)
  {
  }

  lemma AdvancesNeverInitialize(steps: seq<real>)
    ensures Count(Advances(steps), Initialized) == 0
  {
    if |steps| > 0 {
      assert Advances(steps)[..|steps| - 1] == Advances(steps[..|steps| - 1]);
      AdvancesNeverInitialize(steps[..|steps| - 1]);
    }
  }

  /** One of `n` equal parts of `t`. */
  function Portion(t: real, n: nat): real
    requires n > 0
  {
    t / n as real
  }

  /** `n` parts make the whole. */
  lemma PortionTimes(t: real, n: nat)
    requires n > 0
    ensures Portion(t, n) * n as real == t
  {
  }

  /** A part of a non-negative time is no longer than the whole, and positive when the whole is. */
  lemma PortionBounds(t: real, n: nat)
    requires n > 0 && t >= 0.0
    ensures 0.0 <= Portion(t, n) <= t
    ensures t > 0.0 ==> Portion(t, n) > 0.0
  {
  }

  /** Fixed sub-stepping: `n` equal sub-steps of `dt / n`. */
  function FixedSteps(n: nat, dt: real): (r: seq<real>)
    ensures |r| == n && forall k :: 0 <= k < n ==> r[k] == Portion(dt, n)
  {
    if n == 0 then [] else seq(n, _ => Portion(dt, n))
  }

  /** The fixed sub-steps add up to the whole interval. */
  lemma {:induction false} FixedStepsSum(n: nat, dt: real)
    requires n > 0
    ensures Sum(FixedSteps(n, dt)) == dt
  {
    var s := Portion(dt, n);
    var k := 0;
    while k < n
      invariant 0 <= k <= n
      invariant Sum(FixedSteps(n, dt)[..k]) == k as real * s
    {
      assert FixedSteps(n, dt)[..k + 1][..k] == FixedSteps(n, dt)[..k];
      k := k + 1;
    }
    assert FixedSteps(n, dt)[..n] == FixedSteps(n, dt);
    PortionTimes(dt, n);
  }

  /**
   * Adaptive sub-stepping from `remaining` seconds: while more than
   * `kEpsilonD` remains, one sub-step of `remaining / count(remaining)`.
   * `fuel` bounds the number of sub-steps.
   */
  function AdaptiveSteps(remaining: real, count: real -> nat, fuel: nat): seq<real>
    requires forall t :: count(t) >= 1
    decreases fuel
  {
    if remaining <= kEpsilonD || fuel == 0 then []
    else
      var s := Portion(remaining, count(remaining));
      [s] + AdaptiveSteps(remaining - s, count, fuel - 1)
  }

  /** One adaptive sub-step, then the rest. */
  lemma AdaptiveStepsUnfold(remaining: real, count: real -> nat, fuel: nat)
    requires forall t :: count(t) >= 1
    requires remaining > kEpsilonD && fuel > 0
    ensures AdaptiveSteps(remaining, count, fuel)
            == [Portion(remaining, count(remaining))] + AdaptiveSteps(remaining - Portion(remaining, count(remaining)), count, fuel - 1)
  {
  }

  /** Sub-steps `done` so far, then one more sub-step, still lead to `steps`. */
  lemma AdaptiveStepsResume(done: seq<real>, remaining: real, count: real -> nat, fuel: nat, steps: seq<real>)
    requires forall t :: count(t) >= 1
    requires remaining > kEpsilonD && fuel > 0
    requires done + AdaptiveSteps(remaining, count, fuel) == steps
    ensures (done + [Portion(remaining, count(remaining))])
            + AdaptiveSteps(remaining - Portion(remaining, count(remaining)), count, fuel - 1) == steps
  {
    AdaptiveStepsUnfold(remaining, count, fuel);
    ConcatAssoc(done, [Portion(remaining, count(remaining))],
                AdaptiveSteps(remaining - Portion(remaining, count(remaining)), count, fuel - 1));
  }

  /** Once the loop stops, the sub-steps done are all of them. */
  lemma AdaptiveStepsStop(done: seq<real>, remaining: real, count: real -> nat, fuel: nat, steps: seq<real>)
    requires forall t :: count(t) >= 1
    requires remaining <= kEpsilonD || fuel == 0
    requires done + AdaptiveSteps(remaining, count, fuel) == steps
    ensures done == steps
  {
    assert AdaptiveSteps(remaining, count, fuel) == [];
    assert done + [] == done;
  }

  /** The time left when adaptive sub-stepping stops. */
  function AdaptiveRemaining(remaining: real, count: real -> nat, fuel: nat): real
    requires forall t :: count(t) >= 1
    decreases fuel
  {
    if remaining <= kEpsilonD || fuel == 0 then remaining
    else AdaptiveRemaining(remaining - Portion(remaining, count(remaining)), count, fuel - 1)
  }

  /**
   * The adaptive sub-steps add up to the interval minus what is left, and
   * what is left lies between zero and the interval.
   */
  lemma {:induction false} AdaptiveStepsSum(remaining: real, count: real -> nat, fuel: nat)
    requires forall t :: count(t) >= 1
    requires remaining >= 0.0
    ensures Sum(AdaptiveSteps(remaining, count, fuel)) == remaining - AdaptiveRemaining(remaining, count, fuel)
    ensures 0.0 <= AdaptiveRemaining(remaining, count, fuel) <= remaining
    decreases fuel
  {
    if remaining > kEpsilonD && fuel > 0 {
      var s := Portion(remaining, count(remaining));
      PortionBounds(remaining, count(remaining));
      var rest := AdaptiveSteps(remaining - s, count, fuel - 1);
      AdaptiveStepsSum(remaining - s, count, fuel - 1);
      SumAppend([s], rest);
      assert Sum([s]) == Sum([]) + s;
    }
  }

  /** Every adaptive sub-step moves time forward. */
  lemma {:induction false} AdaptiveStepsPositive(remaining: real, count: real -> nat, fuel: nat)
    requires forall t :: count(t) >= 1
    requires remaining >= 0.0
    ensures forall k :: 0 <= k < |AdaptiveSteps(remaining, count, fuel)| ==> AdaptiveSteps(remaining, count, fuel)[k] > 0.0
    decreases fuel
  {
    if remaining > kEpsilonD && fuel > 0 {
      var s := Portion(remaining, count(remaining));
      PortionBounds(remaining, count(remaining));
      var rest := AdaptiveSteps(remaining - s, count, fuel - 1);
      AdaptiveStepsPositive(remaining - s, count, fuel - 1);
      assert AdaptiveSteps(remaining, count, fuel) == [s] + rest;
      assert forall k :: 1 <= k < |[s] + rest| ==> ([s] + rest)[k] == rest[k - 1];
    }
  }

  /** Unless the fuel runs out, adaptive stepping stops with at most `kEpsilonD` left. */
  lemma {:induction false} AdaptiveStepsSettle(remaining: real, count: real -> nat, fuel: nat)
    requires forall t :: count(t) >= 1
    ensures |AdaptiveSteps(remaining, count, fuel)| < fuel ==> AdaptiveRemaining(remaining, count, fuel) <= kEpsilonD
    decreases fuel
  {
    if remaining > kEpsilonD && fuel > 0 {
      AdaptiveStepsSettle(remaining - Portion(remaining, count(remaining)), count, fuel - 1);
    }
  }

  /** When the solver always asks for one sub-step, adaptive stepping takes the whole interval at once. */
  lemma SingleAdaptiveStep(remaining: real, fuel: nat)
    requires remaining > kEpsilonD && fuel > 0
    ensures AdaptiveSteps(remaining, _ => 1, fuel) == [remaining]
  {
    assert AdaptiveSteps(0.0, _ => 1, fuel - 1) == [];
  }

  /** The sub-steps of `n` calls of `advanceTimeStep`, each with the same sub-steps. */
  function Repeated(n: nat, steps: seq<real>): seq<real>
  {
    if n == 0 then [] else Repeated(n - 1, steps) + steps
  }

  lemma RepeatedOnce(steps: seq<real>)
    ensures Repeated(1, steps) == steps
  {
    assert Repeated(1, steps) == [] + steps;
  }

  /** One more repetition appends the calls of one more `advanceTimeStep` to the log. */
  lemma RepeatedLog(base: seq<Event>, i: nat, steps: seq<real>)
    ensures base + Advances(Repeated(i + 1, steps)) == (base + Advances(Repeated(i, steps))) + Advances(steps)
  {
    assert Repeated(i + 1, steps) == Repeated(i, steps) + steps;
    AdvancesAppend(Repeated(i, steps), steps);
    ConcatAssoc(base, Advances(Repeated(i, steps)), Advances(steps));
  }

  class PhysicsAnimation {
    var currentFrame: Frame
    var currentTime: real
    var isInitialized: bool
    var isUsingFixedSubTimeSteps: bool
    var numberOfFixedSubTimeSteps: nat
    /** The solver's override of `numberOfSubTimeSteps`; `None` keeps the default. */
    var subStepsOverride: Option<real -> nat>
    /** `Frame::timeInSeconds`. */
    const timeOf: Frame -> real
    /** The bound on adaptive sub-steps per `advanceTimeStep`. */
    const adaptiveFuel: nat
    /** The solver hooks called so far. */
    var log: seq<Event>

    /** `onInitialize` has run exactly when the animation is initialized, and so at most once. */
    ghost predicate Valid()
      reads this`log, this`isInitialized
    {
      Count(log, Initialized) == if isInitialized then 1 else 0
    }

    /** A new animation: frame index -1 with the given interval, time 0, not initialized, nothing called. */
    constructor(timeOf: Frame -> real, adaptiveFuel: nat, fixed: bool, numberOfFixedSubTimeSteps: nat, frameInterval: real)
      ensures Valid() && currentFrame.index == -1 && !isInitialized && log == []
      ensures currentFrame.timeIntervalInSeconds == frameInterval && currentTime == 0.0
      ensures this.timeOf == timeOf && this.adaptiveFuel == adaptiveFuel
      ensures isUsingFixedSubTimeSteps == fixed && this.numberOfFixedSubTimeSteps == numberOfFixedSubTimeSteps
      ensures subStepsOverride == None
    {
      this.timeOf, this.adaptiveFuel := timeOf, adaptiveFuel;
      currentFrame := Frame(-1, frameInterval);
      currentTime := 0.0;
      isInitialized := false;
      isUsingFixedSubTimeSteps, this.numberOfFixedSubTimeSteps := fixed, numberOfFixedSubTimeSteps;
      subStepsOverride := None;
      log := [];
    }

    /** `numberOfSubTimeSteps`: the override's count, by default the fixed count whatever the interval. */
    function SubStepCount(): (count: real -> nat)
      reads this`subStepsOverride, this`numberOfFixedSubTimeSteps
      ensures subStepsOverride == None ==> forall t :: count(t) == numberOfFixedSubTimeSteps
    {
      match subStepsOverride
      case Some(f) => f
      case None => var n := numberOfFixedSubTimeSteps; _ => n
    }

    /** Adaptive stepping can divide by every count. */
    ghost predicate CountsPositive()
      reads this`isUsingFixedSubTimeSteps, this`subStepsOverride, this`numberOfFixedSubTimeSteps
    {
      isUsingFixedSubTimeSteps || forall t :: SubStepCount()(t) >= 1
    }

    /** The sub-steps one `advanceTimeStep(dt)` issues. */
    ghost function Steps(dt: real): seq<real>
      reads this`isUsingFixedSubTimeSteps, this`subStepsOverride, this`numberOfFixedSubTimeSteps
      requires CountsPositive()
    {
      if isUsingFixedSubTimeSteps then FixedSteps(numberOfFixedSubTimeSteps, dt)
      else AdaptiveSteps(dt, SubStepCount(), adaptiveFuel)
    }

    /** `initialize`: `onInitialize` on the first call only. */
    method Initialize()
      requires Valid()
      modifies this`isInitialized, this`log
      ensures Valid() && isInitialized
      ensures log == if old(isInitialized) then old(log) else old(log) + [Initialized]
    {
      if !isInitialized {
        CountAppend(log, [Initialized], Initialized);
        log := log + [Initialized];
        isInitialized := true;
      }
    }

    /**
     * `advanceTimeStep(dt)`: the time restarts at the current frame's time;
     * then each sub-step calls `onAdvanceTimeStep` and moves the time on by
     * its length - `n` steps of `dt / n` in fixed mode, and in adaptive mode
     * `remaining / numberOfSubTimeSteps(remaining)` while more than
     * `kEpsilonD` remains.
     */
    method AdvanceTimeStep(dt: real)
      requires Valid() && CountsPositive()
      modifies this`currentTime, this`log
      ensures Valid()
      ensures log == old(log) + Advances(Steps(dt))
      ensures currentTime == timeOf(currentFrame) + Sum(Steps(dt))
    {
      AdvancesNeverInitialize(Steps(dt));
      CountAppend(log, Advances(Steps(dt)), Initialized);
      currentTime := timeOf(currentFrame);
      if isUsingFixedSubTimeSteps {
        AdvanceFixed(dt);
      } else {
        AdvanceAdaptive(dt, SubStepCount());
      }
    }

    /** The fixed branch of `advanceTimeStep`. */
    method AdvanceFixed(dt: real)
      requires isUsingFixedSubTimeSteps
      modifies this`currentTime, this`log
      ensures log == old(log) + Advances(FixedSteps(numberOfFixedSubTimeSteps, dt))
      ensures currentTime == old(currentTime) + Sum(FixedSteps(numberOfFixedSubTimeSteps, dt))
    {
      var n := numberOfFixedSubTimeSteps;
      ghost var steps := FixedSteps(n, dt);
      var i := 0;
      while i < n
        invariant 0 <= i <= n
        invariant log == old(log) + Advances(steps[..i])
        invariant currentTime == old(currentTime) + Sum(steps[..i])
      {
        var actualTimeInterval := Portion(dt, n);
        assert steps[..i + 1] == steps[..i] + [actualTimeInterval];
        assert Advances(steps[..i + 1]) == Advances(steps[..i]) + [Advanced(actualTimeInterval)];
        log := log + [Advanced(actualTimeInterval)];
        currentTime := currentTime + actualTimeInterval;
        i := i + 1;
      }
      assert steps[..n] == steps;
    }

    /** The adaptive branch of `advanceTimeStep`. */
    method AdvanceAdaptive(dt: real, count: real -> nat)
      requires forall t :: count(t) >= 1
      modifies this`currentTime, this`log
      ensures log == old(log) + Advances(AdaptiveSteps(dt, count, adaptiveFuel))
      ensures currentTime == old(currentTime) + Sum(AdaptiveSteps(dt, count, adaptiveFuel))
    {
      ghost var steps := AdaptiveSteps(dt, count, adaptiveFuel);
      var remainingTime := dt;
      var fuel := adaptiveFuel;
      ghost var done: seq<real> := [];
      while remainingTime > kEpsilonD && fuel > 0
        invariant forall t :: count(t) >= 1
        invariant done + AdaptiveSteps(remainingTime, count, fuel) == steps
        invariant log == old(log) + Advances(done)
        invariant currentTime == old(currentTime) + Sum(done)
        decreases fuel
      {
        remainingTime, fuel, done := AdaptiveIteration(remainingTime, fuel, count, done, steps, old(log), old(currentTime));
      }
      AdaptiveStepsStop(done, remainingTime, count, fuel, steps);
    }

    /** One pass of the adaptive loop: one sub-step moves from the steps still to come to the steps done. */
    method AdaptiveIteration(remainingTime: real, fuel: nat, count: real -> nat,
                             ghost done: seq<real>, ghost steps: seq<real>, ghost log0: seq<Event>, ghost time0: real)
      returns (remainingTime': real, fuel': nat, ghost done': seq<real>)
      requires forall t :: count(t) >= 1
      requires remainingTime > kEpsilonD && fuel > 0
      requires done + AdaptiveSteps(remainingTime, count, fuel) == steps
      requires log == log0 + Advances(done) && currentTime == time0 + Sum(done)
      modifies this`currentTime, this`log
      ensures fuel' < fuel
      ensures done' + AdaptiveSteps(remainingTime', count, fuel') == steps
      ensures log == log0 + Advances(done') && currentTime == time0 + Sum(done')
    {
      var actualTimeInterval := AdaptiveSubStep(remainingTime, count);
      AdaptiveStepsResume(done, remainingTime, count, fuel, steps);
      AdvancesAppend(done, [actualTimeInterval]);
      ConcatAssoc(log0, Advances(done), [Advanced(actualTimeInterval)]);
      SumSnoc(done, actualTimeInterval);
      remainingTime' := remainingTime - actualTimeInterval;
      done' := done + [actualTimeInterval];
      fuel' := fuel - 1;
    }

    /** One adaptive sub-step: `onAdvanceTimeStep` with the remaining time over the solver's count. */
    method AdaptiveSubStep(remainingTime: real, count: real -> nat) returns (actualTimeInterval: real)
      requires count(remainingTime) >= 1
      modifies this`currentTime, this`log
      ensures actualTimeInterval == Portion(remainingTime, count(remainingTime))
      ensures log == old(log) + [Advanced(actualTimeInterval)]
      ensures currentTime == old(currentTime) + actualTimeInterval
    {
      var numSteps := count(remainingTime);
      actualTimeInterval := Portion(remainingTime, numSteps);
      log := log + [Advanced(actualTimeInterval)];
      currentTime := currentTime + actualTimeInterval;
    }

    /** `advanceTimeStep` once for each of `n` frames, each from the current frame's time. */
    method AdvanceFrames(n: nat, dt: real)
      requires Valid() && CountsPositive() && n > 0
      modifies this`currentTime, this`log
      ensures Valid()
      ensures log == old(log) + Advances(Repeated(n, Steps(dt)))
      ensures currentTime == timeOf(currentFrame) + Sum(Steps(dt))
    {
      ghost var steps := Steps(dt);
      var i := 0;
      while i < n
        invariant 0 <= i <= n && Valid()
        invariant CountsPositive() && steps == Steps(dt)
        invariant log == old(log) + Advances(Repeated(i, steps))
        invariant i > 0 ==> currentTime == timeOf(currentFrame) + Sum(steps)
      {
        AdvanceRepeat(dt, i, steps, old(log));
        i := i + 1;
      }
    }

    /** One pass of the frame loop: the calls of one more `advanceTimeStep` join the repeated ones. */
    method AdvanceRepeat(dt: real, i: nat, ghost steps: seq<real>, ghost log0: seq<Event>)
      requires Valid() && CountsPositive() && steps == Steps(dt)
      requires log == log0 + Advances(Repeated(i, steps))
      modifies this`currentTime, this`log
      ensures Valid()
      ensures log == log0 + Advances(Repeated(i + 1, steps))
      ensures currentTime == timeOf(currentFrame) + Sum(steps)
    {
      AdvanceTimeStep(dt);
      RepeatedLog(log0, i, steps);
    }

    /**
     * `onUpdate(frame)`: a frame not after the current one changes nothing;
     * otherwise the animation is initialized, `advanceTimeStep` runs once per
     * frame in between (each restarting from the current frame's time, which
     * is only replaced afterwards), and the frame becomes current.
     */
    method OnUpdate(frame: Frame)
      requires Valid() && CountsPositive()
      modifies this`currentTime, this`log, this`isInitialized, this`currentFrame
      ensures Valid()
      ensures frame.index <= old(currentFrame.index) ==>
                currentFrame == old(currentFrame) && log == old(log) && currentTime == old(currentTime)
                && isInitialized == old(isInitialized)
      ensures frame.index > old(currentFrame.index) ==>
                && currentFrame == frame && isInitialized
                && log == (if old(isInitialized) then old(log) else old(log) + [Initialized])
                          + Advances(Repeated(frame.index - old(currentFrame.index), Steps(frame.timeIntervalInSeconds)))
                && currentTime == timeOf(old(currentFrame)) + Sum(Steps(frame.timeIntervalInSeconds))
    {
      if frame.index > currentFrame.index {
        Initialize();
        var numberOfFrames := frame.index - currentFrame.index;
        AdvanceFrames(numberOfFrames, frame.timeIntervalInSeconds);
        currentFrame := frame;
      }
    }

    /** `advanceSingleFrame`: update to the frame after the current one. */
    method AdvanceSingleFrame()
      requires Valid() && CountsPositive()
      modifies this`currentTime, this`log, this`isInitialized, this`currentFrame
      ensures Valid() && currentFrame == old(currentFrame).(index := old(currentFrame.index) + 1)
      ensures log == (if old(isInitialized) then old(log) else old(log) + [Initialized])
                     + Advances(Steps(currentFrame.timeIntervalInSeconds))
      ensures isInitialized
      ensures currentTime == timeOf(old(currentFrame)) + Sum(Steps(currentFrame.timeIntervalInSeconds))
    {
      var f := currentFrame.(index := currentFrame.index + 1);
      OnUpdate(f);
      RepeatedOnce(Steps(f.timeIntervalInSeconds));
    }
  }

  /**
   * In any animation satisfying `Valid`, `onInitialize` appears at most once
   * in the log. The constructor establishes `Valid` and every method of the
   * class preserves it, so this holds after any sequence of calls.
   */
  lemma InitializedAtMostOnce(a: PhysicsAnimation)
    requires a.Valid()
    ensures Count(a.log, Initialized) <= 1
  {
  }
}
