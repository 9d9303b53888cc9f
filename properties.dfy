/**
 * What the suppression state machine guarantees over any interleaving of
 * pointer samples, timer expiries and scroll-wheel events.
 */
module SuppressionProperties {
  import opened SuppressionModel

  /** Every state reached by enabled events keeps the invariant, and time only advances. */
  lemma {:induction false} RunPreservesInv(s: State, es: seq<Event>)
    requires Inv(s) && ValidTrace(s, es)
    ensures Inv(Run(s, es))
    ensures Run(s, es).now >= s.now
    decreases |es|
  {
    if es != [] {
      StepPreservesInv(s, es[0]);
      RunPreservesInv(Step(s, es[0]), es[1..]);
    }
  }

  /** From launch, each flag is set exactly while its timer is pending. */
  lemma FlagsMatchPendingTimers(t: int, es: seq<Event>)
    requires ValidTrace(Launched(t), es)
    ensures Run(Launched(t), es).isMouseMoving <==> Run(Launched(t), es).suppressionTimer.Pending?
    ensures Run(Launched(t), es).isWheelSpinning <==> Run(Launched(t), es).wheelSuppressionTimer.Pending?
  {
    RunPreservesInv(Launched(t), es);
  }

  /** `es` holds no expiry of the wheel timer. */
  predicate NoWheelExpiry(es: seq<Event>)
  {
    forall i :: 0 <= i < |es| ==> !es[i].WheelTimerFired?
  }

  /** Once spinning, the wheel stays spinning until its timer fires, whatever else happens. */
  lemma {:induction false} SpinningUntilWheelTimerFires(s: State, es: seq<Event>)
    requires s.isWheelSpinning
    requires NoWheelExpiry(es)
    ensures Run(s, es).isWheelSpinning
    decreases |es|
  {
    if es != [] {
      assert !es[0].WheelTimerFired?;
      assert NoWheelExpiry(es[1..]) by {
        forall i | 0 <= i < |es[1..]| ensures !es[1..][i].WheelTimerFired? {
          assert es[1..][i] == es[i + 1];
        }
      }
      SpinningUntilWheelTimerFires(Step(s, es[0]), es[1..]);
    }
  }

  /**
   * After a dropped scroll-wheel event, every later scroll-wheel event is
   * dropped until the wheel timer fires, even once the pointer has stopped.
   */
  lemma DropsUntilWheelTimerFires(s: State, t: int, es: seq<Event>, t': int)
    requires OnScrollWheel(s, t, true).verdict == Drop
    requires NoWheelExpiry(es)
    ensures OnScrollWheel(Run(OnScrollWheel(s, t, true).next, es), t', true).verdict == Drop
  {
    SpinningUntilWheelTimerFires(OnScrollWheel(s, t, true).next, es);
  }

  /** Every event of `es` happens strictly before time `d`. */
  predicate AllBefore(es: seq<Event>, d: int)
  {
    forall i :: 0 <= i < |es| ==> es[i].t < d
  }

  lemma AllBeforeTail(es: seq<Event>, d: int)
    requires es != [] && AllBefore(es, d)
    ensures es[0].t < d && AllBefore(es[1..], d)
  {
    forall i | 0 <= i < |es[1..]| ensures es[1..][i].t < d {
      assert es[1..][i] == es[i + 1];
    }
  }

  /**
   * A wheel timer due no earlier than `d` keeps the wheel spinning through
   * any events that all happen before `d`: re-arming only pushes the
   * deadline later, and no older timer can fire in between.
   */
  lemma {:induction false} WheelDeadlineHolds(s: State, es: seq<Event>, d: int)
    requires ValidTrace(s, es)
    requires s.isWheelSpinning && s.wheelSuppressionTimer.Pending? && s.wheelSuppressionTimer.deadline >= d
    requires d <= s.now + WheelTimerDelay
    requires AllBefore(es, d)
    ensures Run(s, es).isWheelSpinning
    ensures Run(s, es).wheelSuppressionTimer.Pending? && Run(s, es).wheelSuppressionTimer.deadline >= d
    decreases |es|
  {
    if es != [] {
      AllBeforeTail(es, d);
      WheelDeadlineHolds(Step(s, es[0]), es[1..], d);
    }
  }

  /** Every scroll-wheel event within 0.5 s of a dropped one is dropped too. */
  lemma DroppedWithinWheelDelay(s: State, t0: int, es: seq<Event>, t1: int)
    requires OnScrollWheel(s, t0, true).verdict == Drop
    requires ValidTrace(OnScrollWheel(s, t0, true).next, es)
    requires AllBefore(es, t0 + WheelTimerDelay)
    requires t1 < t0 + WheelTimerDelay
    ensures OnScrollWheel(Run(OnScrollWheel(s, t0, true).next, es), t1, true).verdict == Drop
  {
    WheelDeadlineHolds(OnScrollWheel(s, t0, true).next, es, t0 + WheelTimerDelay);
  }

  /** The mouse-timer counterpart of `WheelDeadlineHolds`. */
  lemma {:induction false} MouseDeadlineHolds(s: State, es: seq<Event>, d: int)
    requires ValidTrace(s, es)
    requires s.isMouseMoving && s.suppressionTimer.Pending? && s.suppressionTimer.deadline >= d
    requires d <= s.now + MouseTimerDelay
    requires AllBefore(es, d)
    ensures Run(s, es).isMouseMoving
    ensures Run(s, es).suppressionTimer.Pending? && Run(s, es).suppressionTimer.deadline >= d
    decreases |es|
  {
    if es != [] {
      AllBeforeTail(es, d);
      MouseDeadlineHolds(Step(s, es[0]), es[1..], d);
    }
  }

  /** Every scroll-wheel event within 0.1 s of a pointer step longer than 5.0 is dropped. */
  lemma DroppedWithinMouseDelay(s: State, t0: int, p: Point, es: seq<Event>, t1: int)
    requires s.lastMousePosition.Some? && ExceedsThreshold(s.lastMousePosition.value, p)
    requires ValidTrace(OnPointerSample(s, t0, p), es)
    requires AllBefore(es, t0 + MouseTimerDelay)
    requires t1 < t0 + MouseTimerDelay
    ensures OnScrollWheel(Run(OnPointerSample(s, t0, p), es), t1, true).verdict == Drop
  {
    MouseDeadlineHolds(OnPointerSample(s, t0, p), es, t0 + MouseTimerDelay);
  }

  /**
   * Re-arming cancels the pending timer: after a dropped event at `t`, no
   * expiry earlier than `t + 500` is possible, whatever was pending before.
   */
  lemma RearmCancelsPendingWheelTimer(s: State, t: int, t': int)
    requires OnScrollWheel(s, t, true).verdict == Drop
    requires t' < t + WheelTimerDelay
    ensures !Enabled(OnScrollWheel(s, t, true).next, WheelTimerFired(t'))
  {
  }

  /** The same for the mouse timer after a pointer step longer than 5.0 at `t`. */
  lemma RearmCancelsPendingMouseTimer(s: State, t: int, p: Point, t': int)
    requires s.lastMousePosition.Some? && ExceedsThreshold(s.lastMousePosition.value, p)
    requires t' < t + MouseTimerDelay
    ensures !Enabled(OnPointerSample(s, t, p), MouseTimerFired(t'))
  {
  }

  /** Each sample of `es` is within the threshold of the one before it, starting from `from`. */
  predicate SmallSteps(from: Point, es: seq<Event>)
    decreases |es|
  {
    es == [] || (es[0].MouseMoved? && !ExceedsThreshold(from, es[0].position) && SmallSteps(es[0].position, es[1..]))
  }

  /**
   * Distance is measured from the previous sample only: samples that each
   * move at most 5.0 never count as movement, however far they go in total.
   */
  lemma {:induction false} SmallStepsChangeNoFlag(s: State, es: seq<Event>)
    requires s.lastMousePosition.Some? && SmallSteps(s.lastMousePosition.value, es)
    ensures Run(s, es).isMouseMoving == s.isMouseMoving && Run(s, es).isWheelSpinning == s.isWheelSpinning
    ensures Run(s, es).suppressionTimer == s.suppressionTimer
    ensures Run(s, es).wheelSuppressionTimer == s.wheelSuppressionTimer
    decreases |es|
  {
    if es != [] {
      SmallStepsChangeNoFlag(Step(s, es[0]), es[1..]);
    }
  }

  /** Drift made of small steps never suppresses scrolling: the next scroll-wheel event passes. */
  lemma SmallStepsKeepScrolling(s: State, es: seq<Event>, t: int)
    requires !s.isMouseMoving && !s.isWheelSpinning
    requires s.lastMousePosition.Some? && SmallSteps(s.lastMousePosition.value, es)
    ensures OnScrollWheel(Run(s, es), t, true).verdict == Pass
  {
    SmallStepsChangeNoFlag(s, es);
  }

  /** Three steps of 4.0 along one axis: none counts, yet the pointer ends 12.0 away. */
  lemma SmallStepsCanAddUp()
    ensures SmallSteps(Point(0.0, 0.0), [MouseMoved(0, Point(4.0, 0.0)), MouseMoved(1, Point(8.0, 0.0)), MouseMoved(2, Point(12.0, 0.0))])
    ensures ExceedsThreshold(Point(0.0, 0.0), Point(12.0, 0.0))
  {
  }
}
