/**
 * InnertiaStopper's AppDelegate as an object: the fields the callbacks update
 * in place, one method per callback, and the event-tap callback that recovers
 * the delegate from its context handle. Each method is specified by the
 * matching transition of `SuppressionModel`, applied to the fields before and
 * after the call.
 */
module InnertiaStopper {
  import opened Wrappers
  import opened SuppressionModel

  class AppDelegate {
    var lastMousePosition: Option<Point>
    var isMouseMoving: bool
    var suppressionTimer: Timer
    var wheelSuppressionTimer: Timer
    var isWheelSpinning: bool

    /** Time of the last callback delivered, in milliseconds; model only. */
    ghost var now: int

    /** The fields as a `SuppressionModel.State`. */
    ghost function Snapshot(): State
      reads this
    {
      State(lastMousePosition, isMouseMoving, isWheelSpinning, suppressionTimer, wheelSuppressionTimer, now)
    }

    ghost predicate Valid()
      reads this
    {
      Inv(Snapshot())
    }

    /** The delegate as the application creates it, launched at `launchedAt`. */
    constructor (ghost launchedAt: int)
      ensures Valid()
      ensures Snapshot() == Launched(launchedAt)
    {
      lastMousePosition := None;
      isMouseMoving := false;
      suppressionTimer := Idle;
      wheelSuppressionTimer := Idle;
      isWheelSpinning := false;
      now := launchedAt;
    }

    /** Cancels any pending mouse timer and schedules a new one at `t + 100`. */
    method StartMouseSuppressionTimer(t: int)
      modifies this`suppressionTimer
      ensures Snapshot() == SuppressionModel.StartMouseSuppressionTimer(old(Snapshot()), t)
    {
      suppressionTimer := Pending(t + MouseTimerDelay);
    }

    /** Cancels any pending wheel timer and schedules a new one at `t + 500`. */
    method StartWheelSuppressionTimer(t: int)
      modifies this`wheelSuppressionTimer
      ensures Snapshot() == SuppressionModel.StartWheelSuppressionTimer(old(Snapshot()), t)
    {
      wheelSuppressionTimer := Pending(t + WheelTimerDelay);
    }

    /** The mouse-moved monitor, for a sample at `currentMousePosition` at time `t`. */
    method MouseMoved(t: int, currentMousePosition: Point)
      requires Valid() && t >= now
      modifies this
      ensures Valid()
      ensures Snapshot() == OnPointerSample(old(Snapshot()), t, currentMousePosition)
    {
      if lastMousePosition.Some? {
        var lastPosition := lastMousePosition.value;
        if ExceedsThreshold(lastPosition, currentMousePosition) {
          isMouseMoving := true;
          StartMouseSuppressionTimer(t);
        }
      }
      lastMousePosition := Some(currentMousePosition);
      now := t;
      StepPreservesInv(old(Snapshot()), Event.MouseMoved(t, currentMousePosition));
    }

    /** The mouse timer fires at time `t`; the run loop fires only a pending timer, not before its deadline. */
    method MouseTimerFired(t: int)
      requires Valid() && Enabled(Snapshot(), Event.MouseTimerFired(t))
      modifies this
      ensures Valid()
      ensures Snapshot() == OnMouseTimerExpired(old(Snapshot()), t)
    {
      suppressionTimer := Idle;
      isMouseMoving := false;
      now := t;
    }

    /** The wheel timer fires at time `t`; the run loop fires only a pending timer, not before its deadline. */
    method WheelTimerFired(t: int)
      requires Valid() && Enabled(Snapshot(), Event.WheelTimerFired(t))
      modifies this
      ensures Valid()
      ensures Snapshot() == OnWheelTimerExpired(old(Snapshot()), t)
    {
      wheelSuppressionTimer := Idle;
      isWheelSpinning := false;
      now := t;
    }

    /** The decision the event tap makes on a scroll-wheel event at time `t`. */
    method ScrollWheel(t: int) returns (verdict: Verdict)
      requires Valid() && t >= now
      modifies this
      ensures Valid()
      ensures Reaction(verdict, Snapshot()) == OnScrollWheel(old(Snapshot()), t, true)
    {
      now := t;
      if isMouseMoving || isWheelSpinning {
        StartWheelSuppressionTimer(t);
        isWheelSpinning := true;
        verdict := Drop;
        StepPreservesInv(old(Snapshot()), Event.ScrollWheel(t, true));
        return;
      }
      verdict := Pass;
    }
  }

  /**
   * The event-tap callback for a scroll-wheel event at time `t`. Without a
   * context handle the event passes and no delegate is touched; otherwise the
   * delegate it designates decides.
   */
  method EventTapCallback(refcon: AppDelegate?, t: int) returns (verdict: Verdict)
    requires refcon != null ==> refcon.Valid() && t >= refcon.now
    modifies refcon
    ensures refcon == null ==> verdict == Pass
    ensures refcon != null ==> refcon.Valid()
    ensures refcon != null ==>
              Reaction(verdict, refcon.Snapshot()) == OnScrollWheel(old(refcon.Snapshot()), t, true)
  {
    if refcon == null {
      return Pass;
    }
    verdict := refcon.ScrollWheel(t);
  }
}
