/**
 * The scroll-suppression state machine of InnertiaStopper's AppDelegate, as
 * values: the delegate's fields form a `State`, and each of the four events
 * that drive it (a pointer sample, the expiry of either timer, a scroll-wheel
 * event) is a function from the old state to the new one.
 *
 * Time is an integer number of milliseconds supplied with every event. A timer
 * is a single slot: `Pending(deadline)` while one is scheduled and not
 * invalidated, `Idle` otherwise. Scheduling a new timer overwrites the slot,
 * which is how `invalidate()` followed by `scheduledTimer` behaves.
 */
module SuppressionModel {
  import opened Wrappers

  /** A global pointer location, in screen points. */
  datatype Point = Point(x: real, y: real)

  /** Smallest step between two pointer samples that counts as movement. */
  const MovementThreshold: real := 5.0

  /** Delay of the mouse timer (0.1 s), in milliseconds. */
  const MouseTimerDelay: int := 100

  /** Delay of the wheel timer (0.5 s), in milliseconds. */
  const WheelTimerDelay: int := 500

  /** Square of the Euclidean distance between two points. */
  function SquaredDistance(p: Point, q: Point): (d: real)
    ensures d >= 0.0
  {
    var dx, dy := p.x - q.x, p.y - q.y;
    SquareNonNegative(dx);
    SquareNonNegative(dy);
    dx * dx + dy * dy
  }

  /** A square is never negative. */
  lemma SquareNonNegative(a: real)
    ensures a * a >= 0.0
  {
  }

  /** The step from `from` to `to` is strictly longer than the threshold. */
  predicate ExceedsThreshold(from: Point, to: Point)
  {
    SquaredDistance(from, to) > MovementThreshold * MovementThreshold
  }

  /**
   * Comparing squared distance with 25 decides exactly what comparing the
   * Euclidean distance (`hypot`) with 5.0 decides: for the one non-negative
   * `distance` whose square is the squared distance, the step exceeds the
   * threshold if and only if `distance > 5.0`.
   */
  lemma ExceedsThresholdIffDistanceAbove(from: Point, to: Point, distance: real)
    requires distance >= 0.0 && distance * distance == SquaredDistance(from, to)
    ensures ExceedsThreshold(from, to) <==> distance > MovementThreshold
  {
    var sq := SquaredDistance(from, to);
    if distance > MovementThreshold {
      assert sq == distance * distance > 5.0 * distance > 25.0;
    } else {
      assert sq == distance * distance <= 5.0 * distance <= 25.0;
    }
  }

  /** A single-shot timer slot. */
  datatype Timer = Idle | Pending(deadline: int)

  /** What the event tap does with a scroll-wheel event. */
  datatype Verdict = Pass | Drop

  /** The fields of the delegate, plus the time of the last event delivered. */
  datatype State = State(
    lastMousePosition: Option<Point>,
    isMouseMoving: bool,
    isWheelSpinning: bool,
    suppressionTimer: Timer,
    wheelSuppressionTimer: Timer,
    now: int)

  /**
   * What every reachable state satisfies: each flag is set exactly while its
   * timer is pending, and a pending timer was armed no later than `now`.
   */
  predicate Inv(s: State)
  {
    && (s.isMouseMoving <==> s.suppressionTimer.Pending?)
    && (s.isWheelSpinning <==> s.wheelSuppressionTimer.Pending?)
    && (s.suppressionTimer.Pending? ==> s.suppressionTimer.deadline <= s.now + MouseTimerDelay)
    && (s.wheelSuppressionTimer.Pending? ==> s.wheelSuppressionTimer.deadline <= s.now + WheelTimerDelay)
  }

  /** The delegate right after launch at time `t`: no sample, no flag, no timer. */
  function Launched(t: int): (s: State)
    ensures Inv(s)
    ensures s.lastMousePosition.None? && !s.isMouseMoving && !s.isWheelSpinning
  {
    State(None, false, false, Idle, Idle, t)
  }

  /** `startMouseSuppressionTimer`: replaces whatever mouse timer is pending. */
  function StartMouseSuppressionTimer(s: State, t: int): (s': State)
    ensures s'.suppressionTimer == Pending(t + MouseTimerDelay)
    ensures s' == s.(suppressionTimer := s'.suppressionTimer)
  {
    s.(suppressionTimer := Pending(t + MouseTimerDelay))
  }

  /** `startWheelSuppressionTimer`: replaces whatever wheel timer is pending. */
  function StartWheelSuppressionTimer(s: State, t: int): (s': State)
    ensures s'.wheelSuppressionTimer == Pending(t + WheelTimerDelay)
    ensures s' == s.(wheelSuppressionTimer := s'.wheelSuppressionTimer)
  {
    s.(wheelSuppressionTimer := Pending(t + WheelTimerDelay))
  }

  /**
   * The mouse-moved monitor: a sample at time `t` at position `p`. The
   * sample is always recorded; the moving flag is set and the mouse timer
   * re-armed exactly when there is a previous sample and the step from it is
   * longer than the threshold. Nothing about the wheel changes.
   */
  function OnPointerSample(s: State, t: int, p: Point): (s': State)
    ensures s'.lastMousePosition == Some(p) && s'.now == t
    ensures s'.isWheelSpinning == s.isWheelSpinning
    ensures s'.wheelSuppressionTimer == s.wheelSuppressionTimer
    ensures s.lastMousePosition.None? ==> s' == s.(lastMousePosition := Some(p), now := t)
    ensures s.lastMousePosition.Some? && ExceedsThreshold(s.lastMousePosition.value, p) ==>
              s'.isMouseMoving && s'.suppressionTimer == Pending(t + MouseTimerDelay)
    ensures s.lastMousePosition.Some? && !ExceedsThreshold(s.lastMousePosition.value, p) ==>
              s'.isMouseMoving == s.isMouseMoving && s'.suppressionTimer == s.suppressionTimer
  {
    var armed :=
      if s.lastMousePosition.Some? && ExceedsThreshold(s.lastMousePosition.value, p)
      then StartMouseSuppressionTimer(s.(isMouseMoving := true), t)
      else s;
    armed.(lastMousePosition := Some(p), now := t)
  }

  /** The mouse timer fires: it clears the moving flag and nothing else. */
  function OnMouseTimerExpired(s: State, t: int): (s': State)
    ensures !s'.isMouseMoving && s'.suppressionTimer.Idle? && s'.now == t
    ensures s'.isWheelSpinning == s.isWheelSpinning
    ensures s'.wheelSuppressionTimer == s.wheelSuppressionTimer
    ensures s'.lastMousePosition == s.lastMousePosition
  {
    s.(isMouseMoving := false, suppressionTimer := Idle, now := t)
  }

  /** The wheel timer fires: it clears the spinning flag and nothing else. */
  function OnWheelTimerExpired(s: State, t: int): (s': State)
    ensures !s'.isWheelSpinning && s'.wheelSuppressionTimer.Idle? && s'.now == t
    ensures s'.isMouseMoving == s.isMouseMoving
    ensures s'.suppressionTimer == s.suppressionTimer
    ensures s'.lastMousePosition == s.lastMousePosition
  {
    s.(isWheelSpinning := false, wheelSuppressionTimer := Idle, now := t)
  }

  /** The verdict on one scroll-wheel event and the state after it. */
  datatype Reaction = Reaction(verdict: Verdict, next: State)

  /**
   * The event-tap callback on a scroll-wheel event at time `t`; `hasRefcon`
   * says whether the callback received its context handle. The event passes
   * exactly when there is no handle or neither flag is set, and passing
   * changes nothing. A dropped event leaves the wheel spinning with a freshly
   * armed wheel timer, and changes nothing else.
   */
  function OnScrollWheel(s: State, t: int, hasRefcon: bool): (r: Reaction)
    ensures r.verdict == Pass <==> !hasRefcon || (!s.isMouseMoving && !s.isWheelSpinning)
    ensures r.verdict == Pass ==> r.next == s.(now := t)
    ensures r.verdict == Drop ==> r.next.isWheelSpinning && r.next.wheelSuppressionTimer == Pending(t + WheelTimerDelay)
    ensures r.verdict == Drop ==>
              r.next == s.(isWheelSpinning := true, wheelSuppressionTimer := r.next.wheelSuppressionTimer, now := t)
  {
    if !hasRefcon then
      Reaction(Pass, s.(now := t))
    else if s.isMouseMoving || s.isWheelSpinning then
      Reaction(Drop, StartWheelSuppressionTimer(s, t).(isWheelSpinning := true, now := t))
    else
      Reaction(Pass, s.(now := t))
  }

  /** The events the run loop delivers, each with its time in milliseconds. */
  datatype Event =
    | MouseMoved(t: int, position: Point)
    | MouseTimerFired(t: int)
    | WheelTimerFired(t: int)
    | ScrollWheel(t: int, hasRefcon: bool)

  /**
   * An event can be delivered in state `s`: time does not go backwards, and a
   * timer fires only while it is pending and not before its deadline.
   */
  predicate Enabled(s: State, e: Event)
  {
    && e.t >= s.now
    && (e.MouseTimerFired? ==> s.suppressionTimer.Pending? && e.t >= s.suppressionTimer.deadline)
    && (e.WheelTimerFired? ==> s.wheelSuppressionTimer.Pending? && e.t >= s.wheelSuppressionTimer.deadline)
  }

  /** The state after one event. */
  function Step(s: State, e: Event): State
  {
    match e
    case MouseMoved(t, p) => OnPointerSample(s, t, p)
    case MouseTimerFired(t) => OnMouseTimerExpired(s, t)
    case WheelTimerFired(t) => OnWheelTimerExpired(s, t)
    case ScrollWheel(t, hasRefcon) => OnScrollWheel(s, t, hasRefcon).next
  }

  /** The state after a sequence of events, in order. */
  function Run(s: State, es: seq<Event>): State
    decreases |es|
  {
    if es == [] then s else Run(Step(s, es[0]), es[1..])
  }

  /** Every event of `es` is enabled in the state it is delivered in. */
  predicate ValidTrace(s: State, es: seq<Event>)
    decreases |es|
  {
    es == [] || (Enabled(s, es[0]) && ValidTrace(Step(s, es[0]), es[1..]))
  }

  /** Every enabled event keeps the invariant and does not move time backwards. */
  lemma StepPreservesInv(s: State, e: Event)
    requires Inv(s) && Enabled(s, e)
    ensures Inv(Step(s, e)) && Step(s, e).now == e.t
  {
  }
}
