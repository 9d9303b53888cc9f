# InnertiaStopper scroll-suppression model

InnertiaStopper is a macOS utility that discards scroll-wheel events while
the pointer is being moved, so incidental pointer motion does not trigger
inertial scrolling. All of its logic is in `AppDelegate`. The delegate keeps:

- the last pointer sample;
- two flags, `isMouseMoving` and `isWheelSpinning`;
- two single-shot, restartable timers: 0.1 s for the mouse and 0.5 s for the wheel.

Four callbacks drive it, all on one run loop:

- a pointer sample sets the moving flag and re-arms the mouse timer when the step from the previous sample is longer than 5.0;
- the mouse timer's expiry clears the moving flag;
- the wheel timer's expiry clears the spinning flag;
- the event-tap callback passes a scroll-wheel event when neither flag is set. Otherwise it drops the event, sets the spinning flag and re-arms the wheel timer.

The model has three layers:

- `state_machine.dfy` (module `SuppressionModel`): the delegate's fields as a `State` value, one transition function per callback, and the event alphabet. It also defines `Enabled`, `Step` and `Run` over sequences of events, and the invariant `Inv`.
- `app_delegate.dfy` (module `InnertiaStopper`): class `AppDelegate`, with the source's fields and one method per callback. Each method's postcondition is the matching transition applied to the old fields. `EventTapCallback` recovers the delegate from a nullable context handle.
- `properties.dfy` (module `SuppressionProperties`): lemmas over any interleaving of events.

Time is an integer number of milliseconds passed with each callback. A timer
is a slot: `Pending(deadline)` or `Idle`. Arming writes `Pending(t + 100)`
or `Pending(t + 500)` over whatever was there. That is what `invalidate()`
followed by scheduling a new timer does. An expiry can be delivered only
while the slot is pending and not before its deadline. Pointer coordinates
are reals. A step counts as movement when its squared length exceeds 25.
`ExceedsThresholdIffDistanceAbove` shows this is the same test as comparing
the Euclidean length with 5.0.

Each step is measured from the previous pointer sample
(AppDelegate.swift:42-44), not from a fixed starting point, and the
callback has only two verdicts (AppDelegate.swift:91-99).
`SmallStepsChangeNoFlag`, `SmallStepsKeepScrolling` and `SmallStepsCanAddUp`
show one consequence: slow drift made of steps of at most 5.0 never
suppresses scrolling, however far the pointer goes in total.

## Model

| member | source | states |
|---|---|---|
| SuppressionModel.SquaredDistance | InnertiaStopper/AppDelegate.swift:43-44 | the squared step between two samples is never negative |
| SuppressionModel.ExceedsThresholdIffDistanceAbove | InnertiaStopper/AppDelegate.swift:43-46 | for the non-negative Euclidean distance, the squared-distance test holds exactly when the distance is strictly greater than 5.0 |
| SuppressionModel.Launched | InnertiaStopper/AppDelegate.swift:12-16 | the initial delegate has no sample, no flag set, and satisfies the invariant |
| SuppressionModel.StartMouseSuppressionTimer | InnertiaStopper/AppDelegate.swift:58-64 | the mouse timer is pending with deadline now+100 whatever was pending before; nothing else changes |
| SuppressionModel.StartWheelSuppressionTimer | InnertiaStopper/AppDelegate.swift:66-72 | the wheel timer is pending with deadline now+500 whatever was pending before; nothing else changes |
| SuppressionModel.OnPointerSample | InnertiaStopper/AppDelegate.swift:41-54 | the sample is always recorded; a first sample changes nothing else; a step over the threshold sets the moving flag and re-arms the mouse timer; a step at or below it leaves flags and timers unchanged; the wheel state never changes |
| SuppressionModel.OnMouseTimerExpired | InnertiaStopper/AppDelegate.swift:60-62 | clears the moving flag and the mouse timer only; spinning flag, wheel timer and last position unchanged |
| SuppressionModel.OnWheelTimerExpired | InnertiaStopper/AppDelegate.swift:68-70 | clears the spinning flag and the wheel timer only; moving flag, mouse timer and last position unchanged |
| SuppressionModel.OnScrollWheel | InnertiaStopper/AppDelegate.swift:87-99 | passes if and only if there is no context handle or both flags are clear; passing changes no state; dropping sets the spinning flag and re-arms the wheel timer and changes nothing else |
| SuppressionModel.StepPreservesInv | InnertiaStopper/AppDelegate.swift:46-94 | every enabled callback keeps each flag equal to "its timer is pending" and keeps pending deadlines within one delay of the clock |
| InnertiaStopper.AppDelegate.constructor | InnertiaStopper/AppDelegate.swift:11-16 | the fields start as the launched state |
| InnertiaStopper.AppDelegate.StartMouseSuppressionTimer | InnertiaStopper/AppDelegate.swift:58-64 | replaces the mouse timer field by a fresh arm at t+100 |
| InnertiaStopper.AppDelegate.StartWheelSuppressionTimer | InnertiaStopper/AppDelegate.swift:66-72 | replaces the wheel timer field by a fresh arm at t+500 |
| InnertiaStopper.AppDelegate.MouseMoved | InnertiaStopper/AppDelegate.swift:38-55 | the fields after a sample are the pointer-sample transition of the fields before; the invariant is kept |
| InnertiaStopper.AppDelegate.MouseTimerFired | InnertiaStopper/AppDelegate.swift:60-62 | the fields after the mouse timer fires are the mouse-expiry transition of the fields before; the invariant is kept |
| InnertiaStopper.AppDelegate.WheelTimerFired | InnertiaStopper/AppDelegate.swift:68-70 | the fields after the wheel timer fires are the wheel-expiry transition of the fields before; the invariant is kept |
| InnertiaStopper.AppDelegate.ScrollWheel | InnertiaStopper/AppDelegate.swift:90-99 | the verdict and the new fields are the scroll-wheel transition of the old fields; the invariant is kept |
| InnertiaStopper.EventTapCallback | InnertiaStopper/AppDelegate.swift:85-99 | with no context handle the event passes and nothing changes; otherwise the designated delegate decides as `OnScrollWheel` |
| SuppressionProperties.RunPreservesInv | InnertiaStopper/AppDelegate.swift:46-94 | the invariant holds after any sequence of enabled callbacks, and time never goes backwards |
| SuppressionProperties.FlagsMatchPendingTimers | InnertiaStopper/AppDelegate.swift:12-16 | from launch, each flag is set exactly while its timer is pending |
| SuppressionProperties.SpinningUntilWheelTimerFires | InnertiaStopper/AppDelegate.swift:68-69 | once set, the spinning flag stays set through any callbacks other than the wheel timer's expiry |
| SuppressionProperties.DropsUntilWheelTimerFires | InnertiaStopper/AppDelegate.swift:91-95 | after a dropped wheel event, every wheel event is dropped until the wheel timer fires, even after the moving flag is cleared |
| SuppressionProperties.WheelDeadlineHolds | InnertiaStopper/AppDelegate.swift:66-69 | re-arming only moves the wheel deadline later, so the wheel keeps spinning through events before that deadline |
| SuppressionProperties.DroppedWithinWheelDelay | InnertiaStopper/AppDelegate.swift:91-95 | every wheel event less than 0.5 s after a dropped one is dropped |
| SuppressionProperties.MouseDeadlineHolds | InnertiaStopper/AppDelegate.swift:58-62 | re-arming only moves the mouse deadline later, so the moving flag stays set through events before that deadline |
| SuppressionProperties.DroppedWithinMouseDelay | InnertiaStopper/AppDelegate.swift:46-49 | every wheel event less than 0.1 s after a pointer step longer than 5.0 is dropped |
| SuppressionProperties.RearmCancelsPendingWheelTimer | InnertiaStopper/AppDelegate.swift:67-68 | after a drop at t, no wheel-timer expiry before t+500 can be delivered, whatever was pending before |
| SuppressionProperties.RearmCancelsPendingMouseTimer | InnertiaStopper/AppDelegate.swift:59-60 | after a long pointer step at t, no mouse-timer expiry before t+100 can be delivered, whatever was pending before |
| SuppressionProperties.SmallStepsChangeNoFlag | InnertiaStopper/AppDelegate.swift:42-54 | samples each within 5.0 of the previous one leave both flags and both timers unchanged |
| SuppressionProperties.SmallStepsKeepScrolling | InnertiaStopper/AppDelegate.swift:42-99 | from a state with both flags clear, after samples each within 5.0 of the previous one, a scroll-wheel event passes |
| SuppressionProperties.SmallStepsCanAddUp | InnertiaStopper/AppDelegate.swift:43-46 | three steps of 4.0 are all below the threshold, although the pointer ends 12.0 from where it started |

## Left out

- The accessibility-permission check and its alert (AppDelegate.swift:21-28): operating-system and user-interface interaction.
- Creating, registering, enabling and invalidating the event tap, and `applicationWillTerminate` (AppDelegate.swift:74-84, 100-120): Core Graphics and CoreFoundation plumbing. Only the decision the callback makes is modelled.
- Real `Timer` scheduling and wall-clock behaviour. Expiries are discrete events that callers deliver with a time. The model does not promise that a pending timer ever fires, so no lemma is about liveness.
- Floating-point `hypot` and `CGFloat` rounding. Coordinates are reals and the step length is compared exactly.
- `print` logging, which has no effect on state.
- The `[weak self]` guards (AppDelegate.swift:39, 60, 68): the delegate lives as long as the application, so they never fail.
- Concurrency: all callbacks run on the main run loop, so they are modelled as sequential events in any interleaving.
- `ContentView.swift` and `InnertiaStopperApp.swift`: window and application-entry glue with no logic.
