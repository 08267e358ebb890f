# SpeedLab timing core in Dafny

A model of the speed and timing core of SpeedLab, an iOS app that measures
0-100, 0-200, braking distance, peak g-force, distance and session time from
satellite fixes and device-motion samples. Three pieces are modelled:

- `SpeedKalman` (`speed_kalman_filter.dfy`): the scalar filter
  `SpeedKalmanFilter` with `predict`, `update` and `reset`.
- `Motion` (`motion_manager.dfy`): the device-motion handler of
  `MotionManager`. It covers the g-force reading, the gravity guard, the
  forward acceleration, dt-guarded velocity integration and the debounced
  movement-onset detector. It also covers `start`, `stop`,
  `resetIntegration(toSpeed:)` and `resetMovementDetection()`.
- `PerformanceRepository` (`performance_repository.dfy`): the session and
  milestone state machine. Each Combine sink is an explicit event handler:
  the g-force peak, the accelerometer start trigger, the braking latch, the
  satellite-fix handler with `processPerformanceMetrics`, and the 1 s timer.
  It also models `start`, `pauseTracking`, `resumeTracking`, `stopTracking`
  and `checkManagersAvaliability`.
- `PerformanceSession` (`performance_session.dfy`) drives the repository
  with a sequence of events. It proves what holds across whole histories.

All state is an immutable record and every handler is a pure function over
`real`. Time is real seconds. A motion sample carries the wall-clock reading
its handler takes (`Date()`), and a fix carries its own timestamp.
`CLLocation.distance(from:)` is a parameter `dist` of type
`(Position, Position) -> NonNegReal`: any non-negative function. The best
times start at `Infinity`, which stands for `Double.infinity`.

The source takes square roots. A motion sample therefore carries the two
roots the handler keeps, the user-acceleration magnitude and the total g,
next to the vectors. `Sample.WellFormed` says they are the non-negative
roots; properties that need this state it as a hypothesis. The guard
`gravMag > 0.01` is compared on squares, and
`GravityGuardMatchesMagnitude` proves that this agrees with the root.

Where the code and its own comments disagree, the model follows the
code:

- The "0-100" window is captured when 50 km/h is crossed
  (`PerformanceRepository.swift:189`), not 100.
- Fix-based arming interpolates with `(0.0 − v1)/(v − v1)`. This is the
  instant at which the line through the two fixes meets 0 km/h, so the
  start lies at or before the previous fix. It is not the 2 km/h crossing.
- The forward acceleration is the unsigned magnitude of the whole user
  acceleration. The comments at `MotionManager.swift:98-101` speak of a
  sign taken from the dominant horizontal axis, but line 102 uses the
  magnitude alone, so hard braking and hard acceleration look the same.
- The braking latch is last-wins. Every qualifying reading overwrites it
  with the last fix, and that fix may be `nil`.
- `predict` does not clamp the speed.
- Every re-arm overwrites the 0-200 start together with the 0-100 start.
  `FiftyCrossingScenario` shows the 0-200 start moving from 0 s to 2 s on
  the fix that follows a "0-100" capture.
- `stopTracking` keeps the best times and the pause flag.
- `resumeTracking` keeps the previously processed fix, so the first fix
  after a resume interpolates against one taken before the pause. This is
  logged under "## Findings". `PerformanceSession` follows the source;
  the corrected resume is stated beside it.

Two more facts about the source shape the model:

- Nothing in the source calls `SpeedKalmanFilter`. It is modelled on its
  own, and no repository handler uses it.
- The reported speed is the raw fix speed in km/h, clamped at zero. It is
  not filtered or blended with the integrated speed; the fix handler
  instead resets the integrated speed to it.

The model handles one motion sample in this order:

1. The motion handler runs.
2. The g-force sink sees the new total g.
3. If the gravity reference was usable, the braking sink sees the forward
   acceleration.
4. If an onset was just stamped, the start trigger sees it.

The source orders these differently. `@Published` emits on assignment, so
the braking sink runs inside the handler when `forwardAcceleration` is
set (`MotionManager.swift:103`), and the start trigger runs there too
when `movementDetectedAt` is set (line 127). Only the g-force sink runs
later, after its hop to the main queue. The reordering cannot be
observed: each sink reads and writes only repository fields and the value
it is handed, and the handler reads and writes only motion fields.

## Model

| member | source | states |
|---|---|---|
| SpeedKalman.Initial | SpeedLab/Core/Helpers/SpeedKalmanFilter.swift:11-17 | a new filter has speed 0 and p = 1.0, the state reset(to:) gives with its default argument 0 |
| SpeedKalman.Predict | SpeedLab/Core/Helpers/SpeedKalmanFilter.swift:19-23 | predict moves the speed by exactly deltaV and adds exactly q = 0.05 to p, so p grows and stays positive |
| SpeedKalman.Gain | SpeedLab/Core/Helpers/SpeedKalmanFilter.swift:26 | with p > 0 and r = 3 the gain k lies strictly between 0 and 1 and satisfies k·(p+r) = p |
| SpeedKalman.Update | SpeedLab/Core/Helpers/SpeedKalmanFilter.swift:25-31 | update lands between the old speed and the GPS speed, strictly inside when they differ. Equal speeds are a fixed point and non-negative inputs give a non-negative result. p strictly decreases to p·r/(p+r) and stays positive |
| SpeedKalman.BlendLiesBetween | SpeedLab/Core/Helpers/SpeedKalmanFilter.swift:28 | the blend speed + k·(gps − speed) with 0 < k < 1 lies between the two speeds |
| SpeedKalman.Reset | SpeedLab/Core/Helpers/SpeedKalmanFilter.swift:33-36 | reset(to: v) gives speed v and p = 1.0 |
| SpeedKalman.Run | SpeedLab/Core/Helpers/SpeedKalmanFilter.swift:19-36 | the invariant p > 0 holds after any sequence of predicts and updates |
| SpeedKalman.ResetErasesHistory | SpeedLab/Core/Helpers/SpeedKalmanFilter.swift:33-36 | after reset(to: v) the same calls give the same states, whatever came before the reset |
| SpeedKalman.ZeroPredictsGrowVariance | SpeedLab/Core/Helpers/SpeedKalmanFilter.swift:19-23 | n predicts with deltaV = 0 keep the speed and raise p by exactly n·0.05, so p is unbounded |
| SpeedKalman.AgreeingUpdatesKeepSpeed | SpeedLab/Core/Helpers/SpeedKalmanFilter.swift:25-31 | repeated updates with the GPS speed equal to the estimate keep the estimate and strictly shrink p |
| Motion.GravityGuardMatchesMagnitude | SpeedLab/Core/Managers/MotionManager.swift:80-86 | comparing the squared gravity norm with 0.01² is the same as the guard gravMag > 0.01 |
| Motion.ForwardAcceleration | SpeedLab/Core/Managers/MotionManager.swift:92-103 | forward acceleration is |userAcceleration|·9.81, a non-negative magnitude whose square is 9.81² times the squared norm |
| Motion.Init | SpeedLab/Core/Managers/MotionManager.swift:17-44 | a new manager has zero acceleration, total g and forward acceleration, cleared integration and debounce state, and records the platform's availability |
| Motion.Start | SpeedLab/Core/Managers/MotionManager.swift:47-57 | start without device motion changes nothing. Otherwise it clears integration and debounce state and zeroes the forward acceleration |
| Motion.Stop | SpeedLab/Core/Managers/MotionManager.swift:149-159 | stop returns every reading and all integration and debounce state to the initial values |
| Motion.ResetIntegration | SpeedLab/Core/Managers/MotionManager.swift:137-139 | resetIntegration sets the integrated speed and changes nothing else |
| Motion.ResetMovementDetection | SpeedLab/Core/Managers/MotionManager.swift:142-147 | resetMovementDetection clears the onset, the counter, the integrated speed and the last timestamp, and keeps the published readings |
| Motion.Integrate | SpeedLab/Core/Managers/MotionManager.swift:105-117 | the speed grows by a·dt·3.6 only when a previous timestamp exists and 0 < dt < 0.1. It never decreases for a ≥ 0, and the timestamp advances regardless |
| Motion.Debounce | SpeedLab/Core/Managers/MotionManager.swift:119-132 | a sample above 0.15 bumps the counter and any other resets it to 0. The onset is stamped exactly when the counter reaches 6, at now − 0.06, and once stamped nothing changes |
| Motion.OnSample | SpeedLab/Core/Managers/MotionManager.swift:69-132 | an unusable gravity reference changes only acceleration and total g. A usable one publishes the forward acceleration and advances the timestamp. A stamped onset and its counter stay put, the integrated speed never decreases, and the invariant is kept |
| Motion.SamplesKeepInvariant | SpeedLab/Core/Managers/MotionManager.swift:105-132 | after any run of samples the integrated speed is non-negative and not below its start, and the counter is 6 exactly when an onset is stamped |
| Motion.DebounceMatchesReference | SpeedLab/Core/Managers/MotionManager.swift:119-132 | from a cleared detector the stamped onset is the first time six consecutive usable samples exceed the threshold, backdated 0.06 s. The counter is the current run, saturated at 6 once stamped |
| Motion.SixQualifyingSamplesStampOnset | SpeedLab/Core/Managers/MotionManager.swift:119-132 | six qualifying samples from a cleared detector stamp the onset at the sixth sample's time minus 0.06 |
| Motion.InterruptedRunResetsCounter | SpeedLab/Core/Managers/MotionManager.swift:119-132 | five qualifying samples and then one below the threshold leave the counter at 0 and no onset |
| PerformanceRepository.Init | SpeedLab/Core/Repositories/PerformanceRepository.swift:13-45 | a new repository has every metric at 0, both best times infinite, no window armed, no trigger, no session start, no fix or latch remembered, not paused, and a freshly constructed motion manager |
| PerformanceRepository.Best.Improve | SpeedLab/Core/Repositories/PerformanceRepository.swift:210-212 | a best is replaced by a duration exactly when the duration is smaller, so the result is at most both the old best and the duration |
| PerformanceRepository.Fraction | SpeedLab/Core/Repositories/PerformanceRepository.swift:204 | the interpolation ratio puts the straight line between the two fixes at the threshold. It lies in (0,1] for a real crossing and is ≤ 0 for a level at or below the previous speed |
| PerformanceRepository.CrossingDuration | SpeedLab/Core/Repositories/PerformanceRepository.swift:199-201 | the captured duration is the interpolated crossing time minus the start, clamped at zero |
| PerformanceRepository.OnGForce | SpeedLab/Core/Repositories/PerformanceRepository.swift:84-92 | while running, the peak g-force is raised to a reading above it and above 0.1. It never decreases and nothing else changes |
| PerformanceRepository.OnMovementDetected | SpeedLab/Core/Repositories/PerformanceRepository.swift:95-111 | the accelerometer trigger fires exactly when the session runs, has not triggered and is unarmed. It then arms both windows at the detected instant and sets the flag |
| PerformanceRepository.OnForwardAcceleration | SpeedLab/Core/Repositories/PerformanceRepository.swift:114-122 | while running, a reading above 4.905 at a speed within 97..103 overwrites the braking latch with the last fix. Otherwise nothing changes |
| PerformanceRepository.OnMotionSample | SpeedLab/Core/Repositories/PerformanceRepository.swift:83-122 | a motion sample runs the motion handler and its sinks. The g-force peak moves as its sink moves it. A usable sample moves the braking latch as its sink does, and an unusable one leaves it. A newly stamped onset arms both windows at the onset and sets the trigger exactly when the session runs, is untriggered and unarmed; otherwise starts and trigger stay. Speeds, distance, best times and fixes are untouched, and the invariant is kept |
| PerformanceRepository.Arm | SpeedLab/Core/Repositories/PerformanceRepository.swift:173-185 | with no window armed and speed ≥ 2, both windows start at one instant. After a sub-2 fix that instant is on the line through the fixes at 0 km/h, at or before the previous fix. Otherwise it is the fix time |
| PerformanceRepository.FirstWindow | SpeedLab/Core/Repositories/PerformanceRepository.swift:188-221 | below 50 the window records the elapsed time. At a 50 crossing it records a duration ≥ 0 and improves the best, then disarms, clears the trigger and resets motion detection. With the integrated speed synced to the fix, that duration is the fix-to-fix interpolation |
| PerformanceRepository.FirstDurationFromFixes | SpeedLab/Core/Repositories/PerformanceRepository.swift:203-207 | the fix-to-fix "0-100" duration is non-negative |
| PerformanceRepository.SecondWindow | SpeedLab/Core/Repositories/PerformanceRepository.swift:224-240 | at ≥ 200, a crossing records the clamped interpolated duration and disarms. Without a crossing it records the elapsed time and stays armed. Either way the best is improved and never grows |
| PerformanceRepository.BrakingCapture | SpeedLab/Core/Repositories/PerformanceRepository.swift:243-246 | at ≤ 2 km/h with a latch set, the braking distance is the distance from the latched fix and the latch clears. Otherwise nothing changes |
| PerformanceRepository.ProcessPerformanceMetrics | SpeedLab/Core/Repositories/PerformanceRepository.swift:165-250 | paused does nothing. Otherwise this fix becomes the previous one, the best times never grow, speed, max and distance are untouched, and the invariant is kept |
| PerformanceRepository.ReportedSpeed | SpeedLab/Core/Repositories/PerformanceRepository.swift:131 | the reported speed is max(0, gps·3.6) |
| PerformanceRepository.SyncedForFix | SpeedLab/Core/Repositories/PerformanceRepository.swift:131-147 | before the metrics run, the integrated speed equals the reported speed |
| PerformanceRepository.OnLocation | SpeedLab/Core/Repositories/PerformanceRepository.swift:125-150 | a paused fix is ignored. Otherwise the speed is the reported speed and maxSpeed becomes the max of old max and speed. Distance grows by the geodesic distance only with a previous fix above 2 km/h, and never decreases |
| PerformanceRepository.OnTick | SpeedLab/Core/Repositories/PerformanceRepository.swift:153-160 | the timer adds 1 s exactly when started and running, and changes nothing else |
| PerformanceRepository.Start | SpeedLab/Core/Repositories/PerformanceRepository.swift:268-277 | start sets the session origin only if there is none, starts motion and runs |
| PerformanceRepository.PauseTracking | SpeedLab/Core/Repositories/PerformanceRepository.swift:252-258 | pause disarms both windows, clears the trigger and resets motion detection, and nothing else |
| PerformanceRepository.ResumeTracking | SpeedLab/Core/Repositories/PerformanceRepository.swift:260-265 | resume forgets the last fix, clears the trigger, resets motion detection and runs. It keeps the previously processed fix |
| PerformanceRepository.SecondWindowIntended | SpeedLab/Core/Repositories/PerformanceRepository.swift:224-240 | the corrected 0-200 window is the source's window except that the best moves only at a real crossing (previous fix below 200), where it moves exactly as in the source |
| PerformanceRepository.ResumeTrackingIntended | SpeedLab/Core/Repositories/PerformanceRepository.swift:260-265 | the corrected resume is the source's resume that also forgets the previously processed fix, and it keeps the invariant |
| PerformanceRepository.StopTracking | SpeedLab/Core/Repositories/PerformanceRepository.swift:279-312 | stop saves the pre-stop metrics iff distance > 0.1 and speed > 5, then zeroes every metric, window, latch and fix. The best times and the pause flag survive |
| PerformanceRepository.CheckManagersAvailability | SpeedLab/Core/Repositories/PerformanceRepository.swift:53-74 | permission is requested iff undetermined. Denied or restricted gives the location error. Any other status gives the sensor error iff motion is unavailable, and "not determined" is never reported |
| PerformanceSession.Step | SpeedLab/Core/Repositories/PerformanceRepository.swift:77-161 | no event raises a best time, only stop lowers max speed or distance, paused fixes and ticks are no-ops, and every event keeps the invariant |
| PerformanceSession.Run | SpeedLab/Core/Repositories/PerformanceRepository.swift:77-161 | the invariant holds after any history of well-formed events |
| PerformanceSession.BestsNeverIncrease | SpeedLab/Core/Repositories/PerformanceRepository.swift:210-239 | across any history, stops included, neither best time increases |
| PerformanceSession.MetricsGrowUntilStop | SpeedLab/Core/Repositories/PerformanceRepository.swift:131-141 | until a stop, max speed and distance never decrease |
| PerformanceSession.PrefixSpeedBounded | SpeedLab/Core/Repositories/PerformanceRepository.swift:131-134 | the speed after any prefix of a stop-free history is at most the final max speed |
| PerformanceSession.MaxSpeedBoundsHistory | SpeedLab/Core/Repositories/PerformanceRepository.swift:131-134 | since the last stop, maxSpeed bounds every speed reported along the history |
| PerformanceSession.PausedIgnoresFixesAndTicks | SpeedLab/Core/Repositories/PerformanceRepository.swift:125-160 | while paused, any sequence of fixes and ticks leaves the state unchanged |
| PerformanceSession.PauseResumeDisarms | SpeedLab/Core/Repositories/PerformanceRepository.swift:252-265 | after pause then resume no window is armed, the trigger is clear and the detector is cleared, while the previously processed fix survives. After the corrected resume it is gone as well |
| PerformanceSession.IntendedResumeTimesNothingAcrossPause | SpeedLab/Core/Repositories/PerformanceRepository.swift:252-265 | with the corrected resume, the first fix after a pause leaves the "0-100" best alone. Any window it arms starts at that fix, so any elapsed time it records is 0. Below 200 km/h the "0-200" best is untouched; at 200 km/h or more it is still offered 0 s, the second finding, which this correction does not cover |
| PerformanceSession.MotionHistoryTracksMotion | SpeedLab/Core/Repositories/PerformanceRepository.swift:95-111 | motion events drive the motion state exactly as the manager's handler does, and until an onset is stamped they leave the windows, the trigger and the pause flag alone |
| PerformanceSession.SixSamplesArmBothWindows | SpeedLab/Core/Repositories/PerformanceRepository.swift:95-111 | six qualifying samples fed to a running, untriggered, unarmed session with a cleared detector arm both windows at the sixth sample's time minus 0.06 s and set the trigger |
| PerformanceSession.FirstFixAboveTwoHundredRecordsZero | SpeedLab/Core/Repositories/PerformanceRepository.swift:224-239 | a session whose first fix reads 210 km/h at 5 s arms "0-200" at 5 s and records 0 s as both the time and the best |
| PerformanceSession.IntendedSecondWindowWithoutPreviousFix | SpeedLab/Core/Repositories/PerformanceRepository.swift:224-239 | without a previous fix, the corrected window never moves the best, while the source's window armed at the same fix records 0 s and offers it |
| PerformanceSession.RollingStartState | SpeedLab/Core/Repositories/PerformanceRepository.swift:173-221 | fixes at 0 km/h (0 s) and 40 km/h (10 s) arm "0-100" at 0 s by extrapolation and record 10 s elapsed, with no best yet |
| PerformanceSession.ResumeTimesAcrossPause | SpeedLab/Core/Repositories/PerformanceRepository.swift:260-265 | after that rolling start, a pause, the source's resume and 60 km/h at 100 s, the crossing is interpolated across the pause and the "0-100" and its best become 0 s |
| PerformanceSession.ResumeTimesStandingStartAcrossPause | SpeedLab/Core/Repositories/PerformanceRepository.swift:260-265 | a standing fix at 10 s, a pause, the source's resume and 60 km/h at 100 s record a "0-100" of 75 s, measured across the pause |
| PerformanceSession.IntendedResumeScenario | SpeedLab/Core/Repositories/PerformanceRepository.swift:252-265 | the same rolling start history with the corrected resume records nothing: 10 s elapsed and still no best |
| PerformanceSession.FixCapturesFirstMilestone | SpeedLab/Core/Repositories/PerformanceRepository.swift:187-217 | a running fix crossing 50 km/h records the fix-to-fix interpolated duration, which both branches agree on. It improves the best, disarms, clears the trigger and clears motion detection |
| PerformanceSession.FiftyCrossingScenario | SpeedLab/Core/Repositories/PerformanceRepository.swift:173-217 | fixes at 0 and 80 km/h one second apart give a "0-100" of 0.625 s. The next fix moves both starts, the 0-200 one included, to its own time |
| PerformanceSession.SampleLatchesBraking | SpeedLab/Core/Repositories/PerformanceRepository.swift:114-122 | a usable sample above half a g at 97..103 km/h overwrites the latch with the last fix |
| PerformanceSession.FixCapturesBraking | SpeedLab/Core/Repositories/PerformanceRepository.swift:242-246 | a running fix at ≤ 2 km/h with a latch records the distance from the latched fix and clears the latch |
| PerformanceSession.FixWithoutLatchKeepsBraking | SpeedLab/Core/Repositories/PerformanceRepository.swift:242-246 | without a latch a fix records no braking distance and sets no latch |
| PerformanceSession.BrakingCapturedOnce | SpeedLab/Core/Repositories/PerformanceRepository.swift:113-122 | latch, then a standing fix, records the distance from the latched fix once. A further fix records nothing more |
| PerformanceSession.StopScenarios | SpeedLab/Core/Repositories/PerformanceRepository.swift:281-311 | stop at 0.05 km signals not-saved and zeroes. Stop at 0.2 km and 10 km/h saves the pre-stop metrics and then zeroes |

## Findings

| source | as written | input that shows it | evidently intended | confidence | as-written member | corrected member |
|---|---|---|---|---|---|---|
| SpeedLab/Core/Repositories/PerformanceRepository.swift:260-265 | `resumeTracking` keeps `lastProcessedSpeed` and `lastProcessedTime`. The first fix after a resume re-arms and interpolates a crossing against a fix taken before the pause | fixes at 0 km/h (0 s) and 40 km/h (10 s), pause, resume, 60 km/h at 100 s: the "0-100" and its best become 0 s, a best no later run can beat and that `stopTracking` keeps. A single standing fix at 10 s gives 75 s instead | resume also forgets the previously processed fix. `pauseTracking` already disarms both windows (lines 252-257) and resume already forgets the last fix so no distance spans the pause; nothing should be timed across it either. This corrects the "0-100" only; the "0-200" 0 s best is the next row | not executed; medium | PerformanceSession.ResumeTimesAcrossPause | PerformanceSession.IntendedResumeTimesNothingAcrossPause |
| SpeedLab/Core/Repositories/PerformanceRepository.swift:233-239 | without a crossing, the "0-200" window records the elapsed time and the best is improved with it. A window armed at the very fix that reads 200 km/h or more records 0 s | a first fix, or the first fix after the corrected resume, at 210 km/h: the window arms at that fix and the "0-200" and its best become 0 s, a best no later run can beat | the best is improved only by a real crossing, at lines 225-232; the elapsed time is a running display. A 0 s can still arise when the window is re-armed at the crossing fix itself, which is the re-arm overwrite listed above | not executed; medium | PerformanceSession.FirstFixAboveTwoHundredRecordsZero | PerformanceRepository.SecondWindowIntended |

## Left out

- Combine publishers, `receive(on:)` hops and `Timer.publish` are left out. Each sink is an explicit handler and the timer is a tick event. The g-force sink's hop to the main queue is collapsed, so it runs in order with the other sinks.
- `CMMotionManager`, `CLLocationManager` and the `LocationManager` wrapper are platform frameworks. Availability and authorization status are parameters. The permission requests and the location stream's start and stop are not modelled. `CheckManagersAvailability` reports the permission request as a flag instead of making the call.
- The motion error path (`accessDenied` on a not-authorized error) and samples delivered as `nil` are left out because they are framework callbacks.
- Square roots and geodesic distance are supplied as inputs: the roots on the sample, the distance as the `dist` function.
- IEEE `Double` rounding and infinity are not modelled; reals are exact and infinity is the `Infinity` best.
- Persistence (`CoreDataManager.saveSession`) is left out. `StopTracking` returns the record it would save.
- The `locationAuthStatus` mirror, the `PerformanceError` texts and actions, and all view, view-model, history and navigation code are presentation, not timing logic.
- `startLocation` is written but never read in the source; it is kept in the record only.
- Motion.Start: does not model that the source also restarts sensor delivery; only the state reset is modelled.
