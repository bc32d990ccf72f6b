# Video Delay: the frame-delay buffer

Video Delay is a browser extension that shows a full-screen (or auto-played)
video a fixed number of milliseconds late. `VideoDelayController` in
`content.js` does this by drawing the live video into off-screen canvases
("frames"), queueing them, and painting the oldest frame once the delay has
passed. A placeholder frame (`initialFrame`) is painted while the buffer warms
up.

This project is a Dafny model of that buffer:

- **`FrameStore`**: the `Frame` object and its release (its canvas zeroed to
  0 x 0). It also holds the two eviction rules as functions on the queue
  (`ExpiredCount`, `OverflowCount`, `Evict`) and the lemmas about them.
- **`DelayControl`**: the `DelayController` class, which has the source's
  fields. Its methods cover construction, the two placeholder handlers, the
  playback tick, `stop` and the auto-play exit check. It also holds the
  `Monitor` guard that creates at most one controller.
- **`Cadence`**: the choice of the nearest standard frame rate.
- **`AutoplayExit`**: the geometry test that ends an auto-played session.

Frames are references. When there is no placeholder yet, the frame a tick
captures is stored both as the placeholder and at the head of the queue. When
it is evicted, the placeholder is left pointing at a released canvas, and
`stop` zeroes it a second time. The
model keeps this aliasing: it never claims that a frame is released only
once. What is drawn during a tick is returned as the list of frames drawn.

## Model

| member | source | states |
|---|---|---|
| Cadence.Dist | content.js:388 | the distance between a rate and the measurement is 0 exactly when they are equal |
| Cadence.Nearest | content.js:387-389 | the reduction returns its start or a listed rate, never gets farther, and is at least as near as every rate it looked at |
| Cadence.ClosestRate | content.js:387-389 | the result is one of the rates and no rate in the list is nearer to the measurement |
| Cadence.SnapRate | content.js:368-389 | the chosen rate is one of 23.976, 24, 25, 29.97, 30, 50, 59.94 and 60 fps, and none of them is nearer |
| Cadence.NearestFirstOnTie | content.js:387-389 | when the reduction ends on a listed rate, no earlier listed rate at the same distance was skipped: the replacement is strict |
| Cadence.ClosestFirstOnTie | content.js:387-389 | on a tie between listed rates, the one listed first is chosen |
| Cadence.SnapStandard | content.js:368-389 | a measurement that is already a standard rate is kept as it is |
| Cadence.SnapIdempotent | content.js:387-389 | snapping a snapped rate changes nothing |
| Cadence.SnapNtscSixty | content.js:368-389 | 59.941 fps (an average delta of 16.683 ms) snaps to 59.94, not 60 |
| Cadence.SnapTieGoesLower | content.js:368-389 | 54.97 fps is exactly between 50 and 59.94 and goes to 50, the rate listed first |
| AutoplayExit.Abs | content.js:281 | Math.abs: the value or its negation, never negative |
| AutoplayExit.Round | content.js:281 | Math.round: the integer within half a unit, with halves rounded up |
| AutoplayExit.RoundShift | content.js:281 | rounding commutes with subtracting a whole number of pixels |
| AutoplayExit.CloserUsesRoundedWidth | content.js:281 | the test is the comparison of the rounded width's distances to the original width and to the viewport width |
| AutoplayExit.CloserIsBelowMidpoint | content.js:281 | when the original width is below the viewport width, the session ends exactly when the rounded width is below the midpoint of the two |
| AutoplayExit.CloserIsAboveMidpoint | content.js:281 | when the original width is above the viewport width, the session ends exactly when the rounded width is above the midpoint of the two |
| AutoplayExit.CloserToOriginal | content.js:281 | the test fires only when the original width and the viewport width differ: a video whose original width already filled the viewport never ends the session this way |
| AutoplayExit.ExitAtOriginalStayAtViewport | content.js:281 | a video back at its original width ends the session; one at the viewport width does not |
| FrameStore.Frame.constructor | content.js:407-424 | a new frame has the given timestamp and canvas size and is not released |
| FrameStore.Frame.Release | content.js:489-492 | after release the canvas is 0 x 0; releasing a released frame changes nothing |
| FrameStore.SuffixDistinct | content.js:483-505 | shifting frames off a queue of distinct frames leaves distinct frames, none of them one that was shifted off |
| FrameStore.AppendDistinct | content.js:480 | pushing a frame that is not queued keeps the queued frames distinct |
| FrameStore.ExpiredCount | content.js:483-496 | the age rule removes exactly the longest head run of frames older than the delay: every removed frame is older, and the new head (if any) is not |
| FrameStore.OverflowCount | content.js:498-505 | the size rule removes nothing when there is no bound or the queue fits it; otherwise it removes exactly the excess |
| FrameStore.Evict | content.js:483-505 | the result is a suffix of the queue, in order; it fits the bound; at least the expired head run is gone |
| FrameStore.EvictRemovesOnlyExpiredOrExcess | content.js:483-505 | after the age rule, the size rule removes frames only while the queue is over the bound, and then down to exactly the bound |
| FrameStore.SuffixSorted | content.js:483-505 | shifting from the head keeps an oldest-first queue oldest-first |
| FrameStore.AppendSorted | content.js:480 | appending a frame no older than every queued one keeps the queue oldest-first |
| FrameStore.EvictSorted | content.js:483-505 | eviction keeps an oldest-first queue oldest-first |
| FrameStore.EvictWithinDelay | content.js:483-505 | in an oldest-first queue, every frame left is at most `delay` old |
| FrameStore.NewestSurvives | content.js:480-505 | a frame captured at or after `now` survives eviction as the newest frame when the bound is positive, so the queue is not empty after a capture |
| FrameStore.CaptureStepKeepsOrder | content.js:473-505 | with a non-decreasing clock, one capture step keeps the queue oldest-first, keeps every frame within the delay, keeps the new frame as the newest, and respects the bound |
| FrameStore.ThirtyFpsAtTwoSeconds | content.js:483-496 | a queue holding only the frames of a 30 fps stream from 0, 33, 66 and 100 ms, under a 2000 ms delay, at 2050 ms: the frames from 0 ms and 33 ms are evicted and the head is the frame from 66 ms |
| DelayControl.CaptureSize | content.js:403-408 | a capture is possible exactly when each dimension has an intrinsic or layout size and the ready state is at least 2; the intrinsic size is preferred |
| DelayControl.Capture | content.js:403-430 | a frame is returned exactly when the size is usable, a context is obtained and drawing succeeds; it is new, live and stamped with the capture time |
| DelayControl.SelectionDrawsHeadOrPlaceholder | content.js:509-517 | at most one frame is drawn, and it is the head of the buffer or the placeholder; nothing is drawn exactly when there is no placeholder and either the delay has not passed or the buffer is empty; once the delay has passed, a non-empty buffer's head wins over the placeholder; before the delay has passed, or with an empty buffer, exactly the placeholder is drawn if there is one, and otherwise nothing |
| DelayControl.Selection | content.js:509-517 | the frame a tick draws; its contract is proved separately as `SelectionDrawsHeadOrPlaceholder`, `SelectionLiveUnlessPlaceholder` and `SelectionIsOldest` |
| DelayControl.SelectionLiveUnlessPlaceholder | content.js:509-517 | the frame the selection draws is a live queued frame, unless it is the placeholder |
| DelayControl.SelectionIsOldest | content.js:509-513 | once the delay has passed, the frame drawn from an oldest-first queue is its oldest frame |
| DelayControl.ShiftExpired | content.js:483-496 | the age loop shifts off exactly `ExpiredCount` frames and releases each of them; every frame kept is untouched and live |
| DelayControl.ShiftOverflow | content.js:498-505 | starting after the frames the age loop shifted off, the size loop shifts off exactly `OverflowCount` of the rest and releases each of them; every other frame, kept or already shifted, is untouched, and the frames kept are live |
| DelayControl.EvictFrames | content.js:483-505 | the two loops in order leave `Evict`'s queue; every frame shifted off is released and every frame kept is untouched |
| DelayControl.ReleaseAll | content.js:528-533 | every frame of the queue is released |
| DelayControl.DelayController.constructor | content.js:240-274 | the fields start as in the constructor; the canvas exists only in full-screen or auto-play mode with a context; a first frame becomes the placeholder; processing starts at `now` |
| DelayControl.DelayController.StartProcessing | content.js:456-460 | a second start changes nothing; a first one sets both times to `now` |
| DelayControl.DelayController.HandleFirstFrame | content.js:437-453 | with a ready video, a successful capture replaces the placeholder; the new placeholder is new, live and stamped with the capture time, and is drawn when there is a visible canvas (without one the draw throws and is swallowed); otherwise the placeholder is kept and nothing is drawn |
| DelayControl.DelayController.LoadedDataPlaceholder | content.js:261-269 | with a canvas and a positive delay, a successful capture replaces the placeholder; the new placeholder is new, live and stamped with the capture time, and is drawn; otherwise the placeholder is kept and nothing is drawn |
| DelayControl.DelayController.UpdateFrameInterval | content.js:257-259 | the pacing interval takes the detected value |
| DelayControl.DelayController.Append | content.js:473-481 | the frame is appended; it becomes the placeholder only when there is none; the pacing time becomes `now` |
| DelayControl.DelayController.EvictQueue | content.js:483-505 | the buffer becomes `Evict` of the old buffer; every frame shifted off is released, every frame kept is untouched, and the controller invariant is kept |
| DelayControl.DelayController.Enqueue | content.js:475-505 | the captured frame is pushed and becomes the placeholder only when there is none; the pacing time becomes `now`; the buffer becomes `Evict` of the old buffer plus the frame; every frame shifted off is released and every old frame kept is untouched |
| DelayControl.DelayController.CaptureAndEvict | content.js:470-507 | a frame is captured exactly when the interval has elapsed and capture succeeds; without a capture nothing changes; with one, the placeholder is set only if missing, the buffer is `Evict` of the old buffer plus the frame, every frame shifted off is released, and every old frame kept is untouched |
| DelayControl.DelayController.CaptureAndDraw | content.js:467-518 | with a positive delay and a ready video, the capture part runs and then the selection is drawn, after a placeholder set by this capture; otherwise nothing happens; nothing drawn is a released queued frame; the draw fails exactly when the selection is a released frame, which can only be the placeholder, drawn last |
| DelayControl.DelayController.ProcessFrame | content.js:462-521 | processing stays on exactly when it was on, in full-screen or auto-play mode, with a canvas, and is switched off otherwise; the tick is rescheduled exactly when processing stays on and the selection is not a released frame, since drawing a 0 x 0 canvas throws before line 520; a tick that dies with processing on has drawn the released placeholder last; capture happens only with a positive delay and a ready video, with the effects of `CaptureAndEvict`; what is drawn is a newly set placeholder and then the selection, and it is never a released queued frame |
| DelayControl.DelayController.Stop | content.js:526-570 | every frame that was queued and the placeholder are released; the queue is empty, the placeholder null, processing off and the timing fields 0; re-arming is reported for an auto-played controller; stopping a stopped controller changes nothing |
| DelayControl.DelayController.Reset | content.js:526-567 | the fields end as `stop` leaves them (empty queue, no placeholder, no canvas, processing off, timing and delay 0, both auto-play flags off); on a stopped controller nothing changes |
| DelayControl.DelayController.CheckFullscreen | content.js:276-289 | in auto-play mode, when the test fires the controller stops; otherwise nothing changes |
| DelayControl.Monitor.InitializeDelayController | content.js:203-209 | a controller is created only with a video, in full screen, with a positive delay, and only when there is none; an existing one is kept |

## Left out

- Drawing onto the visible canvas, canvas creation and scaling (`setupCanvas`, `updateCanvasScale`), container insertion and removal, and style resets. These are DOM work. Drawing is reported as the list of frames drawn. The one effect of drawing that is modelled is that `drawImage` throws on a 0 x 0 canvas: the tick then ends without being rescheduled, with processing left on.
- `requestAnimationFrame` and `setInterval` scheduling: each tick and each auto-play check is one method call, and the caller supplies the clock reading.
- The sampling loop of `detectFrameInterval` (60 frame deltas, averaged, inverted into fps). It is driven by timer callbacks and computed in floating point. Only the nearest-rate choice is modelled.
- Cadence.SnapRate: rates and the measurement are integer milli-fps (23.976 fps is 23976), not floating-point numbers. A measurement with finer precision is not modelled.
- DelayControl.DelayController.UpdateFrameInterval: the interval is whole milliseconds. The source stores `1000 / fps`, which is fractional (16.67 ms at 60 fps).
- DelayControl.DelayController.ProcessFrame: the clock is read in whole milliseconds. The size bound `Math.ceil((delay / frameInterval) * 1.5)` is taken as a parameter, with None for a zero interval, where the JavaScript bound is Infinity.
- DelayControl.Capture: the canvas context, `drawImage` and the clock are host calls. They are parameters: whether a context is obtained, whether drawing succeeds, and the time read.
- `monitor.reinitialize()` from `stop`: `Stop` returns whether it is due. Re-arming stops the same controller a second time through `cleanupDelayController`; `Stop` proves that this second call changes nothing.
- The rest of `VideoFullscreenMonitor` (mutation observer, fullscreen and play listeners, `chrome.storage`, messaging, the auto-play start path), `gui.js` and `popup.js`. These are event plumbing and extension APIs.
- The controller's listeners (content.js:257, 261, 339, 451) are never removed; the one at content.js:322 removes itself after its first event. After `stop`, a later `loadeddata` event still runs the first-frame handler, which has no canvas guard. `HandleFirstFrame` models that handler, but the model does not sequence events after `stop`.
- Caption handling: no caption code appears in the source, so there is nothing to model.
