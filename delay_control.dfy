/** The video delay controller: per-tick capture, buffering and selection of
    the delayed frame, the teardown that releases every buffered frame, the
    auto-play exit check, and the monitor's guard that creates at most one
    controller. Times are integer milliseconds of the page's monotonic clock;
    drawing onto the visible canvas is reported as the list of frames drawn. */
module DelayControl {
  import opened Wrappers
  import opened FrameStore
  import AutoplayExit

  /** What the controller reads from the video element: its intrinsic size,
      its layout size, and how much media data it has (2 and above means the
      current frame can be drawn). */
  datatype Video = Video(videoWidth: nat, videoHeight: nat, offsetWidth: nat, offsetHeight: nat, readyState: nat)

  /** What the host does during one capture attempt: whether a 2D context
      was obtained for the off-screen canvas, whether drawing the video into
      it succeeded, and the clock reading taken for the frame's timestamp. */
  datatype Grab = Grab(contextOk: bool, drawOk: bool, at: int)

  /** The size of the canvas a capture would produce, or None when the video
      has no usable size or not enough data. The intrinsic size is preferred
      and the layout size stands in for a missing intrinsic dimension. */
  function CaptureSize(v: Video): (r: Option<(nat, nat)>)
    ensures r.Some? <==> (v.videoWidth > 0 || v.offsetWidth > 0) && (v.videoHeight > 0 || v.offsetHeight > 0)
                         && v.readyState >= 2
    ensures r.Some? ==> r.value.0 > 0 && r.value.1 > 0
    ensures r.Some? ==> r.value.0 == (if v.videoWidth > 0 then v.videoWidth else v.offsetWidth)
    ensures r.Some? ==> r.value.1 == (if v.videoHeight > 0 then v.videoHeight else v.offsetHeight)
  {
    if (v.videoWidth == 0 && v.offsetWidth == 0) || (v.videoHeight == 0 && v.offsetHeight == 0) || v.readyState < 2 then
      None
    else
      Some((if v.videoWidth > 0 then v.videoWidth else v.offsetWidth,
            if v.videoHeight > 0 then v.videoHeight else v.offsetHeight))
  }

  /** Snapshot the current video frame into a new frame, or return null. A
      canvas whose drawing failed is zeroed and dropped, so nothing of it is
      returned. */
  method Capture(video: Video, grab: Grab) returns (frame: Frame?)
    ensures frame != null <==> CaptureSize(video).Some? && grab.contextOk && grab.drawOk
    ensures frame != null ==> fresh(frame) && !frame.Released() && frame.timestamp == grab.at
    ensures frame != null ==> frame.width == CaptureSize(video).value.0 && frame.height == CaptureSize(video).value.1
  {
    var size := CaptureSize(video);
    if size.None? || !grab.contextOk || !grab.drawOk {
      return null;
    }
    frame := new Frame(grab.at, size.value.0, size.value.1);
  }

  /** What the end of a tick draws: the oldest buffered frame once `delay`
      has passed since buffering started and the buffer holds a frame,
      otherwise the placeholder, if there is one. */
  function Selection(q: seq<Frame>, placeholder: Frame?, now: int, start: int, delay: int): (drawn: seq<Frame>)
  {
    if now - start >= delay && |q| > 0 then [q[0]]
    else if placeholder != null then [placeholder]
    else []
  }

  /** At most one frame is drawn, and it is the head of the buffer or the
      placeholder. Nothing is drawn exactly when there is no placeholder and
      no frame is due; once the delay has passed, a non-empty buffer's head
      wins over the placeholder; until then, or while the buffer is empty,
      the placeholder is drawn if there is one, and never the head. */
  lemma SelectionDrawsHeadOrPlaceholder(q: seq<Frame>, placeholder: Frame?, now: int, start: int, delay: int)
    ensures |Selection(q, placeholder, now, start, delay)| <= 1
    ensures forall f :: f in Selection(q, placeholder, now, start, delay) ==>
              (|q| > 0 && f == q[0]) || f == placeholder
    ensures Selection(q, placeholder, now, start, delay) == [] <==>
              placeholder == null && (now - start < delay || |q| == 0)
    ensures now - start >= delay && |q| > 0 ==> Selection(q, placeholder, now, start, delay) == [q[0]]
    ensures now - start < delay || |q| == 0 ==>
              Selection(q, placeholder, now, start, delay) == (if placeholder != null then [placeholder] else [])
  {
  }

  /** Nothing the selection draws is a released frame, except possibly the
      placeholder: a queue whose frames are all live yields a live frame
      unless the placeholder is chosen. */
  lemma SelectionLiveUnlessPlaceholder(q: seq<Frame>, placeholder: Frame?, now: int, start: int, delay: int)
    requires forall i :: 0 <= i < |q| ==> !q[i].Released()
    ensures forall f :: f in Selection(q, placeholder, now, start, delay) ==>
              (f in q && !f.Released()) || f == placeholder
  {
  }

  /** The selection is a released frame: a canvas with a zero dimension,
      which the host's `drawImage` refuses by throwing. */
  predicate ShowsReleased(q: seq<Frame>, placeholder: Frame?, now: int, start: int, delay: int)
    reads q, placeholder
  {
    var shown := Selection(q, placeholder, now, start, delay);
    |shown| == 1 && shown[0].Released()
  }

  /** Once the delay has passed, the selection in an oldest-first queue is
      the oldest frame: no retained frame was captured before it. */
  lemma SelectionIsOldest(q: seq<Frame>, placeholder: Frame?, now: int, start: int, delay: int)
    requires Sorted(q) && |q| > 0 && now - start >= delay
    ensures |Selection(q, placeholder, now, start, delay)| == 1
    ensures forall i :: 0 <= i < |q| ==> Selection(q, placeholder, now, start, delay)[0].timestamp <= q[i].timestamp
  {
  }

  /** The age rule: while the head of the queue is older than `delay` at
      `now`, shift it off and release it. `k` counts the frames shifted. */
  method ShiftExpired(q: seq<Frame>, now: int, delay: int) returns (r: seq<Frame>, k: nat)
    requires Distinct(q) && Live(q)
    modifies q
    ensures k == ExpiredCount(q, now, delay) && r == q[k..]
    ensures forall i :: 0 <= i < k ==> q[i].Released()
    ensures forall i :: k <= i < |q| ==> unchanged(q[i])
    ensures Live(r)
  {
    DistinctIndices(q);
    r, k := q, 0;
    while |r| > 0
      invariant k <= ExpiredCount(q, now, delay)
      invariant r == q[k..]
      invariant forall i :: 0 <= i < k ==> q[i].Released()
      invariant forall i :: k <= i < |q| ==> unchanged(q[i])
      modifies q
      decreases |r|
    {
      var oldest := r[0];
      if now - oldest.timestamp > delay {
        r := r[1..];
        oldest.Release();
        k := k + 1;
      } else {
        break;
      }
    }
  }

  /** The size rule, applied to the queue left once the first `from` frames
      are gone: while more than `maxBufferSize` frames remain (None: no
      bound), shift off the head and release it. */
  method ShiftOverflow(q: seq<Frame>, from: nat, maxBufferSize: Option<nat>) returns (r: seq<Frame>, ghost k: nat)
    requires from <= |q| && Distinct(q)
    requires forall i :: from <= i < |q| ==> !q[i].Released()
    modifies q
    ensures k == from + OverflowCount(|q| - from, maxBufferSize) && r == q[k..]
    ensures forall i :: from <= i < k ==> q[i].Released()
    ensures forall i :: 0 <= i < from || k <= i < |q| ==> unchanged(q[i])
    ensures Live(r)
  {
    DistinctIndices(q);
    r, k := q[from..], from;
    while maxBufferSize.Some? && |r| > maxBufferSize.value
      invariant from <= k <= from + OverflowCount(|q| - from, maxBufferSize)
      invariant r == q[k..]
      invariant forall i :: from <= i < k ==> q[i].Released()
      invariant forall i :: 0 <= i < from || k <= i < |q| ==> unchanged(q[i])
      modifies q
      decreases |r|
    {
      var removed := r[0];
      r := r[1..];
      removed.Release();
      k := k + 1;
    }
  }

  /** Both eviction rules, age first: the queue left is `Evict`'s, every
      frame shifted off is released, and every frame kept is untouched. */
  method EvictFrames(q: seq<Frame>, now: int, delay: int, maxBufferSize: Option<nat>) returns (r: seq<Frame>)
    requires Distinct(q) && Live(q)
    modifies q
    ensures r == Evict(q, now, delay, maxBufferSize)
    ensures forall i :: 0 <= i < |q| - |r| ==> q[i].Released()
    ensures forall i :: |q| - |r| <= i < |q| ==> unchanged(q[i])
    ensures Distinct(r) && Live(r)
  {
    var expired;
    ghost var kept;
    r, expired := ShiftExpired(q, now, delay);
    label Aged:
    forall i | expired <= i < |q|
      ensures !q[i].Released()
    {
      assert q[i] == r[i - expired];
    }
    r, kept := ShiftOverflow(q, expired, maxBufferSize);
    forall i | 0 <= i < expired
      ensures q[i].Released()
    {
      assert unchanged@Aged(q[i]);
    }
    forall i | kept <= i < |q|
      ensures unchanged(q[i])
    {
      assert unchanged@Aged(q[i]);
    }
    SuffixDistinct(q, kept);
  }

  /** Release every frame of `q`, head first. */
  method ReleaseAll(q: seq<Frame>)
    modifies q
    ensures forall i :: 0 <= i < |q| ==> q[i].Released()
  {
    for i := 0 to |q|
      invariant forall j :: 0 <= j < i ==> q[j].Released()
      modifies q
    {
      q[i].Release();
    }
  }

  class DelayController {
    /** The video's layout width when the controller was created. */
    const originalWidth: int
    var delay: int
    /** Buffered frames, oldest first in capture order. */
    var frameQueue: seq<Frame>
    /** The placeholder drawn while the buffer warms up. */
    var initialFrame: Frame?
    var lastFrameTime: int
    var bufferStartTime: int
    /** Whole milliseconds between captures; 0 until the cadence is known. */
    var frameInterval: nat
    var isProcessing: bool
    var isAutoplayed: bool
    var wasAutoplayed: bool
    /** The visible canvas and its 2D context exist. */
    var hasSurface: bool

    /** Buffered frames are distinct and live; there is no buffer without a
        placeholder; and the placeholder occurs in the queue, if at all, only
        at the head (it was the first frame the tick captured). Once that head
        is evicted the placeholder is a released frame that is still
        referenced. */
    ghost predicate Valid()
      reads this, frameQueue
    {
      Distinct(frameQueue) && Live(frameQueue)
      && (initialFrame == null ==> |frameQueue| == 0)
      && (forall i :: 0 < i < |frameQueue| ==> frameQueue[i] != initialFrame)
    }

    /** The state `stop` leaves behind. */
    predicate Stopped()
      reads this
    {
      frameQueue == [] && initialFrame == null && !isProcessing && !hasSurface
      && delay == 0 && frameInterval == 0 && lastFrameTime == 0 && bufferStartTime == 0
      && !isAutoplayed && !wasAutoplayed
    }

    /** Creating a controller sets up the visible canvas (only in full screen
        or auto-play mode, and only if a 2D context is obtained), tries to
        capture a first placeholder frame, and starts the tick. */
    constructor (video: Video, delay: int, autoplayed: bool, fullscreen: bool, contextOk: bool,
                 firstGrab: Grab, now: int)
      ensures Valid()
      ensures originalWidth == video.offsetWidth && this.delay == delay
      ensures isAutoplayed == autoplayed && wasAutoplayed == autoplayed
      ensures hasSurface == ((fullscreen || autoplayed) && contextOk)
      ensures frameQueue == [] && frameInterval == 0
      ensures initialFrame != null <==>
                hasSurface && CaptureSize(video).Some? && firstGrab.contextOk && firstGrab.drawOk
      ensures initialFrame != null ==> fresh(initialFrame) && !initialFrame.Released()
      ensures isProcessing && bufferStartTime == now && lastFrameTime == now
    {
      originalWidth := video.offsetWidth;
      this.delay := delay;
      isAutoplayed, wasAutoplayed := autoplayed, autoplayed;
      frameQueue := [];
      isProcessing := false;
      initialFrame := null;
      frameInterval := 0;
      bufferStartTime, lastFrameTime := now, now;
      hasSurface := (fullscreen || autoplayed) && contextOk;
      new;
      if hasSurface {
        var _, _ := HandleFirstFrame(video, firstGrab);
      }
      StartProcessing(now);
    }

    /** Start the tick unless it is already running. */
    method StartProcessing(now: int)
      modifies this`isProcessing, this`bufferStartTime, this`lastFrameTime
      ensures old(isProcessing) ==> unchanged(this)
      ensures !old(isProcessing) ==> isProcessing && bufferStartTime == now && lastFrameTime == now
    {
      if isProcessing {
        return;
      }
      isProcessing := true;
      bufferStartTime := now;
      lastFrameTime := now;
    }

    /** The first-frame handler: when the video has data, a successful
        capture becomes the placeholder, replacing any earlier one, and is
        drawn. The handler has no canvas guard: without a visible canvas the
        draw throws and is swallowed, after the placeholder is already set. */
    method HandleFirstFrame(video: Video, grab: Grab) returns (frame: Frame?, drawn: seq<Frame>)
      requires Valid()
      modifies this`initialFrame
      ensures Valid()
      ensures frame != null <==> CaptureSize(video).Some? && grab.contextOk && grab.drawOk
      ensures frame != null ==>
                fresh(frame) && !frame.Released() && frame.timestamp == grab.at && initialFrame == frame
      ensures frame == null ==> initialFrame == old(initialFrame)
      ensures drawn == (if frame != null && hasSurface then [frame] else [])
    {
      frame, drawn := null, [];
      if video.readyState >= 2 {
        frame := Capture(video, grab);
        if frame != null {
          initialFrame := frame;
          if hasSurface {
            drawn := [frame];
          }
        }
      }
    }

    /** The data-loaded handler: with a visible canvas and a positive delay,
        a successful capture becomes the placeholder, replacing any earlier
        one, and is drawn. */
    method LoadedDataPlaceholder(video: Video, grab: Grab) returns (frame: Frame?, drawn: seq<Frame>)
      requires Valid()
      modifies this`initialFrame
      ensures Valid()
      ensures frame != null <==>
                hasSurface && delay > 0 && CaptureSize(video).Some? && grab.contextOk && grab.drawOk
      ensures frame != null ==>
                fresh(frame) && !frame.Released() && frame.timestamp == grab.at && initialFrame == frame
      ensures frame == null ==> initialFrame == old(initialFrame)
      ensures drawn == (if frame != null then [frame] else [])
    {
      frame, drawn := null, [];
      if hasSurface && delay > 0 {
        frame := Capture(video, grab);
        if frame != null {
          initialFrame := frame;
          drawn := [frame];
        }
      }
    }

    /** The capture pacing interval takes the cadence detector's value. */
    method UpdateFrameInterval(interval: nat)
      modifies this`frameInterval
      ensures frameInterval == interval
    {
      frameInterval := interval;
    }

    /** Appending a frame just captured: it becomes the placeholder if
        there is none yet, and the pacing time moves to `now`. */
    method Append(frame: Frame, now: int)
      requires Valid() && frame !in frameQueue && frame != initialFrame && !frame.Released()
      modifies this`frameQueue, this`initialFrame, this`lastFrameTime
      ensures Valid()
      ensures frameQueue == old(frameQueue) + [frame] && lastFrameTime == now
      ensures initialFrame == (if old(initialFrame) == null then frame else old(initialFrame))
    {
      AppendDistinct(frameQueue, frame);
      if initialFrame == null {
        initialFrame := frame;
      }
      frameQueue := frameQueue + [frame];
      lastFrameTime := now;
    }

    /** The two eviction rules applied to the buffer. */
    method EvictQueue(now: int, maxBufferSize: Option<nat>)
      requires Valid()
      modifies this`frameQueue, frameQueue
      ensures Valid()
      ensures frameQueue == Evict(old(frameQueue), now, delay, maxBufferSize)
      ensures forall i :: 0 <= i < |old(frameQueue)| - |frameQueue| ==> old(frameQueue)[i].Released()
      ensures forall i :: |old(frameQueue)| - |frameQueue| <= i < |old(frameQueue)| ==> unchanged(old(frameQueue)[i])
    {
      frameQueue := EvictFrames(frameQueue, now, delay, maxBufferSize);
    }

    /** Buffering a frame just captured: append it, then apply both
        eviction rules. Frames shifted off are released; the queued frames
        that stay are untouched. */
    method Enqueue(frame: Frame, now: int, maxBufferSize: Option<nat>)
      requires Valid() && frame !in frameQueue && frame != initialFrame && !frame.Released()
      modifies this`frameQueue, this`initialFrame, this`lastFrameTime, frameQueue, frame
      ensures Valid()
      ensures lastFrameTime == now
      ensures initialFrame == (if old(initialFrame) == null then frame else old(initialFrame))
      ensures frameQueue == Evict(old(frameQueue) + [frame], now, delay, maxBufferSize)
      ensures forall i :: 0 <= i < |old(frameQueue)| + 1 - |frameQueue| ==> (old(frameQueue) + [frame])[i].Released()
      ensures forall i :: |old(frameQueue)| + 1 - |frameQueue| <= i < |old(frameQueue)| ==> unchanged(old(frameQueue)[i])
    {
      Append(frame, now);
      ghost var appended := frameQueue;
      label Appended:
      EvictQueue(now, maxBufferSize);
      forall i | |old(frameQueue)| + 1 - |frameQueue| <= i < |old(frameQueue)|
        ensures unchanged(old(frameQueue)[i])
      {
        assert appended[i] == old(frameQueue)[i];
        assert unchanged@Appended(appended[i]);
      }
    }

    /** The capture part of a tick: once `frameInterval` has elapsed since
        the last capture, capture a frame and, if that succeeds, buffer it. */
    method CaptureAndEvict(video: Video, now: int, grab: Grab, maxBufferSize: Option<nat>)
      returns (captured: Frame?)
      requires Valid()
      modifies this`frameQueue, this`initialFrame, this`lastFrameTime, frameQueue
      ensures Valid()
      ensures captured != null <==>
                now - old(lastFrameTime) >= frameInterval && CaptureSize(video).Some? && grab.contextOk && grab.drawOk
      ensures captured == null ==>
                frameQueue == old(frameQueue) && initialFrame == old(initialFrame)
                && lastFrameTime == old(lastFrameTime)
                && forall f :: f in frameQueue ==> unchanged(f)
      ensures captured != null ==>
                fresh(captured) && captured.timestamp == grab.at
                && lastFrameTime == now
                && initialFrame == (if old(initialFrame) == null then captured else old(initialFrame))
                && frameQueue == Evict(old(frameQueue) + [captured], now, delay, maxBufferSize)
                && (forall i :: 0 <= i < |old(frameQueue)| + 1 - |frameQueue| ==> (old(frameQueue) + [captured])[i].Released())
                && (forall i :: |old(frameQueue)| + 1 - |frameQueue| <= i < |old(frameQueue)| ==> unchanged(old(frameQueue)[i]))
    {
      captured := null;
      if now - lastFrameTime >= frameInterval {
        captured := Capture(video, grab);
        if captured != null {
          Enqueue(captured, now, maxBufferSize);
        }
      }
    }

    /** The body of a tick that goes on: with a positive delay and a video
        that has data, run the capture part and then draw the selected frame;
        a placeholder set by this capture is drawn at once, before the
        selection. */
    method CaptureAndDraw(video: Video, now: int, grab: Grab, maxBufferSize: Option<nat>)
      returns (captured: Frame?, drawn: seq<Frame>, failed: bool)
      requires Valid()
      modifies this`frameQueue, this`initialFrame, this`lastFrameTime, frameQueue
      ensures Valid()
      ensures captured != null <==>
                delay > 0 && video.readyState >= 2 && now - old(lastFrameTime) >= frameInterval
                && CaptureSize(video).Some? && grab.contextOk && grab.drawOk
      ensures captured == null ==>
                frameQueue == old(frameQueue) && initialFrame == old(initialFrame)
                && lastFrameTime == old(lastFrameTime)
                && forall f :: f in frameQueue ==> unchanged(f)
      ensures captured != null ==>
                fresh(captured) && captured.timestamp == grab.at
                && lastFrameTime == now
                && initialFrame == (if old(initialFrame) == null then captured else old(initialFrame))
                && frameQueue == Evict(old(frameQueue) + [captured], now, delay, maxBufferSize)
                && (forall i :: 0 <= i < |old(frameQueue)| + 1 - |frameQueue| ==> (old(frameQueue) + [captured])[i].Released())
                && (forall i :: |old(frameQueue)| + 1 - |frameQueue| <= i < |old(frameQueue)| ==> unchanged(old(frameQueue)[i]))
      ensures drawn ==
                (if captured != null && old(initialFrame) == null then [captured] else [])
                + (if delay > 0 && video.readyState >= 2
                   then Selection(frameQueue, initialFrame, now, bufferStartTime, delay) else [])
      ensures forall f :: f in drawn ==> (f in frameQueue && !f.Released()) || f == initialFrame
      ensures failed <==>
                delay > 0 && video.readyState >= 2
                && ShowsReleased(frameQueue, initialFrame, now, bufferStartTime, delay)
      ensures failed ==>
                initialFrame != null && initialFrame.Released() && |drawn| > 0 && drawn[|drawn| - 1] == initialFrame
    {
      captured, drawn, failed := null, [], false;
      if delay > 0 && video.readyState >= 2 {
        var noPlaceholder := initialFrame == null;
        captured := CaptureAndEvict(video, now, grab, maxBufferSize);
        if captured != null && noPlaceholder {
          drawn := [captured];
        }
        var shown := Selection(frameQueue, initialFrame, now, bufferStartTime, delay);
        SelectionLiveUnlessPlaceholder(frameQueue, initialFrame, now, bufferStartTime, delay);
        failed := |shown| == 1 && shown[0].Released();
        drawn := drawn + shown;
      }
    }

    /** One tick of playback. The tick ends itself, switching processing
        off, when processing was stopped, when neither full screen nor
        auto-play holds, or when there is no visible canvas; otherwise it
        captures and draws and is rescheduled. A draw of a released frame
        throws in the host: the tick is then not rescheduled although
        processing stays on. `maxBufferSize` is the tick's size bound, None
        when the pacing interval is 0 and the bound is infinite. */
    method ProcessFrame(fullscreen: bool, video: Video, now: int, grab: Grab, maxBufferSize: Option<nat>)
      returns (rescheduled: bool, captured: Frame?, drawn: seq<Frame>)
      requires Valid()
      modifies this`isProcessing, this`frameQueue, this`initialFrame, this`lastFrameTime, frameQueue
      ensures Valid()
      ensures isProcessing == (old(isProcessing) && (fullscreen || isAutoplayed) && hasSurface)
      ensures rescheduled <==>
                isProcessing
                && !(delay > 0 && video.readyState >= 2
                     && ShowsReleased(frameQueue, initialFrame, now, bufferStartTime, delay))
      // the loop dies with processing on only by drawing a released placeholder
      ensures isProcessing && !rescheduled ==>
                initialFrame != null && initialFrame.Released() && |drawn| > 0 && drawn[|drawn| - 1] == initialFrame
      ensures captured != null <==>
                isProcessing && delay > 0 && video.readyState >= 2 && now - old(lastFrameTime) >= frameInterval
                && CaptureSize(video).Some? && grab.contextOk && grab.drawOk
      // no capture: the buffer, the placeholder and the pacing time are as before
      ensures captured == null ==>
                frameQueue == old(frameQueue) && initialFrame == old(initialFrame)
                && lastFrameTime == old(lastFrameTime)
                && forall f :: f in frameQueue ==> unchanged(f)
      // a capture: a new frame is appended, the pacing time moves to now, the
      // placeholder is set only if there was none, both eviction rules run,
      // every frame shifted out is released and every frame kept is untouched
      ensures captured != null ==>
                fresh(captured) && captured.timestamp == grab.at
                && lastFrameTime == now
                && initialFrame == (if old(initialFrame) == null then captured else old(initialFrame))
                && frameQueue == Evict(old(frameQueue) + [captured], now, delay, maxBufferSize)
                && (forall i :: 0 <= i < |old(frameQueue)| + 1 - |frameQueue| ==> (old(frameQueue) + [captured])[i].Released())
                && (forall i :: |old(frameQueue)| + 1 - |frameQueue| <= i < |old(frameQueue)| ==> unchanged(old(frameQueue)[i]))
      // drawing: a newly set placeholder at once, then the selection
      ensures drawn ==
                (if captured != null && old(initialFrame) == null then [captured] else [])
                + (if isProcessing && delay > 0 && video.readyState >= 2
                   then Selection(frameQueue, initialFrame, now, bufferStartTime, delay) else [])
      ensures forall f :: f in drawn ==> (f in frameQueue && !f.Released()) || f == initialFrame
    {
      if !isProcessing || (!fullscreen && !isAutoplayed) || !hasSurface {
        isProcessing := false;
        return false, null, [];
      }
      var failed;
      captured, drawn, failed := CaptureAndDraw(video, now, grab, maxBufferSize);
      assert isProcessing;
      rescheduled := !failed;
    }

    /** Tear down: release every buffered frame and the placeholder (which may
        be one of them, or already released), empty the buffer and zero the
        timing state. Returns whether the monitor is to be re-armed, which
        happens for a controller started in auto-play mode; re-arming makes
        the monitor stop this controller once more, and stopping a stopped
        controller changes nothing. */
    method Stop() returns (reinitialize: bool)
      requires Valid()
      modifies this, frameQueue, initialFrame
      ensures Valid()
      ensures Stopped()
      ensures forall f :: f in old(frameQueue) ==> f.Released()
      ensures old(initialFrame) != null ==> old(initialFrame).Released()
      ensures reinitialize == old(wasAutoplayed)
      ensures old(Stopped()) ==> unchanged(this) && !reinitialize
    {
      ReleaseAll(frameQueue);
      if initialFrame != null {
        initialFrame.Release();
      }
      reinitialize := wasAutoplayed;
      Reset();
    }

    /** The fields as `stop` leaves them. */
    method Reset()
      modifies this
      ensures Stopped()
      ensures old(Stopped()) ==> unchanged(this)
    {
      isProcessing, frameQueue, initialFrame, hasSurface := false, [], null, false;
      lastFrameTime, frameInterval, bufferStartTime, delay := 0, 0, 0, 0;
      isAutoplayed, wasAutoplayed := false, false;
    }

    /** The periodic auto-play check: in auto-play mode, once the video's
        on-screen width is closer to its original width than to the
        viewport's, auto-play ends and the controller stops. */
    method CheckFullscreen(rectWidth: real, viewportWidth: int) returns (stopped: bool, reinitialize: bool)
      requires Valid()
      modifies this, frameQueue, initialFrame
      ensures Valid()
      ensures stopped == (old(isAutoplayed) && AutoplayExit.CloserToOriginal(rectWidth, originalWidth, viewportWidth))
      ensures stopped ==> Stopped() && reinitialize == old(wasAutoplayed)
                          && (forall f :: f in old(frameQueue) ==> f.Released())
                          && (old(initialFrame) != null ==> old(initialFrame).Released())
      ensures !stopped ==> !reinitialize && unchanged(this) && unchanged(frameQueue)
                           && (initialFrame != null ==> unchanged(initialFrame))
    {
      stopped, reinitialize := false, false;
      if !isAutoplayed {
        return;
      }
      if AutoplayExit.CloserToOriginal(rectWidth, originalWidth, viewportWidth) {
        isAutoplayed := false;
        reinitialize := Stop();
        stopped := true;
      }
    }
  }

  /** The part of the fullscreen monitor that owns the controller. */
  class Monitor {
    var delay: int
    var activeVideo: Option<Video>
    var delayController: DelayController?

    /** On entering full screen with a video and a positive delay, create a
        controller if there is none; an existing controller is kept. */
    method InitializeDelayController(fullscreen: bool, contextOk: bool, firstGrab: Grab, now: int)
      modifies this`delayController
      ensures old(delayController) != null ==> delayController == old(delayController)
      ensures old(delayController) == null ==>
                (delayController != null <==> activeVideo.Some? && fullscreen && delay > 0)
      ensures delayController != old(delayController) ==>
                fresh(delayController) && delayController.Valid()
                && delayController.delay == delay && delayController.isProcessing
                && !delayController.isAutoplayed && delayController.hasSurface == contextOk
                && delayController.originalWidth == activeVideo.value.offsetWidth
    {
      if activeVideo.None? || !fullscreen || delay <= 0 {
        return;
      }
      if delayController == null {
        delayController := new DelayController(activeVideo.value, delay, false, true, contextOk, firstGrab, now);
      }
    }
  }
}
