/** The frame store: captured frames and the two eviction rules the playback
    tick applies to its queue, stated as functions on the queue so that their
    properties can be proved once and used by the controller. */
module FrameStore {
  import opened Wrappers

  /** A captured frame: the off-screen canvas the video was drawn into, and
      the clock reading (integer milliseconds) taken when it was drawn. A frame
      is released by setting its canvas width and height to 0; the same object
      can be referenced from more than one place. */
  class Frame {
    const timestamp: int
    var width: nat
    var height: nat

    constructor (timestamp: int, width: nat, height: nat)
      requires width > 0 && height > 0
      ensures this.timestamp == timestamp && this.width == width && this.height == height
      ensures !Released()
    {
      this.timestamp := timestamp;
      this.width := width;
      this.height := height;
    }

    predicate Released()
      reads this
    {
      width == 0 && height == 0
    }

    /** Zero the canvas. Releasing an already released frame changes nothing. */
    method Release()
      modifies this
      ensures Released()
      ensures old(Released()) ==> unchanged(this)
    {
      width := 0;
      height := 0;
    }
  }

  /** Positions `i` and `j` of `q` hold different frames. */
  predicate Apart(q: seq<Frame>, i: nat, j: nat)
    requires i < |q| && j < |q|
  {
    q[i] != q[j]
  }

  /** No frame object occurs twice in `q`. The quantifier fires only on
      `Apart`, so the fact is used where a proof asks for it by name. */
  predicate Distinct(q: seq<Frame>)
  {
    forall i, j {:trigger Apart(q, i, j)} :: 0 <= i < j < |q| ==> Apart(q, i, j)
  }

  /** No frame of `q` has been released. */
  predicate Live(q: seq<Frame>)
    reads q
  {
    forall i :: 0 <= i < |q| ==> !q[i].Released()
  }

  /** Distinct frames sit at distinct positions. */
  lemma DistinctIndices(q: seq<Frame>)
    requires Distinct(q)
    ensures forall i, j :: 0 <= i < j < |q| ==> q[i] != q[j]
  {
    forall i, j | 0 <= i < j < |q|
      ensures q[i] != q[j]
    {
      assert Apart(q, i, j);
    }
  }

  /** Shifting `k` frames off a queue of distinct frames leaves a queue of
      distinct frames, none of which is one of the frames shifted off. */
  lemma SuffixDistinct(q: seq<Frame>, k: nat)
    requires k <= |q| && Distinct(q)
    ensures Distinct(q[k..])
    ensures forall i :: 0 <= i < k ==> q[i] !in q[k..]
  {
    forall i, j | 0 <= i < j < |q| - k
      ensures Apart(q[k..], i, j)
    {
      assert Apart(q, k + i, k + j);
    }
    forall i, j | 0 <= i < k && 0 <= j < |q| - k
      ensures q[k..][j] != q[i]
    {
      assert Apart(q, i, k + j);
    }
  }

  /** Appending a frame that is not queued keeps the queue's frames distinct. */
  lemma AppendDistinct(q: seq<Frame>, f: Frame)
    requires Distinct(q) && f !in q
    ensures Distinct(q + [f])
  {
    forall i, j | 0 <= i < j < |q| + 1
      ensures Apart(q + [f], i, j)
    {
      if j < |q| {
        assert Apart(q, i, j);
      } else {
        assert q[i] in q;
      }
    }
  }

  /** Oldest first: timestamps never decrease along the queue. */
  predicate Sorted(q: seq<Frame>)
  {
    forall i, j :: 0 <= i < j < |q| ==> q[i].timestamp <= q[j].timestamp
  }

  /** Every frame of `q` was captured no later than `t`. */
  predicate AllAtMost(q: seq<Frame>, t: int)
  {
    forall i :: 0 <= i < |q| ==> q[i].timestamp <= t
  }

  /** How many frames the age rule shifts from the head: the longest prefix
      of frames older than `delay` at time `now`, stopping at the first frame
      still inside the window. */
  function ExpiredCount(q: seq<Frame>, now: int, delay: int): (k: nat)
    ensures k <= |q|
    ensures forall i :: 0 <= i < k ==> now - q[i].timestamp > delay
    ensures k < |q| ==> now - q[k].timestamp <= delay
    decreases |q|
  {
    if |q| > 0 && now - q[0].timestamp > delay then 1 + ExpiredCount(q[1..], now, delay) else 0
  }

  /** How many frames the size rule shifts from the head of a queue of
      length `n`: none when there is no bound or the queue is within it,
      otherwise exactly the excess. */
  function OverflowCount(n: nat, maxSize: Option<nat>): (k: nat)
    ensures k <= n
    ensures maxSize.Some? ==> n - k <= maxSize.value
    ensures k > 0 ==> maxSize.Some? && n - k == maxSize.value
  {
    if maxSize.Some? && n > maxSize.value then n - maxSize.value else 0
  }

  /** The queue left by the age rule followed by the size rule. */
  function Evict(q: seq<Frame>, now: int, delay: int, maxSize: Option<nat>): (r: seq<Frame>)
    ensures |r| <= |q| && forall i :: 0 <= i < |r| ==> r[i] == q[|q| - |r| + i]
    ensures maxSize.Some? ==> |r| <= maxSize.value
    ensures |q| - |r| >= ExpiredCount(q, now, delay)
  {
    var expired := ExpiredCount(q, now, delay);
    q[expired + OverflowCount(|q| - expired, maxSize)..]
  }

  /** Each frame the two rules remove was either older than the delay or
      removed while the queue was over its bound; the size rule removes
      nothing from a queue already within the bound. */
  lemma EvictRemovesOnlyExpiredOrExcess(q: seq<Frame>, now: int, delay: int, maxSize: Option<nat>)
    ensures var r := Evict(q, now, delay, maxSize);
            var aged := |q| - ExpiredCount(q, now, delay);
            (maxSize.None? || aged <= maxSize.value ==> |r| == aged)
            && (maxSize.Some? && aged > maxSize.value ==> |r| == maxSize.value)
  {
  }

  /** A suffix of an oldest-first queue is oldest-first. */
  lemma SuffixSorted(q: seq<Frame>, k: nat)
    requires k <= |q|
    requires Sorted(q)
    ensures Sorted(q[k..])
  {
    forall i, j | 0 <= i < j < |q| - k
      ensures q[k..][i].timestamp <= q[k..][j].timestamp
    {
      assert q[k..][i] == q[k + i] && q[k..][j] == q[k + j];
    }
  }

  /** Appending a frame captured no earlier than every queued one keeps the
      queue oldest-first. */
  lemma AppendSorted(q: seq<Frame>, f: Frame)
    requires Sorted(q) && AllAtMost(q, f.timestamp)
    ensures Sorted(q + [f])
  {
    forall i, j | 0 <= i < j < |q| + 1
      ensures (q + [f])[i].timestamp <= (q + [f])[j].timestamp
    {
      if j < |q| {
        assert (q + [f])[i] == q[i] && (q + [f])[j] == q[j];
      } else {
        assert (q + [f])[i] == q[i] && (q + [f])[j] == f;
      }
    }
  }

  /** Eviction keeps an oldest-first queue oldest-first. */
  lemma EvictSorted(q: seq<Frame>, now: int, delay: int, maxSize: Option<nat>)
    requires Sorted(q)
    ensures Sorted(Evict(q, now, delay, maxSize))
  {
    SuffixSorted(q, |q| - |Evict(q, now, delay, maxSize)|);
  }

  /** In an oldest-first queue, every frame left after eviction is at most
      `delay` old at time `now`. */
  lemma EvictWithinDelay(q: seq<Frame>, now: int, delay: int, maxSize: Option<nat>)
    requires Sorted(q)
    ensures forall i :: 0 <= i < |Evict(q, now, delay, maxSize)| ==>
              now - Evict(q, now, delay, maxSize)[i].timestamp <= delay
  {
    var r := Evict(q, now, delay, maxSize);
    var k := ExpiredCount(q, now, delay);
    forall i | 0 <= i < |r|
      ensures now - r[i].timestamp <= delay
    {
      assert r[i] == q[|q| - |r| + i];
      assert q[k].timestamp <= q[|q| - |r| + i].timestamp;
    }
  }

  /** A frame captured at or after `now` is never older than a non-negative
      delay, so unless the bound is zero it survives eviction as the newest
      frame: after a capture the queue is never empty. */
  lemma NewestSurvives(q: seq<Frame>, f: Frame, now: int, delay: int, maxSize: Option<nat>)
    requires now <= f.timestamp && delay >= 0
    requires maxSize.None? || maxSize.value > 0
    ensures var r := Evict(q + [f], now, delay, maxSize);
            |r| > 0 && r[|r| - 1] == f
  {
    var p := q + [f];
    var r := Evict(p, now, delay, maxSize);
    assert p[|p| - 1] == f;
    assert ExpiredCount(p, now, delay) < |p|;
    assert r[|r| - 1] == p[|p| - 1];
  }

  /** One capture step of the tick on an oldest-first queue, with a frame
      stamped no earlier than `now` and than every queued frame, under a
      positive delay and a positive size bound (the tick's bound is at least
      one whenever the delay is positive): the queue stays oldest-first, every
      frame left is at most `delay` old, the new frame is the newest one left,
      and the queue fits the bound. */
  lemma CaptureStepKeepsOrder(q: seq<Frame>, f: Frame, now: int, delay: int, maxSize: Option<nat>)
    requires Sorted(q) && AllAtMost(q, f.timestamp) && now <= f.timestamp && delay > 0
    requires maxSize.None? || maxSize.value > 0
    ensures var r := Evict(q + [f], now, delay, maxSize);
            Sorted(r) && AllAtMost(r, f.timestamp)
            && (forall i :: 0 <= i < |r| ==> now - r[i].timestamp <= delay)
            && |r| > 0 && r[|r| - 1] == f
            && (maxSize.Some? ==> |r| <= maxSize.value)
  {
    AppendSorted(q, f);
    EvictSorted(q + [f], now, delay, maxSize);
    EvictWithinDelay(q + [f], now, delay, maxSize);
    NewestSurvives(q, f, now, delay, maxSize);
    var r := Evict(q + [f], now, delay, maxSize);
    forall i | 0 <= i < |r|
      ensures r[i].timestamp <= f.timestamp
    {
      assert r[i].timestamp <= r[|r| - 1].timestamp;
    }
  }

  /** A queue truncated to four frames of a 30 fps stream (those from 0,
      33, 66 and 100 ms) under a 2000 ms delay, looked at 2050 ms after its
      first frame: the frames from 0 ms and 33 ms are gone and the head is
      the frame from 66 ms. */
  lemma ThirtyFpsAtTwoSeconds(f0: Frame, f1: Frame, f2: Frame, f3: Frame)
    requires f0.timestamp == 0 && f1.timestamp == 33 && f2.timestamp == 66 && f3.timestamp == 100
    ensures Evict([f0, f1, f2, f3], 2050, 2000, None) == [f2, f3]
  {
    var q := [f0, f1, f2, f3];
    assert q[1..] == [f1, f2, f3] && q[1..][1..] == [f2, f3];
    assert ExpiredCount([f2, f3], 2050, 2000) == 0;
    assert ExpiredCount([f1, f2, f3], 2050, 2000) == 1;
    assert ExpiredCount(q, 2050, 2000) == 2;
    assert q[2..] == [f2, f3];
  }
}
