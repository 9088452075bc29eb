/**
  `RPSTrackerMiddleware` (fastapi_seed/middleware/rps_tracker.py): on every
  request it records the current time in a bounded buffer, evicts the
  timestamps older than the window and computes a requests-per-second figure
  from what is left. The lock around these three steps is modelled by running
  them as one sequential method; the clock is the `currentTime` parameter.
*/
module RpsTracker {
  import opened SlidingWindow
  import opened BoundedDeque

  /** Window size in seconds, when none is given. */
  const DefaultWindowSize: int := 60
  /** Number of timestamps kept, when none is given. */
  const DefaultMaxRequests: nat := 1000

  class RpsTrackerMiddleware {
    const windowSize: int
    const requestTimes: TimestampDeque
    /** Every time given to `Dispatch`, oldest first. */
    ghost var history: seq<real>
    /** The last time given to `Dispatch`. */
    ghost var lastTime: real

    ghost predicate Valid()
      reads this, requestTimes, requestTimes.data
    {
      requestTimes.Valid()
    }

    /**
      The buffer is the window of the request history: the most recent
      `max_requests` request times, minus those older than the window at the
      latest request.
    */
    ghost predicate TracksHistory()
      reads this, requestTimes
    {
      if history == [] then requestTimes.Contents == []
      else requestTimes.Contents == WindowAt(history, requestTimes.capacity, windowSize as real, lastTime)
    }

    /** `__init__`: an empty buffer bounded by `maxRequests`. */
    constructor (windowSize: int := DefaultWindowSize, maxRequests: nat := DefaultMaxRequests)
      ensures Valid() && TracksHistory()
      ensures fresh(requestTimes) && fresh(requestTimes.data)
      ensures this.windowSize == windowSize && requestTimes.capacity == maxRequests
      ensures requestTimes.Contents == [] && history == []
    {
      this.windowSize := windowSize;
      requestTimes := new TimestampDeque(maxRequests);
      history := [];
    }

    /**
      `_cleanup_old_requests`: pop timestamps from the front while the oldest
      one is before `currentTime - windowSize`.
    */
    method CleanupOldRequests(currentTime: real)
      requires Valid()
      modifies requestTimes
      ensures Valid()
      ensures requestTimes.Contents == EvictStale(old(requestTimes.Contents), currentTime - windowSize as real)
    {
      var cutoffTime := currentTime - windowSize as real;
      while requestTimes.Size() > 0 && requestTimes.Front() < cutoffTime
        invariant requestTimes.Valid()
        invariant EvictStale(requestTimes.Contents, cutoffTime) == EvictStale(old(requestTimes.Contents), cutoffTime)
        decreases |requestTimes.Contents|
      {
        var _ := requestTimes.PopLeft();
      }
    }

    /**
      `_calculate_rps`: reads the buffer without changing it and returns the
      trailing rate at `currentTime`.
    */
    method CalculateRps(currentTime: real) returns (rps: real)
      requires Valid()
      ensures rps == TrailingRate(requestTimes.Contents, currentTime)
    {
      if requestTimes.Size() == 0 {
        return 0.0;
      }
      var windowStart := requestTimes.Front();
      var windowDuration := currentTime - windowStart;
      if windowDuration == 0.0 {
        return 0.0;
      }
      rps := requestTimes.Size() as real / windowDuration;
    }

    /**
      The locked block of `dispatch`: record, clean up, compute. When the
      clock has not gone back, the buffer stays the window of the history.
    */
    method Dispatch(currentTime: real) returns (rps: real)
      requires Valid()
      modifies this, requestTimes, requestTimes.data
      ensures Valid()
      ensures requestTimes.Contents
              == Step(old(requestTimes.Contents), requestTimes.capacity, windowSize as real, currentTime)
      ensures rps == TrailingRate(requestTimes.Contents, currentTime)
      ensures history == old(history) + [currentTime] && lastTime == currentTime
      ensures old(TracksHistory()) && (old(history) == [] || old(lastTime) <= currentTime) ==> TracksHistory()
    {
      ghost var before := requestTimes.Contents;
      ghost var tracked := TracksHistory() && (history == [] || lastTime <= currentTime);
      ghost var w := windowSize as real;
      requestTimes.Append(currentTime);
      assert requestTimes.Contents == Push(before, requestTimes.capacity, currentTime);
      CleanupOldRequests(currentTime);
      assert requestTimes.Contents == Step(before, requestTimes.capacity, w, currentTime);
      rps := CalculateRps(currentTime);
      if tracked {
        StepExtendsWindow(history, before, requestTimes.capacity, w, lastTime, currentTime);
      }
      history, lastTime := history + [currentTime], currentTime;
    }
  }

  /** The steps of three requests one second apart, under the default settings. */
  lemma SteadyRequestsSteps()
    ensures Step([], 1000, 60.0, 0.0) == [0.0]
    ensures Step([0.0], 1000, 60.0, 1.0) == [0.0, 1.0]
    ensures Step([0.0, 1.0], 1000, 60.0, 2.0) == [0.0, 1.0, 2.0]
    ensures TrailingRate([0.0], 0.0) == 0.0 && TrailingRate([0.0, 1.0, 2.0], 2.0) == 1.5
  {
    assert [0.0] + [1.0] == [0.0, 1.0];
    assert [0.0, 1.0] + [2.0] == [0.0, 1.0, 2.0];
  }

  /** Three requests one second apart: 3 requests over 2 seconds. */
  method ScenarioSteadyRequests()
  {
    var tracker := new RpsTrackerMiddleware();
    SteadyRequestsSteps();
    var rps := tracker.Dispatch(0.0);
    assert rps == 0.0;
    rps := tracker.Dispatch(1.0);
    rps := tracker.Dispatch(2.0);
    assert tracker.requestTimes.Contents == [0.0, 1.0, 2.0] && rps == 1.5;
  }

  /** The steps of a request at 0 and one at 100 with a 60-second window. */
  lemma WindowExpiredSteps()
    ensures Step([], 1000, 60.0, 0.0) == [0.0]
    ensures Step([0.0], 1000, 60.0, 100.0) == [100.0]
    ensures TrailingRate([100.0], 100.0) == 0.0
  {
    assert [0.0] + [100.0] == [0.0, 100.0];
    assert [0.0, 100.0][1..] == [100.0];
  }

  /** A request after the window has passed evicts the earlier one. */
  method ScenarioWindowExpired()
  {
    var tracker := new RpsTrackerMiddleware(60, 1000);
    WindowExpiredSteps();
    var rps := tracker.Dispatch(0.0);
    rps := tracker.Dispatch(100.0);
    assert tracker.requestTimes.Contents == [100.0] && rps == 0.0;
  }

  /** The steps of three requests one second apart in a buffer of two. */
  lemma CapacityDropSteps()
    ensures Step([], 2, 60.0, 0.0) == [0.0]
    ensures Step([0.0], 2, 60.0, 1.0) == [0.0, 1.0]
    ensures Step([0.0, 1.0], 2, 60.0, 2.0) == [1.0, 2.0]
    ensures TrailingRate([1.0, 2.0], 2.0) == 2.0
  {
    assert [0.0] + [1.0] == [0.0, 1.0];
    assert [0.0, 1.0][1..] + [2.0] == [1.0, 2.0];
  }

  /** The capacity drops a request that is still inside the window. */
  method ScenarioCapacityDrop()
  {
    var tracker := new RpsTrackerMiddleware(60, 2);
    CapacityDropSteps();
    var rps := tracker.Dispatch(0.0);
    rps := tracker.Dispatch(1.0);
    rps := tracker.Dispatch(2.0);
    assert tracker.requestTimes.Contents == [1.0, 2.0] && rps == 2.0;
  }
}
