/** The sliding window of AuthenticationInterceptor.swift bounds how often refreshes start. */
module RefreshRate {
  import opened Bits
  import opened Authentication

  /** When each refresh was recorded, fewer than the allowed number lay within the window before it. */
  ghost predicate RateLimited(window: Option<RefreshWindow>, timestamps: seq<real>)
  {
    window.None? || timestamps == [] ||
    var last := |timestamps| - 1;
    && RateLimited(window, timestamps[..last])
    && Since(timestamps[..last], timestamps[last] - window.value.interval) < window.value.maximumAttempts
  }

  /** How many of the timestamps lie in the closed interval. */
  function Within(timestamps: seq<real>, from: real, to: real): nat
  {
    if timestamps == [] then 0
    else
      var last := |timestamps| - 1;
      Within(timestamps[..last], from, to) + if from <= timestamps[last] <= to then 1 else 0
  }

  lemma {:induction false} SinceAntitone(timestamps: seq<real>, from: real, from': real)
    requires from <= from'
    ensures Since(timestamps, from') <= Since(timestamps, from)
  {
    if timestamps == [] {
    } else {
      SinceAntitone(timestamps[..|timestamps| - 1], from, from');
    }
  }

  lemma {:induction false} WithinIsSince(timestamps: seq<real>, from: real, to: real)
    ensures Within(timestamps, from, to) <= Since(timestamps, from)
  {
    if timestamps == [] {
    } else {
      WithinIsSince(timestamps[..|timestamps| - 1], from, to);
    }
  }

  /** The clock read for the record may be later than the one read for the check. */
  lemma RecordKeepsRate(window: Option<RefreshWindow>, timestamps: seq<real>, checked: real, stamped: real)
    requires RateLimited(window, timestamps) && checked <= stamped && !Excessive(window, timestamps, checked)
    ensures RateLimited(window, timestamps + [stamped])
  {
    assert (timestamps + [stamped])[..|timestamps|] == timestamps;
    if window.Some? {
      SinceAntitone(timestamps, checked - window.value.interval, stamped - window.value.interval);
    }
  }

  /** No closed interval as long as the window holds more started refreshes than the maximum. */
  lemma {:induction false} RateBound(window: RefreshWindow, timestamps: seq<real>, from: real)
    requires RateLimited(Some(window), timestamps)
    ensures Within(timestamps, from, from + window.interval) <=
            if window.maximumAttempts > 0 then window.maximumAttempts else 0
    decreases |timestamps|
  {
    if timestamps == [] {
    } else {
      var last := |timestamps| - 1;
      var before, to := timestamps[..last], from + window.interval;
      if from <= timestamps[last] <= to {
        WithinIsSince(before, from, to);
        SinceAntitone(before, timestamps[last] - window.interval, from);
      } else {
        RateBound(window, before, from);
      }
    }
  }

  lemma WantedKeepsRate(s: State, window: Option<RefreshWindow>, credential: nat, checked: real, stamped: real)
    requires RateLimited(window, s.refreshTimestamps) && checked <= stamped
    ensures RateLimited(window, Wanted(s, window, credential, checked, stamped).refreshTimestamps)
  {
    if !Excessive(window, s.refreshTimestamps, checked) {
      RecordKeepsRate(window, s.refreshTimestamps, checked, stamped);
    }
  }
}
