/** The wrong-prediction alerting path of the sentiment API (api/main.py): every
    feedback that says a prediction was wrong is written to an append-only log, its
    time joins a sliding window of recent wrong predictions, and while that window
    holds ALERT_THRESHOLD or more times an ALERT record is written as well. */
module FeedbackApi {
  import opened Results

  /** Timestamps are integers in microseconds, the resolution of Python's `datetime`. */
  const SECOND: int := 1_000_000
  const MINUTE: int := 60 * SECOND

  /** Number of wrong predictions inside the window that raises an alert. */
  const ALERT_THRESHOLD: nat := 3
  /** Length of the sliding window (`timedelta(minutes=5)`). */
  const ALERT_WINDOW: int := 5 * MINUTE
  /** The window length as the alert message prints it: total seconds / 60, no decimals. */
  const WINDOW_MINUTES: nat := 5

  /** One line of the feedback log; `at` is the time the line was written. */
  datatype LogEntry =
    | WrongPrediction(at: int, text: string, prediction: int, proba: Option<real>)
    | Alert(at: int, count: nat, windowMinutes: nat)

  /** The body of a `/feedback` request and its reply. */
  datatype FeedbackIn = FeedbackIn(text: string, prediction: int, proba: Option<real>, isCorrect: bool)
  datatype FeedbackOut = FeedbackOut(status: string)

  const RECEIVED: string := "received"

  // ---------------------------------------------------------------------------
  // The sliding window as values
  // ---------------------------------------------------------------------------

  /** Every time is at least the one before it (defined from the back, the way calls
      extend the history). */
  ghost predicate NonDecreasing(ts: seq<int>)
    decreases |ts|
  {
    |ts| < 2 || (ts[|ts| - 2] <= ts[|ts| - 1] && NonDecreasing(ts[..|ts| - 1]))
  }

  function Last(ts: seq<int>): int
    requires ts != []
  {
    ts[|ts| - 1]
  }

  /** How many times lazy eviction drops from the front of `window`: it pops the front for
      as long as the front is strictly older than `cutoff`. Everything dropped is older
      than `cutoff`; the first time kept (if any) is not, so a time equal to `cutoff` stays. */
  function Expired(window: seq<int>, cutoff: int): (n: nat)
    ensures n <= |window|
    ensures forall i :: 0 <= i < n ==> window[i] < cutoff
    ensures n < |window| ==> window[n] >= cutoff
    decreases |window|
  {
    if window != [] && window[0] < cutoff then 1 + Expired(window[1..], cutoff) else 0
  }

  /** The window left after lazy eviction against `cutoff`: a suffix of `window`. */
  function Evict(window: seq<int>, cutoff: int): seq<int>
  {
    window[Expired(window, cutoff)..]
  }

  /** The window after one wrong prediction at `now`: evict against `now - ALERT_WINDOW`,
      then append `now`. */
  function Observe(window: seq<int>, now: int): seq<int>
  {
    Evict(window, now - ALERT_WINDOW) + [now]
  }

  /** The ALERT record written for a window of this size, if any (level-triggered: it
      depends on the size alone, not on whether the previous call alerted). */
  function AlertFor(window: seq<int>, now: int): (r: seq<LogEntry>)
    ensures |r| <= 1
    ensures r != [] <==> |window| >= ALERT_THRESHOLD
    ensures r != [] ==> r[0] == Alert(now, |window|, WINDOW_MINUTES)
  {
    if |window| >= ALERT_THRESHOLD then [Alert(now, |window|, WINDOW_MINUTES)] else []
  }

  /** The window after wrong predictions at `times`, in call order, from an empty one. */
  function Run(times: seq<int>): seq<int>
    decreases |times|
  {
    if times == [] then [] else Observe(Run(times[..|times| - 1]), Last(times))
  }

  lemma {:induction false} BoundedByLast(s: seq<int>)
    requires NonDecreasing(s) && s != []
    ensures forall i :: 0 <= i < |s| ==> s[i] <= Last(s)
    decreases |s|
  {
    if |s| >= 2 {
      var p := s[..|s| - 1];
      BoundedByLast(p);
      forall i | 0 <= i < |s| - 1 ensures s[i] <= Last(s) {
        assert s[i] == p[i] && Last(p) == s[|s| - 2];
      }
    }
  }

  lemma {:induction false} SuffixNonDecreasing(s: seq<int>, k: nat)
    requires NonDecreasing(s) && k <= |s|
    ensures NonDecreasing(s[k..])
    decreases |s|
  {
    if |s| - k >= 2 {
      var p := s[..|s| - 1];
      SuffixNonDecreasing(p, k);
      assert s[k..][..|s[k..]| - 1] == p[k..];
    }
  }

  /** One step keeps every time in the window inside [now - ALERT_WINDOW, now], provided
      the calls come with non-decreasing times. A time equal to the cutoff is kept. */
  lemma ObserveStaysInWindow(window: seq<int>, now: int)
    requires NonDecreasing(window)
    requires window == [] || Last(window) <= now
    ensures forall i :: 0 <= i < |Observe(window, now)| ==> now - ALERT_WINDOW <= Observe(window, now)[i] <= now
  {
    var cutoff := now - ALERT_WINDOW;
    var d := Expired(window, cutoff);
    var kept := window[d..];
    assert Observe(window, now) == kept + [now];
    if kept != [] {
      SuffixNonDecreasing(window, d);
      BoundedByLast(kept);
      FirstIsLeast(kept);
      assert kept[0] == window[d] && Last(kept) == Last(window);
    }
  }

  lemma {:induction false} FirstIsLeast(s: seq<int>)
    requires NonDecreasing(s) && s != []
    ensures forall i :: 0 <= i < |s| ==> s[0] <= s[i]
    decreases |s|
  {
    if |s| >= 2 {
      var p := s[..|s| - 1];
      FirstIsLeast(p);
      BoundedByLast(p);
      forall i | 0 <= i < |s| ensures s[0] <= s[i] {
        if i < |s| - 1 {
          assert s[i] == p[i];
        } else {
          assert p[0] <= Last(p) == s[|s| - 2];
        }
      }
    }
  }

  /** One step keeps the window sorted, provided the calls come with non-decreasing times. */
  lemma ObserveKeepsWindowSorted(window: seq<int>, now: int)
    requires NonDecreasing(window)
    requires window == [] || Last(window) <= now
    ensures NonDecreasing(Observe(window, now))
  {
    var kept := Evict(window, now - ALERT_WINDOW);
    var r := Observe(window, now);
    assert r == kept + [now] && r[..|r| - 1] == kept;
    if kept != [] {
      SuffixNonDecreasing(window, |window| - |kept|);
      assert Last(kept) == Last(window);
    }
  }

  /** The inductive step of RunIsTrailingWindow, stated without Run: if `w` is the sorted
      trailing part of `prev` within the window of its last call, then observing `now`
      gives the trailing part of `prev + [now]` within the window of `now`. */
  lemma TrailingStep(prev: seq<int>, w: seq<int>, now: int)
    requires prev != [] && Last(prev) <= now
    requires |w| <= |prev| && w == prev[|prev| - |w|..]
    requires forall i :: 0 <= i < |prev| - |w| ==> prev[i] < Last(prev) - ALERT_WINDOW
    requires NonDecreasing(w)
    ensures |Observe(w, now)| <= |prev| + 1
    ensures Observe(w, now) == (prev + [now])[|prev| + 1 - |Observe(w, now)|..]
    ensures forall i :: 0 <= i < |prev| + 1 - |Observe(w, now)| ==> (prev + [now])[i] < now - ALERT_WINDOW
    ensures forall i :: 0 <= i < |Observe(w, now)| ==> now - ALERT_WINDOW <= Observe(w, now)[i] <= now
  {
    DropsOnlyExpired(prev, w, now);
    if w != [] {
      assert Last(w) == Last(prev);
    }
    ObserveStaysInWindow(w, now);
  }

  lemma DropsOnlyExpired(prev: seq<int>, w: seq<int>, now: int)
    requires prev != [] && Last(prev) <= now
    requires |w| <= |prev| && w == prev[|prev| - |w|..]
    requires forall i :: 0 <= i < |prev| - |w| ==> prev[i] < Last(prev) - ALERT_WINDOW
    ensures |Observe(w, now)| <= |prev| + 1
    ensures Observe(w, now) == (prev + [now])[|prev| + 1 - |Observe(w, now)|..]
    ensures forall i :: 0 <= i < |prev| + 1 - |Observe(w, now)| ==> (prev + [now])[i] < now - ALERT_WINDOW
  {
    var cutoff := now - ALERT_WINDOW;
    var m := |prev| - |w|;
    var kept := Evict(w, cutoff);
    var j := |w| - |kept|;
    var times := prev + [now];
    assert kept == prev[m + j..];
    assert Observe(w, now) == kept + [now] == times[m + j..];
    forall i | 0 <= i < m + j
      ensures times[i] < cutoff
    {
      assert times[i] == prev[i];
      if i < m {
        assert Last(prev) == prev[|prev| - 1];
      } else {
        assert prev[i] == w[i - m];
      }
    }
  }

  /** With non-decreasing call times, the window after the calls is exactly the trailing
      part of the call times that lies within ALERT_WINDOW of the latest call: a suffix
      of `times`, all of whose dropped times are older than the cutoff, all of whose kept
      times are not. */
  lemma {:induction false} RunIsTrailingWindow(times: seq<int>)
    requires times != [] && NonDecreasing(times)
    ensures 0 < |Run(times)| <= |times|
    ensures Run(times) == times[|times| - |Run(times)|..]
    ensures forall i :: 0 <= i < |times| - |Run(times)| ==> times[i] < Last(times) - ALERT_WINDOW
    ensures forall i :: 0 <= i < |Run(times)| ==> Last(times) - ALERT_WINDOW <= Run(times)[i] <= Last(times)
  {
    var prev := times[..|times| - 1];
    var now := Last(times);
    assert times == prev + [now];
    if prev == [] {
      assert Run(prev) == [];
      assert Run(times) == [now] == times;
    } else {
      RunIsTrailingWindow(prev);
      var w := Run(prev);
      assert Last(prev) == times[|times| - 2];
      SuffixNonDecreasing(prev, |prev| - |w|);
      TrailingStep(prev, w, now);
      assert Run(times) == Observe(w, now);
    }
  }

  /** If every call lies within ALERT_WINDOW of the latest one, nothing is
      evicted and the window counts every call. */
  lemma NoEvictionWithinWindow(times: seq<int>)
    requires times != [] && NonDecreasing(times)
    requires forall i :: 0 <= i < |times| ==> times[i] >= Last(times) - ALERT_WINDOW
    ensures Run(times) == times
  {
    RunIsTrailingWindow(times);
  }

  /** A call older than `latest - ALERT_WINDOW` is no longer counted. */
  lemma ExpiredCallExcluded(times: seq<int>, i: int)
    requires times != [] && NonDecreasing(times)
    requires 0 <= i < |times| && times[i] < Last(times) - ALERT_WINDOW
    ensures times[i] !in Run(times)
    ensures |Run(times)| <= |times| - 1 - i
  {
    RunIsTrailingWindow(times);
    var w := Run(times);
    var k := |times| - |w|;
    forall j | k <= j < |times|
      ensures times[j] >= Last(times) - ALERT_WINDOW
    {
      assert times[j] == w[j - k];
    }
  }

  /** Calls spaced more than ALERT_WINDOW apart never raise an alert: the window only ever
      holds the latest call. */
  lemma {:induction false} SparseCallsNeverAlert(times: seq<int>)
    requires times != []
    requires forall i :: 0 < i < |times| ==> times[i] - times[i - 1] > ALERT_WINDOW
    ensures Run(times) == [Last(times)]
    ensures AlertFor(Run(times), Last(times)) == []
  {
    var prev := times[..|times| - 1];
    if prev == [] {
      assert Run(prev) == [];
    } else {
      SparseCallsNeverAlert(prev);
      assert Last(prev) == times[|times| - 2];
      assert Expired(Run(prev), Last(times) - ALERT_WINDOW) == 1;
    }
  }

  /** Three calls one second apart: the times are non-decreasing and all inside one window. */
  lemma BurstIsOneWindow(t: int)
    ensures NonDecreasing([t, t + SECOND])
    ensures NonDecreasing([t, t + SECOND, t + 2 * SECOND])
    ensures NonDecreasing([t, t + SECOND, t + 2 * SECOND, t + 3 * SECOND])
    ensures NonDecreasing([t, t + SECOND, t + 2 * SECOND, t + 6 * MINUTE])
  {
    assert [t, t + SECOND][..1] == [t];
    assert [t, t + SECOND, t + 2 * SECOND][..2] == [t, t + SECOND];
    assert [t, t + SECOND, t + 2 * SECOND, t + 3 * SECOND][..3] == [t, t + SECOND, t + 2 * SECOND];
    assert [t, t + SECOND, t + 2 * SECOND, t + 6 * MINUTE][..3] == [t, t + SECOND, t + 2 * SECOND];
  }

  /** Level-triggered alerting: calls at t, t+1s and t+2s alert with count 3; a fourth at
      t+3s alerts again, with count 4. */
  lemma BurstAlertsOnEveryCall(t: int)
    ensures Run([t, t + SECOND, t + 2 * SECOND]) == [t, t + SECOND, t + 2 * SECOND]
    ensures AlertFor(Run([t, t + SECOND]), t + SECOND) == []
    ensures AlertFor(Run([t, t + SECOND, t + 2 * SECOND]), t + 2 * SECOND)
            == [Alert(t + 2 * SECOND, 3, WINDOW_MINUTES)]
    ensures AlertFor(Run([t, t + SECOND, t + 2 * SECOND, t + 3 * SECOND]), t + 3 * SECOND)
            == [Alert(t + 3 * SECOND, 4, WINDOW_MINUTES)]
  {
    BurstIsOneWindow(t);
    NoEvictionWithinWindow([t, t + SECOND]);
    NoEvictionWithinWindow([t, t + SECOND, t + 2 * SECOND]);
    NoEvictionWithinWindow([t, t + SECOND, t + 2 * SECOND, t + 3 * SECOND]);
  }

  /** After the burst above, a call six minutes after the first one finds every earlier
      call expired: the window holds that call alone and no alert is raised. */
  lemma LateCallAfterBurst(t: int)
    ensures Run([t, t + SECOND, t + 2 * SECOND, t + 6 * MINUTE]) == [t + 6 * MINUTE]
    ensures AlertFor(Run([t, t + SECOND, t + 2 * SECOND, t + 6 * MINUTE]), t + 6 * MINUTE) == []
  {
    var times := [t, t + SECOND, t + 2 * SECOND, t + 6 * MINUTE];
    BurstIsOneWindow(t);
    RunIsTrailingWindow(times);
    ExpiredCallExcluded(times, 2);
  }

  // ---------------------------------------------------------------------------
  // The log as values
  // ---------------------------------------------------------------------------

  /** The times of the WRONG_PREDICTION lines of a log, in log order. */
  function WrongTimes(log: seq<LogEntry>): seq<int>
    decreases |log|
  {
    if log == [] then []
    else WrongTimes(log[..|log| - 1]) + (if log[|log| - 1].WrongPrediction? then [log[|log| - 1].at] else [])
  }

  /** Every ALERT line directly follows the WRONG_PREDICTION line of the call that raised it
      and reports a window of at least ALERT_THRESHOLD predictions over WINDOW_MINUTES. */
  ghost predicate AlertsFollowTheirEvent(log: seq<LogEntry>) {
    forall i :: 0 <= i < |log| && log[i].Alert? ==>
      0 < i && log[i - 1].WrongPrediction? && log[i - 1].at == log[i].at
      && log[i].count >= ALERT_THRESHOLD && log[i].windowMinutes == WINDOW_MINUTES
  }

  /** Appending one call's lines (its WRONG_PREDICTION line, then its possible ALERT line)
      extends the recorded call times by that call and keeps every alert after its event. */
  lemma {:induction false} AppendCallLines(log: seq<LogEntry>, e: LogEntry, alerts: seq<LogEntry>, window: seq<int>)
    requires e.WrongPrediction? && alerts == AlertFor(window, e.at)
    requires AlertsFollowTheirEvent(log)
    ensures WrongTimes(log + [e] + alerts) == WrongTimes(log) + [e.at]
    ensures AlertsFollowTheirEvent(log + [e] + alerts)
  {
    assert (log + [e])[..|log|] == log;
    assert WrongTimes(log + [e]) == WrongTimes(log) + [e.at];
    if alerts != [] {
      assert (log + [e] + alerts)[..|log| + 1] == log + [e];
    } else {
      assert log + [e] + alerts == log + [e];
    }
  }

  // ---------------------------------------------------------------------------
  // The module-level state of api/main.py
  // ---------------------------------------------------------------------------

  /** `wrong_predictions_buffer` and the lines this process appends to the feedback log
      file (the file is opened in append mode, so lines of earlier runs stay before them
      and are not modelled). The ghost `calls` records the time of every wrong-prediction
      call so far, to state what the buffer holds. */
  class FeedbackService {
    var buffer: seq<int>
    var log: seq<LogEntry>
    ghost var calls: seq<int>

    /** The buffer is the window left by the recorded calls, and the log holds one
        WRONG_PREDICTION line per call, each possibly followed by its ALERT line. */
    ghost predicate Valid()
      reads this
    {
      buffer == Run(calls) && WrongTimes(log) == calls && AlertsFollowTheirEvent(log)
    }

    /** Process start: empty buffer, and no line appended yet by this process. */
    constructor ()
      ensures Valid() && buffer == [] && log == [] && calls == []
    {
      buffer := [];
      log := [];
      calls := [];
    }

    /** `_append_feedback_log`: add one line, stamped with `at`, to the log. */
    method AppendFeedbackLog(entry: LogEntry)
      modifies this`log
      ensures log == old(log) + [entry]
    {
      log := log + [entry];
    }

    /** `_check_and_update_alerts`: evict expired times from the front of the buffer, one
        `pop(0)` at a time, append `now`, and write an ALERT line while the buffer holds at
        least ALERT_THRESHOLD times. */
    method CheckAndUpdateAlerts(now: int)
      modifies this
      ensures buffer == Observe(old(buffer), now)
      ensures log == old(log) + AlertFor(buffer, now)
      ensures calls == old(calls) + [now]
    {
      var cutoff := now - ALERT_WINDOW;
      while buffer != [] && buffer[0] < cutoff
        invariant Evict(buffer, cutoff) == Evict(old(buffer), cutoff)
        invariant log == old(log) && calls == old(calls)
        decreases |buffer|
      {
        assert Evict(buffer, cutoff) == Evict(buffer[1..], cutoff);
        buffer := buffer[1..];
      }
      assert buffer == Evict(old(buffer), cutoff);
      buffer := buffer + [now];
      calls := calls + [now];
      if |buffer| >= ALERT_THRESHOLD {
        AppendFeedbackLog(Alert(now, |buffer|, WINDOW_MINUTES));
      }
    }

    /** `log_wrong_prediction`: write the WRONG_PREDICTION line, then update the window and
        possibly alert. Exactly one WRONG_PREDICTION line and at most one ALERT line are
        appended, in that order; earlier lines are untouched. */
    method LogWrongPrediction(text: string, prediction: int, proba: Option<real>, now: int)
      requires Valid()
      modifies this
      ensures Valid()
      ensures calls == old(calls) + [now]
      ensures buffer == Observe(old(buffer), now)
      ensures log == old(log) + [WrongPrediction(now, text, prediction, proba)] + AlertFor(buffer, now)
    {
      AppendFeedbackLog(WrongPrediction(now, text, prediction, proba));
      CheckAndUpdateAlerts(now);
      AppendCallLines(old(log), WrongPrediction(now, text, prediction, proba), AlertFor(buffer, now), buffer);
    }

    /** `feedback`: a wrong prediction goes down the alerting path; a correct one changes
        nothing. Either way the reply is "received". */
    method Feedback(request: FeedbackIn, now: int) returns (response: FeedbackOut)
      requires Valid()
      modifies this
      ensures Valid()
      ensures response.status == RECEIVED
      ensures request.isCorrect ==> buffer == old(buffer) && log == old(log) && calls == old(calls)
      ensures !request.isCorrect ==>
        calls == old(calls) + [now] && buffer == Observe(old(buffer), now)
        && log == old(log) + [WrongPrediction(now, request.text, request.prediction, request.proba)]
                  + AlertFor(buffer, now)
    {
      if !request.isCorrect {
        LogWrongPrediction(request.text, request.prediction, request.proba, now);
      }
      response := FeedbackOut(RECEIVED);
    }
  }
}
