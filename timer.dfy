/** A model of the countdown engine of the timer application: the shared timer
    state, the `start_timer` command and the one-second driver loop that it
    spawns.

    The real clock is replaced by an abstract monotonic clock counting
    nanoseconds (the resolution of Rust's `Instant`), passed in as `now`.
    Foreign calls (the `timer_tick` event and the desktop notifications) are
    returned as a list of `Event` values in the order timer.rs issues them.
    Each locked section of timer.rs is one atomic method. */
module Timer {

  const MaxU64: int := 0xFFFF_FFFF_FFFF_FFFF

  /** Rust's `u64`. */
  type U64 = x: int | 0 <= x <= MaxU64

  const SecondsPerMinute: nat := 60
  const NanosPerSecond: nat := 1_000_000_000

  datatype Option<T> = None | Some(value: T)

  /** What the engine tells the outside world. */
  datatype Event =
    | TimerTick(seconds: nat)          // the `timer_tick` event with the remaining whole seconds
    | ThresholdNotice(minutes: nat)    // the "n minutes left" desktop notification
    | ExpiryNotice                     // the "time is up" desktop notification

  /** The value of a `TimerState`: the deadline on the abstract clock, the
      thresholds in seconds and the thresholds already announced. */
  datatype Snapshot = Snapshot(endAt: Option<nat>, notifyAt: seq<U64>, notified: set<U64>)

  /** The outcome of one pass of the driver loop: the new state, what was
      emitted, and whether the loop breaks. */
  datatype StepResult = StepResult(next: Snapshot, events: seq<Event>, stop: bool)

  /** The outcome of one threshold scan: the thresholds announced, in order,
      and the new `notified` set. */
  datatype ScanResult = ScanResult(fired: seq<U64>, notified: set<U64>)

  /** The outcome of running the driver over a series of clock readings. */
  datatype Run = Run(final: Snapshot, events: seq<Event>, steps: nat, stopped: bool)

  /* ---------------------------------------------------------------------- */
  /* Remaining time                                                          */
  /* ---------------------------------------------------------------------- */

  /** `end_at.saturating_duration_since(now).as_secs()`: the whole seconds
      left until the deadline, with any sub-second rest dropped, and zero once
      the deadline has passed. */
  function Remaining(endAt: nat, now: nat): (r: nat)
    ensures endAt <= now ==> r == 0
    ensures now < endAt ==> r * NanosPerSecond <= endAt - now < (r + 1) * NanosPerSecond
    ensures r == 0 <==> endAt < now + NanosPerSecond
  {
    if endAt <= now then 0 else (endAt - now) / NanosPerSecond
  }

  /** With the deadline fixed, the remaining time never grows as the clock
      advances. */
  lemma RemainingNonIncreasing(endAt: nat, now: nat, later: nat)
    requires now <= later
    ensures Remaining(endAt, later) <= Remaining(endAt, now)
  {
  }

  /** A deadline set `seconds` whole seconds ahead reads exactly `seconds`
      at once, and never more afterwards. */
  lemma RemainingAtStart(start: nat, seconds: nat, now: nat)
    requires start <= now
    ensures Remaining(start + seconds * NanosPerSecond, start) == seconds
    ensures Remaining(start + seconds * NanosPerSecond, now) <= seconds
  {
  }

  /* ---------------------------------------------------------------------- */
  /* Starting a run                                                          */
  /* ---------------------------------------------------------------------- */

  /** Every notify minute can be turned into seconds without leaving `u64`. */
  predicate FitsInSeconds(notifyMinutes: seq<U64>)
  {
    forall i :: 0 <= i < |notifyMinutes| ==> notifyMinutes[i] * SecondsPerMinute <= MaxU64
  }

  /** `notify_minutes.into_iter().map(|m| m * 60)`: each threshold in seconds,
      in the caller's order; the minute value is recovered from it exactly. */
  function ToSeconds(notifyMinutes: seq<U64>): (secs: seq<U64>)
    requires FitsInSeconds(notifyMinutes)
    ensures |secs| == |notifyMinutes|
    ensures forall i :: 0 <= i < |secs| ==>
              secs[i] % SecondsPerMinute == 0 && secs[i] / SecondsPerMinute == notifyMinutes[i]
  {
    seq(|notifyMinutes|, i requires 0 <= i < |notifyMinutes| => notifyMinutes[i] * SecondsPerMinute)
  }

  /** Every threshold is a whole number of minutes. */
  predicate WholeMinutes(notifyAt: seq<U64>)
  {
    forall i :: 0 <= i < |notifyAt| ==> notifyAt[i] % SecondsPerMinute == 0
  }

  /** The state invariant: `notified` only holds configured thresholds, and the
      thresholds are whole minutes (they are always written by `start_timer`). */
  predicate WellFormed(s: Snapshot)
  {
    (forall x :: x in s.notified ==> x in s.notifyAt) && WholeMinutes(s.notifyAt)
  }

  /** The state `start_timer` leaves behind when the clock reads `now`. */
  function Started(minutes: U64, notifyMinutes: seq<U64>, now: nat): (s: Snapshot)
    requires minutes * SecondsPerMinute <= MaxU64 && FitsInSeconds(notifyMinutes)
    ensures WellFormed(s) && s.notified == {}
    ensures s.endAt == Some(now + minutes * SecondsPerMinute * NanosPerSecond)
    ensures |s.notifyAt| == |notifyMinutes|
    ensures forall i :: 0 <= i < |s.notifyAt| ==> s.notifyAt[i] / SecondsPerMinute == notifyMinutes[i]
  {
    Snapshot(Some(now + minutes * SecondsPerMinute * NanosPerSecond), ToSeconds(notifyMinutes), {})
  }

  /* ---------------------------------------------------------------------- */
  /* Threshold scan                                                          */
  /* ---------------------------------------------------------------------- */

  /** The configured thresholds at or above the remaining time. */
  function Due(list: seq<U64>, remaining: nat): set<U64>
  {
    set x | x in list && remaining <= x
  }

  /** The `for notify_sec in notify_list` loop: walking the list in order,
      announce each threshold that is at or above the remaining time and not
      yet in `notified`, and add it to `notified`. Its properties are
      `ScanContract`. */
  function ScanThresholds(list: seq<U64>, remaining: nat, notified: set<U64>): ScanResult
    decreases |list|
  {
    if |list| == 0 then ScanResult([], notified)
    else
      var before := ScanThresholds(list[..|list| - 1], remaining, notified);
      var x := list[|list| - 1];
      if remaining <= x && x !in before.notified then
        ScanResult(before.fired + [x], before.notified + {x})
      else
        before
  }

  /** A scan leaves every due threshold notified and nothing else added; it
      announces only due thresholds that were not yet notified, each at most
      once, and misses none of them, however far the remaining time has
      jumped since the previous pass. */
  lemma {:induction false} ScanContract(list: seq<U64>, remaining: nat, notified: set<U64>)
    ensures var res := ScanThresholds(list, remaining, notified);
            res.notified == notified + Due(list, remaining) &&
            (forall i :: 0 <= i < |res.fired| ==>
               res.fired[i] in list && remaining <= res.fired[i] && res.fired[i] !in notified) &&
            (forall i, j :: 0 <= i < j < |res.fired| ==> res.fired[i] != res.fired[j]) &&
            (forall x :: x in list && remaining <= x && x !in notified ==> x in res.fired)
    decreases |list|
  {
    if |list| > 0 {
      var prefix := list[..|list| - 1];
      var x := list[|list| - 1];
      assert list == prefix + [x];
      ScanContract(prefix, remaining, notified);
      assert Due(list, remaining) == Due(prefix, remaining) + (if remaining <= x then {x} else {});
    }
  }

  /** One more entry of the list extends the scan by that entry alone. */
  lemma ScanExtend(list: seq<U64>, i: nat, remaining: nat, notified: set<U64>)
    requires i < |list|
    ensures var before := ScanThresholds(list[..i], remaining, notified);
            ScanThresholds(list[..i + 1], remaining, notified)
              == if remaining <= list[i] && list[i] !in before.notified
                 then ScanResult(before.fired + [list[i]], before.notified + {list[i]})
                 else before
  {
    assert list[..i + 1][..i] == list[..i];
  }

  /** An independent reading of which thresholds a scan announces: walking
      the list, each entry that is due, not yet notified and not an earlier
      duplicate. */
  function FirstDueOccurrences(list: seq<U64>, remaining: nat, notified: set<U64>): seq<U64>
    decreases |list|
  {
    if |list| == 0 then []
    else
      var prefix := list[..|list| - 1];
      var x := list[|list| - 1];
      FirstDueOccurrences(prefix, remaining, notified)
        + (if remaining <= x && x !in notified && x !in prefix then [x] else [])
  }

  /** The scan announces the due, not yet notified thresholds in list order,
      each at its first occurrence only. */
  lemma {:induction false} ScanFiresFirstOccurrences(list: seq<U64>, remaining: nat, notified: set<U64>)
    ensures ScanThresholds(list, remaining, notified).fired == FirstDueOccurrences(list, remaining, notified)
    decreases |list|
  {
    if |list| > 0 {
      var prefix := list[..|list| - 1];
      var x := list[|list| - 1];
      ScanFiresFirstOccurrences(prefix, remaining, notified);
      ScanContract(prefix, remaining, notified);
      var before := ScanThresholds(prefix, remaining, notified);
      if remaining <= x {
        assert x in before.notified <==> x in notified || x in prefix;
      }
    }
  }

  /** The notifications for the announced thresholds, `notify_sec / 60`
      minutes each. */
  function Notices(fired: seq<U64>): (events: seq<Event>)
    ensures |events| == |fired|
    ensures forall i :: 0 <= i < |fired| ==> events[i] == ThresholdNotice(fired[i] / SecondsPerMinute)
  {
    if |fired| == 0 then [] else Notices(fired[..|fired| - 1]) + [ThresholdNotice(fired[|fired| - 1] / SecondsPerMinute)]
  }

  lemma NoticesAppend(fired: seq<U64>, x: U64)
    ensures Notices(fired + [x]) == Notices(fired) + [ThresholdNotice(x / SecondsPerMinute)]
  {
  }

  /* ---------------------------------------------------------------------- */
  /* One pass of the driver loop                                             */
  /* ---------------------------------------------------------------------- */

  /** The body of the driver loop after its `sleep`, run under the lock with
      the clock reading `now`. Its properties are `DriverStepContract`. */
  function DriverStep(s: Snapshot, now: nat): StepResult
  {
    match s.endAt
    case None => StepResult(s, [], true)
    case Some(e) =>
      var remaining := Remaining(e, now);
      var scan := ScanThresholds(s.notifyAt, remaining, s.notified);
      if remaining == 0 then
        StepResult(Snapshot(None, s.notifyAt, scan.notified), Notices(scan.fired) + [ExpiryNotice, TimerTick(0)], true)
      else
        StepResult(Snapshot(s.endAt, s.notifyAt, scan.notified), Notices(scan.fired) + [TimerTick(remaining)], false)
  }

  /** What one pass of the driver loop does. */
  lemma DriverStepContract(s: Snapshot, now: nat)
    // No deadline: break without emitting anything or changing the state.
    ensures s.endAt.None? ==> DriverStep(s, now) == StepResult(s, [], true)
    // The thresholds are kept; every due threshold is notified afterwards.
    ensures s.endAt.Some? ==>
              DriverStep(s, now).next.notifyAt == s.notifyAt &&
              DriverStep(s, now).next.notified == s.notified + Due(s.notifyAt, Remaining(s.endAt.value, now))
    // The loop stops exactly when no whole second is left, and then the deadline is gone.
    ensures s.endAt.Some? ==> (DriverStep(s, now).stop <==> Remaining(s.endAt.value, now) == 0)
    ensures DriverStep(s, now).stop ==> DriverStep(s, now).next.endAt.None?
    // Expiry: the "time is up" notification and then a final tick of 0.
    ensures var res := DriverStep(s, now);
            s.endAt.Some? && res.stop ==>
              |res.events| >= 2 && res.events[|res.events| - 2..] == [ExpiryNotice, TimerTick(0)]
    // Otherwise: the deadline is kept and the last event is the remaining time.
    ensures var res := DriverStep(s, now);
            !res.stop ==>
              res.next.endAt == s.endAt && |res.events| >= 1 &&
              res.events[|res.events| - 1] == TimerTick(Remaining(s.endAt.value, now)) &&
              Remaining(s.endAt.value, now) > 0
    // Everything before that tail is a threshold notification: one tick per pass.
    ensures s.endAt.Some? ==>
              var res := DriverStep(s, now);
              var k := if res.stop then 2 else 1;
              |res.events| >= k && forall i :: 0 <= i < |res.events| - k ==> res.events[i].ThresholdNotice?
    ensures WellFormed(s) ==> WellFormed(DriverStep(s, now).next)
  {
    if s.endAt.Some? {
      ScanContract(s.notifyAt, Remaining(s.endAt.value, now), s.notified);
    }
  }

  /** The driver loop over the clock readings `nows`, one per pass, until it
      breaks or the readings run out. */
  function RunDriver(s: Snapshot, nows: seq<nat>): Run
    decreases |nows|
  {
    if |nows| == 0 then Run(s, [], 0, false)
    else
      var step := DriverStep(s, nows[0]);
      if step.stop then Run(step.next, step.events, 1, true)
      else
        var rest := RunDriver(step.next, nows[1..]);
        Run(rest.final, step.events + rest.events, rest.steps + 1, rest.stopped)
  }

  function Max(a: nat, b: nat): nat { if a < b then b else a }

  /** If the deadline is at most `seconds` whole seconds after `start` and the
      i-th pass of the loop sees the clock at least i + 1 seconds after
      `start`, the loop reaches the expiry branch and stops within
      `max(seconds, 1)` passes (so within `seconds + 1`). */
  lemma {:induction false} DriverExpiresWithin(s: Snapshot, start: nat, seconds: nat, nows: seq<nat>)
    requires s.endAt.Some? && s.endAt.value <= start + seconds * NanosPerSecond
    requires |nows| >= Max(seconds, 1)
    requires forall i :: 0 <= i < |nows| ==> start + (i + 1) * NanosPerSecond <= nows[i]
    ensures RunDriver(s, nows).stopped
    ensures 1 <= RunDriver(s, nows).steps <= Max(seconds, 1)
    ensures RunDriver(s, nows).final.endAt.None?
    decreases |nows|
  {
    var e := s.endAt.value;
    var step := DriverStep(s, nows[0]);
    DriverStepContract(s, nows[0]);
    assert start + NanosPerSecond <= nows[0];
    if !step.stop {
      assert nows[0] < e;
      assert seconds >= 2;
      var rest := nows[1..];
      forall i | 0 <= i < |rest|
        ensures (start + NanosPerSecond) + (i + 1) * NanosPerSecond <= rest[i]
      {
        assert rest[i] == nows[i + 1];
      }
      DriverExpiresWithin(step.next, start + NanosPerSecond, seconds - 1, rest);
    }
  }

  /** A run started with `minutes`, whose i-th pass reads the clock at least
      i + 1 seconds after the start (the one-second sleep before each pass),
      ends by itself within `minutes * 60 + 1` passes, with the deadline cleared and the final
      tick of 0 as the last event. */
  lemma StartedTimerExpires(minutes: U64, notifyMinutes: seq<U64>, now: nat, nows: seq<nat>)
    requires minutes * SecondsPerMinute <= MaxU64 && FitsInSeconds(notifyMinutes)
    requires |nows| >= minutes * SecondsPerMinute + 1
    requires forall i :: 0 <= i < |nows| ==> now + (i + 1) * NanosPerSecond <= nows[i]
    ensures RunDriver(Started(minutes, notifyMinutes, now), nows).stopped
    ensures RunDriver(Started(minutes, notifyMinutes, now), nows).steps <= minutes * SecondsPerMinute + 1
    ensures RunDriver(Started(minutes, notifyMinutes, now), nows).final.endAt.None?
    ensures var events := RunDriver(Started(minutes, notifyMinutes, now), nows).events;
            |events| >= 2 && events[|events| - 2..] == [ExpiryNotice, TimerTick(0)]
  {
    var s := Started(minutes, notifyMinutes, now);
    DriverExpiresWithin(s, now, minutes * SecondsPerMinute, nows);
    RunEndsWithFinalTick(s, nows);
  }

  /** A run that stops on a deadline ends with the expiry notification and
      the final tick of 0. */
  lemma {:induction false} RunEndsWithFinalTick(s: Snapshot, nows: seq<nat>)
    requires s.endAt.Some? && RunDriver(s, nows).stopped
    ensures var events := RunDriver(s, nows).events;
            |events| >= 2 && events[|events| - 2..] == [ExpiryNotice, TimerTick(0)]
    decreases |nows|
  {
    var step := DriverStep(s, nows[0]);
    DriverStepContract(s, nows[0]);
    if !step.stop {
      RunEndsWithFinalTick(step.next, nows[1..]);
      var rest := RunDriver(step.next, nows[1..]).events;
      assert (step.events + rest)[|step.events + rest| - 2..] == rest[|rest| - 2..];
    }
  }

  /** The notifications in a sequence of events, as minutes. */
  function NoticeMinutes(events: seq<Event>): (ms: seq<nat>)
    ensures |ms| <= |events|
  {
    if |events| == 0 then []
    else
      NoticeMinutes(events[..|events| - 1])
        + (match events[|events| - 1] case ThresholdNotice(m) => [m] case _ => [])
  }

  lemma NoticeMinutesAppend(a: seq<Event>, b: seq<Event>)
    ensures NoticeMinutes(a + b) == NoticeMinutes(a) + NoticeMinutes(b)
    decreases |b|
  {
    if |b| > 0 {
      assert (a + b)[..|a + b| - 1] == a + b[..|b| - 1];
      NoticeMinutesAppend(a, b[..|b| - 1]);
    } else {
      assert a + b == a;
    }
  }

  lemma {:induction false} NoticeMinutesOfNotices(fired: seq<U64>)
    ensures NoticeMinutes(Notices(fired)) == seq(|fired|, i requires 0 <= i < |fired| => fired[i] / SecondsPerMinute)
    decreases |fired|
  {
    if |fired| > 0 {
      var prefix := fired[..|fired| - 1];
      NoticeMinutesOfNotices(prefix);
      assert Notices(fired)[..|fired| - 1] == Notices(prefix);
    }
  }

  /** A whole number of minutes, in seconds, is recovered from its minutes. */
  lemma WholeMinuteRoundTrip(x: int)
    requires x % SecondsPerMinute == 0
    ensures (x / SecondsPerMinute) * SecondsPerMinute == x
  {
  }

  /** The minutes a pass announces are those of the thresholds its scan
      fires, in the same order. */
  lemma StepNoticeMinutes(s: Snapshot, now: nat)
    requires s.endAt.Some?
    ensures var fired := ScanThresholds(s.notifyAt, Remaining(s.endAt.value, now), s.notified).fired;
            NoticeMinutes(DriverStep(s, now).events)
              == seq(|fired|, i requires 0 <= i < |fired| => fired[i] / SecondsPerMinute)
  {
    var remaining := Remaining(s.endAt.value, now);
    var scan := ScanThresholds(s.notifyAt, remaining, s.notified);
    NoticeMinutesOfNotices(scan.fired);
    if remaining == 0 {
      var tail := [ExpiryNotice, TimerTick(0)];
      assert DriverStep(s, now).events == Notices(scan.fired) + tail;
      assert tail[..1] == [ExpiryNotice];
      assert NoticeMinutes(tail) == [];
      NoticeMinutesAppend(Notices(scan.fired), tail);
    } else {
      var tail := [TimerTick(remaining)];
      assert DriverStep(s, now).events == Notices(scan.fired) + tail;
      assert NoticeMinutes(tail) == [];
      NoticeMinutesAppend(Notices(scan.fired), tail);
    }
  }

  /** No minute value is announced twice. */
  predicate Distinct(ms: seq<nat>)
  {
    forall i, j :: 0 <= i < j < |ms| ==> ms[i] != ms[j]
  }

  /** Every announced minute value is, in seconds, one of `thresholds`. */
  predicate AllIn(ms: seq<nat>, thresholds: set<U64>)
  {
    forall i :: 0 <= i < |ms| ==> ms[i] * SecondsPerMinute in thresholds
  }

  /** No announced minute value is, in seconds, one of `thresholds`. */
  predicate NoneIn(ms: seq<nat>, thresholds: set<U64>)
  {
    forall i :: 0 <= i < |ms| ==> ms[i] * SecondsPerMinute !in thresholds
  }

  function Elements(list: seq<U64>): set<U64>
  {
    set x | x in list
  }

  lemma DistinctAppend(a: seq<nat>, b: seq<nat>, split: set<U64>)
    requires Distinct(a) && Distinct(b) && AllIn(a, split) && NoneIn(b, split)
    ensures Distinct(a + b)
  {
  }

  /** Within one pass, each announced threshold is configured, was not yet
      notified, is notified afterwards, and is announced once. */
  lemma StepNotifiesOnce(s: Snapshot, now: nat)
    requires WellFormed(s)
    ensures var step := DriverStep(s, now);
            var ms := NoticeMinutes(step.events);
            Distinct(ms) && AllIn(ms, Elements(s.notifyAt)) && NoneIn(ms, s.notified) &&
            AllIn(ms, step.next.notified)
  {
    if s.endAt.Some? {
      var remaining := Remaining(s.endAt.value, now);
      var scan := ScanThresholds(s.notifyAt, remaining, s.notified);
      ScanContract(s.notifyAt, remaining, s.notified);
      DriverStepContract(s, now);
      StepNoticeMinutes(s, now);
      var ms := NoticeMinutes(DriverStep(s, now).events);
      forall i | 0 <= i < |ms|
        ensures ms[i] * SecondsPerMinute == scan.fired[i]
      {
        var k :| 0 <= k < |s.notifyAt| && s.notifyAt[k] == scan.fired[i];
        WholeMinuteRoundTrip(scan.fired[i]);
      }
    }
  }

  /** Over a whole run, each threshold is announced at most once, only if it
      is configured and was not already notified when the run began. */
  lemma {:induction false} RunNotifiesOnce(s: Snapshot, nows: seq<nat>)
    requires WellFormed(s)
    ensures var ms := NoticeMinutes(RunDriver(s, nows).events);
            Distinct(ms) && AllIn(ms, Elements(s.notifyAt)) && NoneIn(ms, s.notified)
    decreases |nows|
  {
    if |nows| > 0 {
      var step := DriverStep(s, nows[0]);
      StepNotifiesOnce(s, nows[0]);
      if !step.stop {
        DriverStepContract(s, nows[0]);
        RunNotifiesOnce(step.next, nows[1..]);
        var rest := RunDriver(step.next, nows[1..]);
        NoticeMinutesAppend(step.events, rest.events);
        var mine := NoticeMinutes(step.events);
        var theirs := NoticeMinutes(rest.events);
        assert NoticeMinutes(RunDriver(s, nows).events) == mine + theirs;
        DistinctAppend(mine, theirs, step.next.notified);
        assert AllIn(mine + theirs, Elements(s.notifyAt)) by {
          assert Elements(step.next.notifyAt) == Elements(s.notifyAt);
          forall i | 0 <= i < |mine + theirs| ensures (mine + theirs)[i] * SecondsPerMinute in Elements(s.notifyAt) {
            if i >= |mine| { assert (mine + theirs)[i] == theirs[i - |mine|]; }
          }
        }
        assert NoneIn(mine + theirs, s.notified) by {
          assert s.notified <= step.next.notified;
          forall i | 0 <= i < |mine + theirs| ensures (mine + theirs)[i] * SecondsPerMinute !in s.notified {
            if i >= |mine| { assert (mine + theirs)[i] == theirs[i - |mine|]; }
          }
        }
      }
    }
  }

  /** Every threshold a pass adds to `notified` is announced in that pass. */
  lemma StepAnnouncesNewlyNotified(s: Snapshot, now: nat)
    ensures var step := DriverStep(s, now);
            forall x :: x in step.next.notified && x !in s.notified ==>
              x / SecondsPerMinute in NoticeMinutes(step.events)
  {
    if s.endAt.Some? {
      var remaining := Remaining(s.endAt.value, now);
      var scan := ScanThresholds(s.notifyAt, remaining, s.notified);
      ScanContract(s.notifyAt, remaining, s.notified);
      StepNoticeMinutes(s, now);
      var ms := NoticeMinutes(DriverStep(s, now).events);
      forall x | x in DriverStep(s, now).next.notified && x !in s.notified
        ensures x / SecondsPerMinute in ms
      {
        assert x in scan.fired;
        var k :| 0 <= k < |scan.fired| && scan.fired[k] == x;
        assert ms[k] == x / SecondsPerMinute;
      }
    }
  }

  /** Every threshold a run adds to `notified` is announced during the run. */
  lemma {:induction false} RunAnnouncesNewlyNotified(s: Snapshot, nows: seq<nat>)
    ensures var run := RunDriver(s, nows);
            forall x :: x in run.final.notified && x !in s.notified ==>
              x / SecondsPerMinute in NoticeMinutes(run.events)
    decreases |nows|
  {
    if |nows| > 0 {
      var step := DriverStep(s, nows[0]);
      StepAnnouncesNewlyNotified(s, nows[0]);
      if !step.stop {
        RunAnnouncesNewlyNotified(step.next, nows[1..]);
        var rest := RunDriver(step.next, nows[1..]);
        NoticeMinutesAppend(step.events, rest.events);
        var mine := NoticeMinutes(step.events);
        var theirs := NoticeMinutes(rest.events);
        assert NoticeMinutes(RunDriver(s, nows).events) == mine + theirs;
        forall x | x in rest.final.notified && x !in s.notified
          ensures x / SecondsPerMinute in mine + theirs
        {
          if x in step.next.notified {
            assert x / SecondsPerMinute in mine;
          } else {
            assert x / SecondsPerMinute in theirs;
          }
        }
      }
    }
  }

  /** A run that reaches expiry has notified every configured threshold: the
      expiry pass sees 0 seconds left, and every threshold is at or above 0. */
  lemma {:induction false} ExpiredRunNotifiesAll(s: Snapshot, nows: seq<nat>)
    requires s.endAt.Some? && RunDriver(s, nows).stopped
    ensures RunDriver(s, nows).final.notified == s.notified + Elements(s.notifyAt)
    decreases |nows|
  {
    var step := DriverStep(s, nows[0]);
    DriverStepContract(s, nows[0]);
    if step.stop {
      assert Due(s.notifyAt, 0) == Elements(s.notifyAt);
    } else {
      ExpiredRunNotifiesAll(step.next, nows[1..]);
    }
  }

  /** A run that reaches expiry announces every configured threshold that was
      not notified when it began. */
  lemma ExpiredRunAnnouncesAll(s: Snapshot, nows: seq<nat>)
    requires s.endAt.Some? && RunDriver(s, nows).stopped
    ensures forall x :: x in s.notifyAt && x !in s.notified ==>
              x / SecondsPerMinute in NoticeMinutes(RunDriver(s, nows).events)
  {
    ExpiredRunNotifiesAll(s, nows);
    RunAnnouncesNewlyNotified(s, nows);
  }

  /** A run started with `minutes` and the notify minutes, whose i-th pass
      reads the clock at least i + 1 seconds after the start, announces each
      notify minute exactly once and nothing else. */
  lemma StartedRunAnnouncesEachMinuteOnce(minutes: U64, notifyMinutes: seq<U64>, now: nat, nows: seq<nat>)
    requires minutes * SecondsPerMinute <= MaxU64 && FitsInSeconds(notifyMinutes)
    requires |nows| >= minutes * SecondsPerMinute + 1
    requires forall i :: 0 <= i < |nows| ==> now + (i + 1) * NanosPerSecond <= nows[i]
    ensures var ms := NoticeMinutes(RunDriver(Started(minutes, notifyMinutes, now), nows).events);
            Distinct(ms) &&
            (forall i :: 0 <= i < |notifyMinutes| ==> notifyMinutes[i] in ms) &&
            (forall m :: m in ms ==> m in notifyMinutes)
  {
    var s := Started(minutes, notifyMinutes, now);
    var ms := NoticeMinutes(RunDriver(s, nows).events);
    StartedTimerExpires(minutes, notifyMinutes, now, nows);
    ExpiredRunAnnouncesAll(s, nows);
    RunNotifiesOnce(s, nows);
    forall i | 0 <= i < |notifyMinutes| ensures notifyMinutes[i] in ms {
      assert s.notifyAt[i] in s.notifyAt;
    }
    forall m | m in ms ensures m in notifyMinutes {
      var i :| 0 <= i < |ms| && ms[i] == m;
      assert m * SecondsPerMinute in Elements(s.notifyAt);
      var k :| 0 <= k < |s.notifyAt| && s.notifyAt[k] == m * SecondsPerMinute;
      assert notifyMinutes[k] == m;
    }
  }

  /** After a restart, the first pass announces every configured threshold
      at or above the remaining time, in minutes as the caller gave them,
      even those announced in the previous run. */
  lemma RestartRefiresThresholds(minutes: U64, notifyMinutes: seq<U64>, now: nat, later: nat, i: nat)
    requires minutes * SecondsPerMinute <= MaxU64 && FitsInSeconds(notifyMinutes)
    requires i < |notifyMinutes|
    requires Remaining(now + minutes * SecondsPerMinute * NanosPerSecond, later) <= notifyMinutes[i] * SecondsPerMinute
    ensures ThresholdNotice(notifyMinutes[i]) in DriverStep(Started(minutes, notifyMinutes, now), later).events
  {
    var s := Started(minutes, notifyMinutes, now);
    var remaining := Remaining(s.endAt.value, later);
    var scan := ScanThresholds(s.notifyAt, remaining, s.notified);
    ScanContract(s.notifyAt, remaining, s.notified);
    var x := s.notifyAt[i];
    assert x == notifyMinutes[i] * SecondsPerMinute;
    assert x in scan.fired;
    var k :| 0 <= k < |scan.fired| && scan.fired[k] == x;
    var step := DriverStep(s, later);
    assert Notices(scan.fired)[k] == ThresholdNotice(notifyMinutes[i]);
    assert step.events[k] == Notices(scan.fired)[k];
  }

  /* ---------------------------------------------------------------------- */
  /* The shared timer state                                                  */
  /* ---------------------------------------------------------------------- */

  /** `TimerState`, the one state shared by the command and the driver. */
  class TimerState {
    var endAt: Option<nat>
    var notifyAt: seq<U64>
    var notified: set<U64>

    function Snap(): Snapshot
      reads this
    {
      Snapshot(endAt, notifyAt, notified)
    }

    ghost predicate Valid()
      reads this
    {
      WellFormed(Snap())
    }

    /** `TimerState::new`: no deadline, no thresholds, nothing notified. */
    constructor ()
      ensures Valid()
      ensures endAt == None && notifyAt == [] && notified == {}
    {
      endAt := None;
      notifyAt := [];
      notified := {};
    }

    /** `start_timer`: set the deadline `minutes` ahead of `now`, replace the
        thresholds, clear `notified`, then emit the first tick as read at
        `tickNow` (timer.rs reads the clock a second time for it). */
    method StartTimer(minutes: U64, notifyMinutes: seq<U64>, now: nat, tickNow: nat) returns (events: seq<Event>)
      requires minutes * SecondsPerMinute <= MaxU64 && FitsInSeconds(notifyMinutes)
      requires now <= tickNow
      modifies this
      ensures Valid()
      ensures Snap() == Started(minutes, notifyMinutes, now)
      ensures events == [TimerTick(Remaining(now + minutes * SecondsPerMinute * NanosPerSecond, tickNow))]
      ensures events[0].seconds <= minutes * SecondsPerMinute
      ensures now == tickNow ==> events[0].seconds == minutes * SecondsPerMinute
    {
      var totalSeconds := minutes * SecondsPerMinute;
      var notifySeconds := ToSeconds(notifyMinutes);
      endAt := Some(now + totalSeconds * NanosPerSecond);
      notifyAt := notifySeconds;
      notified := {};

      var remaining := Remaining(endAt.value, tickNow);
      RemainingAtStart(now, totalSeconds, tickNow);
      events := [TimerTick(remaining)];
    }

    /** One pass of the driver loop under the lock, with the clock at `now`;
        `stop` is the loop's `break`. */
    method Tick(now: nat) returns (events: seq<Event>, stop: bool)
      requires Valid()
      modifies this
      ensures Valid()
      ensures StepResult(Snap(), events, stop) == DriverStep(old(Snap()), now)
    {
      if endAt.None? {
        return [], true;
      }
      var remaining := Remaining(endAt.value, now);
      var notifyList := notifyAt;
      events := [];
      ghost var fired: seq<U64> := [];
      for i := 0 to |notifyList|
        invariant notifyAt == notifyList && endAt == old(endAt)
        invariant ScanResult(fired, notified) == ScanThresholds(notifyList[..i], remaining, old(notified))
        invariant events == Notices(fired)
      {
        var notifySec := notifyList[i];
        ScanExtend(notifyList, i, remaining, old(notified));
        if remaining <= notifySec && notifySec !in notified {
          var minutesLeft := notifySec / SecondsPerMinute;
          NoticesAppend(fired, notifySec);
          events := events + [ThresholdNotice(minutesLeft)];
          notified := notified + {notifySec};
          fired := fired + [notifySec];
        }
      }
      assert notifyList[..|notifyList|] == notifyList;
      ghost var scan := ScanThresholds(notifyList, remaining, old(notified));
      assert fired == scan.fired && notified == scan.notified;
      DriverStepContract(old(Snap()), now);

      if remaining == 0 {
        events := events + [ExpiryNotice];
        endAt := None;
        events := events + [TimerTick(0)];
        stop := true;
        assert DriverStep(old(Snap()), now) == StepResult(Snap(), events, stop);
        return;
      }
      events := events + [TimerTick(remaining)];
      stop := false;
      assert DriverStep(old(Snap()), now) == StepResult(Snap(), events, stop);
    }

    /** The driver loop: one pass per clock reading in `nows` (each after a
        one-second sleep), until a pass breaks or the readings run out. */
    method Drive(nows: seq<nat>) returns (events: seq<Event>, steps: nat, stopped: bool)
      requires Valid()
      modifies this
      ensures Valid()
      ensures Run(Snap(), events, steps, stopped) == RunDriver(old(Snap()), nows)
    {
      events, steps, stopped := [], 0, false;
      var i := 0;
      while i < |nows|
        invariant 0 <= i <= |nows| && steps == i && Valid()
        invariant var rest := RunDriver(Snap(), nows[i..]);
                  RunDriver(old(Snap()), nows) == Run(rest.final, events + rest.events, steps + rest.steps, rest.stopped)
      {
        ghost var before := Snap();
        var passEvents, stop := Tick(nows[i]);
        assert nows[i..][1..] == nows[i + 1..];
        events := events + passEvents;
        steps := steps + 1;
        i := i + 1;
        if stop {
          stopped := true;
          return;
        }
      }
      assert events + [] == events;
    }
  }
}
