# Countdown timer engine

This project models the countdown engine of a small desktop countdown timer
(a Tauri application). The engine keeps one shared `TimerState`: an optional
deadline `end_at`, the notification thresholds `notify_at` in seconds, and the
set `notified` of thresholds already announced. The `start_timer` command sets
a new deadline and new thresholds, clears `notified` and emits a first
`timer_tick`. It then spawns a driver that wakes once a second. On each pass
the driver computes the whole seconds left, saturating at zero. It shows a
"n minutes left" notification for every threshold at or above that value that
has not been announced yet. When no whole second is left, it shows the "time
is up" notification, clears the deadline, emits a final tick of 0 and stops.
Otherwise it emits the remaining seconds.

Everything is in `timer.dfy`, module `Timer`:

- `TimerState` is a class with the three fields of the Rust struct. Its methods are
  `StartTimer`, `Tick` (one locked pass of the driver loop, `stop` standing
  for its `break`) and `Drive` (the loop itself, over a finite series of
  clock readings).
- Each method is proved against a pure function of the old state:
  `Started`, `DriverStep` and `RunDriver`. The lemmas state the engine's
  properties about those functions.
- The clock is an abstract natural number counting nanoseconds, the
  resolution of Rust's `Instant`. It is passed in as `now`.
  `start_timer` reads the clock twice: once for the deadline and once for
  the first tick. These are the parameters `now` and `tickNow`.
- The `timer_tick` emits and the desktop notifications are returned, in the
  order timer.rs issues them, as `Event` values: `TimerTick(seconds)`,
  `ThresholdNotice(minutes)` and `ExpiryNotice`.
- Rust's `u64` is the subset type `U64`. The products `minutes * 60`
  and `m * 60` for each notify minute must fit in it. This is a precondition
  of `StartTimer`, `Started` and `ToSeconds`.

The Rust code has no pause, resume or stop command, no status event and no
input validation. Only `start_timer` exists, and it is the only registered
command (src-tauri/src/lib.rs:15-17). Thresholds are compared in seconds and
fire "at or below" (`remaining <= notify_sec`), not on equal whole minutes.
The remaining time is always recomputed from the fixed deadline, so no clock
drift accumulates between passes.

## Model

| member | source | states |
|---|---|---|
| `Timer.Remaining` | src-tauri/src/timer.rs:72 | the remaining time is the whole seconds to the deadline, with the sub-second rest dropped: `r*1e9 <= end_at - now < (r+1)*1e9`. It is 0 once the deadline has passed, and 0 exactly when less than one second is left |
| `Timer.RemainingNonIncreasing` | src-tauri/src/timer.rs:72 | with `end_at` fixed, the remaining time never grows as the clock advances |
| `Timer.RemainingAtStart` | src-tauri/src/timer.rs:41-56 | a deadline `minutes*60` seconds ahead reads exactly `minutes*60` at the start instant, and never more at any later reading |
| `Timer.ToSeconds` | src-tauri/src/timer.rs:37 | each notify minute becomes seconds, in the same order. Each value is a whole minute, and dividing by 60 (the `notify_sec / 60` of the notification) gives back the caller's minute exactly |
| `Timer.Started` | src-tauri/src/timer.rs:36-44 | after a start the deadline is `now + minutes*60` seconds, the thresholds are the notify minutes ×60 in order, and `notified` is empty. The state invariant holds |
| `Timer.TimerState.constructor` | src-tauri/src/timer.rs:18-24 | a fresh `TimerState` has no deadline, no thresholds and nothing notified |
| `Timer.TimerState.StartTimer` | src-tauri/src/timer.rs:30-59 | the new state is `Started(minutes, notify_minutes, now)`. The only event is the first tick, which is at most `minutes*60` and equals it when read at the start instant |
| `Timer.ScanContract` | src-tauri/src/timer.rs:75-90 | after the threshold loop, `notified` is the old set plus every configured threshold `>= remaining`, and nothing else. It announces only such thresholds that were not yet notified, each once, and misses none, so a late pass that skipped past a threshold still fires it |
| `Timer.ScanFiresFirstOccurrences` | src-tauri/src/timer.rs:77-90 | the announced thresholds are exactly the due, not yet notified list entries, in list order, each at its first occurrence (a duplicate threshold is announced once) |
| `Timer.Notices` | src-tauri/src/timer.rs:79-86 | one notification per announced threshold, reporting `notify_sec / 60` minutes, in announcement order |
| `Timer.DriverStepContract` | src-tauri/src/timer.rs:67-105 | with no deadline, a pass breaks with no events and no change. Otherwise `notify_at` is unchanged and `notified` gains exactly the due thresholds. The pass stops iff remaining is 0, and then the deadline is cleared and the events end with the expiry notice and tick 0. Otherwise the deadline is kept and the last event is the tick with the positive remaining time. Every event before that tail is a threshold notification, so a pass emits exactly one tick. The state invariant is preserved |
| `Timer.TimerState.Tick` | src-tauri/src/timer.rs:65-105 | one locked pass of the driver loop leaves the state, events and stop flag given by `DriverStep` on the old state, and keeps the invariant (`notified` only holds configured thresholds) |
| `Timer.TimerState.Drive` | src-tauri/src/timer.rs:61-107 | the driver loop over a series of clock readings ends in the state, with the events, pass count and stop flag given by `RunDriver` on the old state |
| `Timer.DriverExpiresWithin` | src-tauri/src/timer.rs:62-103 | if the deadline is at most `seconds` after `start` and the i-th pass reads the clock at least `i+1` seconds after `start`, the loop stops within `max(seconds, 1)` passes, with the deadline cleared |
| `Timer.StartedTimerExpires` | src-tauri/src/timer.rs:36-103 | a run started with `minutes`, whose i-th pass reads the clock at least `i+1` seconds after the start (the one-second sleep before each pass), stops within `minutes*60 + 1` passes. Its deadline is cleared and its last two events are the expiry notice and tick 0 |
| `Timer.RunEndsWithFinalTick` | src-tauri/src/timer.rs:92-102 | any run of the loop that stops on a deadline ends with the expiry notice followed by tick 0 |
| `Timer.StepNotifiesOnce` | src-tauri/src/timer.rs:77-90 | within one pass, each announced minute is announced once. It is a configured threshold, was not notified before the pass, and is notified after it |
| `Timer.RunNotifiesOnce` | src-tauri/src/timer.rs:62-106 | over a whole run of the loop, no threshold is announced twice. Every announced threshold is configured and was not notified when the run began |
| `Timer.StepAnnouncesNewlyNotified` | src-tauri/src/timer.rs:78-88 | every threshold a pass adds to `notified` is announced in that pass, as `notify_sec / 60` minutes |
| `Timer.RunAnnouncesNewlyNotified` | src-tauri/src/timer.rs:62-106 | every threshold a run of the loop adds to `notified` is announced during the run |
| `Timer.ExpiredRunNotifiesAll` | src-tauri/src/timer.rs:78-102 | a run that reaches expiry ends with `notified` equal to the old set plus every configured threshold, because the expiry pass sees 0 seconds left and every threshold is at or above 0 |
| `Timer.ExpiredRunAnnouncesAll` | src-tauri/src/timer.rs:62-106 | a run that reaches expiry announces every configured threshold that was not notified when it began |
| `Timer.StartedRunAnnouncesEachMinuteOnce` | src-tauri/src/timer.rs:36-106 | a run started with `minutes` and the notify minutes, with the i-th pass at least `i+1` seconds after the start, announces each notify minute exactly once and no other minute |
| `Timer.RestartRefiresThresholds` | src-tauri/src/timer.rs:43-88 | after a (re)start, the first pass announces every notify minute whose threshold is at or above the remaining time, with its original minute value. This holds even for minutes announced in an earlier run, because `notified` was cleared |

## Left out

- Thread spawning, the `Arc<Mutex<_>>` lock and the one-second `sleep`
  (src-tauri/src/timer.rs:27, 47, 61-65). Each locked section is one atomic
  method. The gaps between passes are the caller's series of clock readings.
- Two drivers left running by overlapping `start_timer` calls, and a driver
  from an earlier run observing a later run's state. These are not modelled.
- The real `Instant` clock is replaced by an abstract natural-number clock.
  `Instant + Duration` overflow is not modelled, because the clock is unbounded.
- `app.emit` and the notification plugin builder are foreign calls. They are
  returned as events. The notification title and body texts are not modelled.
  `ThresholdNotice` carries the minutes the body text shows.
- `u64` overflow of `minutes * 60` and `m * 60`: the model requires both to
  fit. A debug build panics on overflow and a release build wraps; neither
  is modelled.
- `Remaining` returns an unbounded natural number, so the `u64` width of
  `as_secs()` is not modelled. That value always fits for deadlines set
  by `start_timer`.
- The driver loop runs forever in timer.rs until it breaks. `Drive` runs
  it over a finite series of clock readings and also returns when those run
  out.
- src-tauri/src/tray.rs (tray menu and window focus), src-tauri/src/lib.rs
  (application builder and handler registration), src/App.tsx (the React
  screen, its minute field bounded to 1–300, and its mm:ss display) and
  src/Icon.tsx (SVG markup) are not part of this model. They are UI and
  framework plumbing.
