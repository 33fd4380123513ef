# ByteGuard idle watchdog, modelled in Dafny

ByteGuard watches a named process and every process it spawns. It measures
their disk reads. Once the tree has read fewer bytes per poll than a noise
threshold for long enough, it shuts the machine down. The idea is to power
off when a download in a browser has finished.

This project models the decision logic of `main.py`:

- **Process lookup** (`Processes.FindProcessByName`). A linear search of the
  process table for the first entry whose non-empty name equals the target,
  ignoring case.
- **Tree snapshot** (`Processes.RelatedProcs`). The root first, then its
  recursive descendants. If the root has vanished while its children are
  listed, the snapshot is just the root.
- **Read-byte sampler** (`Sampler.TotalReadBytes`). An accumulator loop over
  the snapshot. A process whose counter query fails (vanished or access
  denied) adds nothing.
- **Idle detector** (`IdleDetector.Step`, `Watchdog.Monitor.Tick`). The state
  is the previous total and the instant of the last activity. Each tick
  overwrites the previous total. A difference at or above the threshold is
  activity and restarts the idle window. Otherwise the idle time is measured,
  and once it reaches the limit the shutdown command is issued and the loop
  breaks.
- **Driver** (`Watchdog.Run`, `Watchdog.Monitoring`). Look the target up once,
  or end with exit status 1. Then take the initial sample and tick once per
  poll.

The operating system is an explicit input. The process table is a sequence of
`(pid, name)` entries. Each poll sees a `Host`, which answers two queries:

- list a pid's recursive children, or report `NoSuchProcess`;
- read a pid's cumulative read-byte counter, or report `NoSuchProcess` or
  `AccessDenied`.

Clock readings are integer instants passed in with each poll. The shutdown
command is a counter on the `Monitor` object. The program's endless loop is
driven by a finite script of polls. A run that exhausts the script without
timing out ends as `StillWatching`.

Each per-tick contract has an independent partner: a stateless description
over the whole sequence of readings (`Before`, `DiffAt`, `ActiveAt`,
`LastActiveAt`, `TimesOutAt`, `FirstTimeout`). The driver is proved to shut
down exactly at the first tick where that description says the idle limit is
reached, and never otherwise.

Two points about the program itself:

- For a vanished root, the snapshot is still `[root]`: the root is
  appended before its children are listed (main.py:25-27).
- The handler that prints "Main process closed." and breaks (main.py:87-89)
  shows that the authors meant the loop to stop when the target closes. It
  is never reached: both helpers already catch `NoSuchProcess`
  (main.py:27-28, 37-38). Once the target has closed, listing its children
  fails, so the snapshot is the root alone. Its own counter fails too, so
  every sample is 0 (`Sampler.VanishedRootSamplesZero`). Every later
  difference is then 0 or negative, below any positive threshold, so each
  tick is idle. When the idle limit has passed since the last activity, the
  shutdown command is issued. Closing the target therefore leads to a
  shutdown, not to the "Main process closed." exit
  (`Watchdog.ClosedTargetStaysIdle` in general, `Watchdog.ClosedTargetShutsDown`
  as an example).

## Model

| member | source | states |
|---|---|---|
| `Processes.LowerChar` | main.py:17 | no contract: ASCII lower-casing of one character, the part of `str.lower` modelled |
| `Processes.Lower` | main.py:17 | no contract: lower-casing of a name, character by character |
| `Processes.NameMatches` | main.py:17 | no contract: the test of the search loop, a non-empty name equal to the target once both are lower-cased |
| `Processes.FirstMatchIndex` | main.py:14-19 | the index found matches, no earlier entry matches, and there is no index exactly when no entry matches |
| `Processes.FirstMatch` | main.py:16-19 | no contract: reference definition of the entry the lookup returns, the entry at FirstMatchIndex, or None |
| `Processes.FindProcessByName` | main.py:14-19 | the search loop returns the first matching entry in enumeration order, or None exactly when nothing matches |
| `Processes.FirstMatchIndexAt` | main.py:16-18 | a matching entry with no match before it is where the search stops |
| `Processes.LowerIdempotent` | main.py:17 | lower-casing a name twice is lower-casing it once |
| `Processes.MatchIsWholeName` | main.py:17 | a matching name has the target's length and equals it character by character up to case, so a substring never matches |
| `Processes.MatchIgnoresCase` | main.py:17 | whether a name matches does not change when either side is lower-cased first |
| `Processes.NamelessNeverMatches` | main.py:17 | the search never stops at an entry with no name or an empty name, whatever the target |
| `Processes.Related` | main.py:21-29 | the snapshot starts with the root, is exactly `[root]` when listing the children raises NoSuchProcess, and otherwise continues with the listed descendants |
| `Processes.RelatedProcs` | main.py:21-29 | the list built by append and extend is that snapshot |
| `Sampler.Contribution` | main.py:35-38 | no contract: what one process adds, its counter when the query succeeds and 0 on NoSuchProcess or AccessDenied |
| `Sampler.Total` | main.py:33-36 | no contract: reference definition of the accumulator's result, the contributions summed in visiting order |
| `Sampler.SampleOf` | main.py:63 | no contract: reference definition of one sample, the total over a fresh snapshot of the tree under the root |
| `Sampler.TotalReadBytes` | main.py:31-39 | the accumulator loop returns the sum of the contributions of every process in the snapshot |
| `Sampler.TotalAppend` | main.py:33-36 | the total over two consecutive parts of a snapshot is the sum of their totals |
| `Sampler.FailingProcessAddsNothing` | main.py:35-38 | a process whose counter query fails adds nothing, wherever it sits in the snapshot (between any two parts, at the front or at the end) |
| `Sampler.Readable` | main.py:35-38 | the processes whose query succeeds: each such process occurs as often as in the snapshot, and no other process occurs |
| `Sampler.TotalOverReadable` | main.py:33-39 | the total equals the total over exactly the processes whose query succeeds |
| `Sampler.TotalPermutation` | main.py:33-39 | the total does not depend on the order of the snapshot |
| `Sampler.TotalCountsEachReadable` | main.py:34-36 | every process whose query succeeds is counted in full |
| `Sampler.TotalAllFailing` | main.py:33-39 | when every query fails the total is zero and the loop still completes |
| `Sampler.VanishedRootSamplesZero` | main.py:21-39 | a vanished root gives the snapshot `[root]` and a sample of zero, not an error |
| `Sampler.ExitingChildLowersSample` | main.py:69-71 | a child exiting can make the sample fall although every counter grows, so the difference can be negative |
| `IdleDetector.Step` | main.py:71-83 | each tick stores the current total whichever branch runs; a difference at or above the threshold is activity, reports the current total and restarts the window at the tick's instant; otherwise the window is kept and the tick shuts down exactly when the idle time reaches the limit |
| `IdleDetector.NegativeDiffIsIdle` | main.py:71-80 | with a non-negative threshold, a negative difference is never activity, and it shuts down exactly when the idle time reaches the limit |
| `IdleDetector.LastActiveIsLatestActive` | main.py:74-78 | the idle window of a tick starts at the last earlier active tick, or at the start of monitoring when there was none |
| `IdleDetector.StepMatchesReadings` | main.py:70-80 | a tick from the state read off the readings gives the next such state, its difference is taken against the immediately preceding sample, and it shuts down exactly when it times out |
| `IdleDetector.FirstTimeout` | main.py:66-83 | the first tick that times out, with none before it, or none when no tick times out |
| `IdleDetector.FirstTimeoutAt` | main.py:77-83 | a tick that times out with none before it is the first timeout |
| `IdleDetector.TickAdvances` | main.py:66-83 | one more tick extends a replay of the loop by one reading: either it stops at the first timeout, or it keeps running with no timeout so far |
| `IdleDetector.ReplayedToEnd` | main.py:66-89 | a replay that stopped has found the first timeout; one that used every reading shows there is none |
| `IdleDetector.LastActiveAfterActive` | main.py:74-75 | with instants that never go backwards, an active tick bounds from below the start of every later idle window |
| `IdleDetector.LastActiveNotLater` | main.py:77-78 | with instants that never go backwards, the idle window never starts after the tick that measures it |
| `IdleDetector.NoTimeoutWithinWindow` | main.py:74-80 | no tick times out while an active tick lies less than the limit before it |
| `IdleDetector.ZeroThresholdNeverTimesOut` | main.py:71-76 | with threshold 0 or below and totals that never fall, every tick is activity and none times out |
| `IdleDetector.ZeroLimitTimesOutOnFirstIdleTick` | main.py:77-80 | with limit 0 or below and instants that never go backwards, a tick times out exactly when it is not activity |
| `IdleDetector.QuietAfterSilence` | main.py:71-80 | with a positive threshold and non-negative totals, once every total is 0 no tick is activity, the idle window keeps the start it had when the totals became 0, and a tick times out exactly when it lies at least the limit after that start |
| `IdleDetector.IdleAfterDownloadScenario` | main.py:62-85 | threshold 1024 and limit 10, the first poll straight after the initial sample and then one every 2 s: one active poll and five unchanged ones time out at the sixth poll, whose idle time equals the limit |
| `Watchdog.Monitor.constructor` | main.py:62-64 | monitoring starts with the total over the initial snapshot, the start instant, one sample taken, and no shutdown issued |
| `Watchdog.Monitor.Tick` | main.py:71-83 | the new state and event are those of the transition, the previous total becomes the current one, and the shutdown count grows by one exactly on the shutdown event, which ends the loop |
| `Watchdog.Monitor.Poll` | main.py:68-83 | one iteration takes one more sample, the total over a fresh snapshot, and makes the transition on that total |
| `Watchdog.Expected` | main.py:55-89 | no contract: reference definition of a run's outcome, not found when the lookup fails, otherwise the first tick that times out on the readings of the polls, if any |
| `Watchdog.Monitoring` | main.py:66-85 | the loop runs until the shutdown or the end of the script, taking one sample per iteration; it has then either stopped at the first timeout with one shutdown issued, or used every poll with none |
| `Watchdog.Run` | main.py:55-89 | if the target is not found, the run ends with no sample, tick or shutdown; otherwise it takes one sample at startup and one per tick, and shuts down exactly once at the first tick that times out, or issues no shutdown when no tick times out |
| `Watchdog.ShutdownOnlyAtFirstTimeout` | main.py:77-83 | a run that shuts down found its target, and the shutdown tick is the first one whose idle time reaches the limit |
| `Watchdog.ClosedTargetStaysIdle` | main.py:21-39 | with a positive threshold, once the target's listing and counter both report NoSuchProcess from some poll on, no later poll is activity, the idle window keeps its start, a poll times out exactly when it lies at least the limit after that start, and the run shuts down at such a poll or earlier |
| `Watchdog.ClosedTargetShutsDown` | main.py:55-89 | an example with threshold 1024 and limit 10: a target that read 5000 bytes at startup and closes before six polls at 0, 2, ..., 10 s leads to the shutdown at the sixth poll |

## Left out

- Operating-system queries (`psutil.process_iter`, `children(recursive=True)`, `io_counters()`): these are inputs (the process table and one `Host` per poll). How descendants are found recursively belongs to the OS library and is not modelled.
- An `AccessDenied` raised by `children()` is not modelled. The code does not catch it, so it would end the program with a traceback.
- The shutdown command `os.system("shutdown /s /t 0")` (main.py:82) is an irreversible external action. Only the count of times it is issued is modelled.
- Wall-clock floats from `time.time()` and the blocking `time.sleep` (main.py:64, 75, 78, 85) are replaced by integer instants supplied with each poll. The sleep interval has no effect on the decision.
- The endless `while True` loop is driven by a finite script of polls. A run that has not timed out when the script ends is reported as still watching.
- Argument parsing and the module constants (main.py:7-12, 42-53) are not modelled; the threshold and the limit are parameters. As written, main.py:50-53 assign these names inside `main`, which makes them local there. The defaults read at main.py:43-46 would therefore fail before parsing.
- Console output (every `print`) is not modelled. The diff and idle time it reports are carried in the tick's `Event`.
- The outer `except psutil.NoSuchProcess` exit (main.py:87-89) is not modelled. Neither helper lets that exception escape, so the branch cannot be reached from the modelled calls.
- `Processes.Lower`: lower-cases ASCII only. Python's `str.lower` also folds non-ASCII letters.
- The counters are unbounded naturals, as Python integers are. A platform counter that wraps around is not modelled.
