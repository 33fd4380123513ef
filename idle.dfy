/**
 * The idle-detection state machine run once per poll inside the main loop:
 * its state is the previous total and the instant of the last poll that saw
 * activity. Time is given as integer instants.
 *
 * `Step` is the transition of one tick. Beside it, `LastActiveAt` and
 * `TimesOutAt` describe the same behaviour over a whole sequence of readings
 * without any state, and `StepMatchesReadings` ties the two together.
 */
module IdleDetector {
  import opened Wrappers

  /** The two tunables of a run: the byte threshold and the idle limit
      (command-line integers, so possibly zero or negative). */
  datatype Config = Config(threshold: int, limit: int)

  /** The state carried from tick to tick. */
  datatype IdleState = IdleState(lastBytes: int, lastActive: int)

  /** What one tick reports: activity, idleness, or idleness past the limit,
      upon which the shutdown command is issued and the loop ends. */
  datatype Event =
    | Downloading(diff: int, total: int)
    | Idle(diff: int, idleTime: int)
    | ShutDown(diff: int, idleTime: int)

  /** The sample a tick is fed: the total read bytes and the instant of the tick. */
  datatype Reading = Reading(total: int, at: int)

  /** One tick. The previous total is overwritten whichever branch runs; a
      difference at or above the threshold is activity and restarts the idle
      window; otherwise the idle time is measured from the last activity and,
      once it reaches the limit, the tick shuts down. */
  function Step(cfg: Config, s: IdleState, current: int, now: int): (r: (IdleState, Event))
    ensures r.0.lastBytes == current
    ensures r.1.diff == current - s.lastBytes
    ensures r.1.Downloading? <==> current - s.lastBytes >= cfg.threshold
    ensures r.0.lastActive == (if r.1.Downloading? then now else s.lastActive)
    ensures r.1.ShutDown? <==> current - s.lastBytes < cfg.threshold && now - s.lastActive >= cfg.limit
    ensures !r.1.Downloading? ==> r.1.idleTime == now - s.lastActive
    ensures r.1.Downloading? ==> r.1.total == current
  {
    var diff := current - s.lastBytes;
    if diff >= cfg.threshold then
      (IdleState(current, now), Downloading(diff, current))
    else
      var idleTime := now - s.lastActive;
      (IdleState(current, s.lastActive),
       if idleTime >= cfg.limit then ShutDown(diff, idleTime) else Idle(diff, idleTime))
  }

  /** A difference below zero is never activity once the threshold is not
      negative: nothing clamps it, so it is handled like any small increase. */
  lemma NegativeDiffIsIdle(cfg: Config, s: IdleState, current: int, now: int)
    requires cfg.threshold >= 0 && current < s.lastBytes
    ensures !Step(cfg, s, current, now).1.Downloading?
    ensures Step(cfg, s, current, now).1.ShutDown? <==> now - s.lastActive >= cfg.limit
  {
  }

  // ---------------------------------------------------------------------------
  // The same behaviour described over a whole sequence of readings
  // ---------------------------------------------------------------------------

  /** The total that tick `k` is compared with: the initial sample for the
      first tick, the previous tick's total afterwards. */
  function Before(s0: IdleState, xs: seq<Reading>, k: nat): int
    requires k <= |xs|
  {
    if k == 0 then s0.lastBytes else xs[k - 1].total
  }

  function DiffAt(s0: IdleState, xs: seq<Reading>, k: nat): int
    requires k < |xs|
  {
    xs[k].total - Before(s0, xs, k)
  }

  predicate ActiveAt(cfg: Config, s0: IdleState, xs: seq<Reading>, k: nat)
    requires k < |xs|
  {
    DiffAt(s0, xs, k) >= cfg.threshold
  }

  /** The instant from which tick `k` measures idleness. */
  function LastActiveAt(cfg: Config, s0: IdleState, xs: seq<Reading>, k: nat): int
    requires k <= |xs|
  {
    if k == 0 then s0.lastActive
    else if ActiveAt(cfg, s0, xs, k - 1) then xs[k - 1].at
    else LastActiveAt(cfg, s0, xs, k - 1)
  }

  /** Tick `k` reaches the idle limit. */
  predicate TimesOutAt(cfg: Config, s0: IdleState, xs: seq<Reading>, k: nat)
    requires k < |xs|
  {
    !ActiveAt(cfg, s0, xs, k) && xs[k].at - LastActiveAt(cfg, s0, xs, k) >= cfg.limit
  }

  /** The state of the machine just before tick `k`, read off the sequence. */
  function StateBefore(cfg: Config, s0: IdleState, xs: seq<Reading>, k: nat): IdleState
    requires k <= |xs|
  {
    IdleState(Before(s0, xs, k), LastActiveAt(cfg, s0, xs, k))
  }

  /** The idle window of tick `k` starts at the last earlier tick that saw
      activity, or at the start of monitoring when there was none. */
  lemma {:induction false} LastActiveIsLatestActive(cfg: Config, s0: IdleState, xs: seq<Reading>, k: nat)
    requires k <= |xs|
    ensures (LastActiveAt(cfg, s0, xs, k) == s0.lastActive
             && forall j :: 0 <= j < k ==> !ActiveAt(cfg, s0, xs, j))
         || (exists j :: 0 <= j < k && ActiveAt(cfg, s0, xs, j)
                         && LastActiveAt(cfg, s0, xs, k) == xs[j].at
                         && forall i :: j < i < k ==> !ActiveAt(cfg, s0, xs, i))
  {
    if k > 0 && !ActiveAt(cfg, s0, xs, k - 1) {
      LastActiveIsLatestActive(cfg, s0, xs, k - 1);
    }
  }

  /** One `Step` from the state read off the sequence before tick `k` gives
      the state read off it after tick `k`, and shuts down exactly when tick
      `k` times out. */
  lemma StepMatchesReadings(cfg: Config, s0: IdleState, xs: seq<Reading>, k: nat)
    requires k < |xs|
    ensures Step(cfg, StateBefore(cfg, s0, xs, k), xs[k].total, xs[k].at).0 == StateBefore(cfg, s0, xs, k + 1)
    ensures Step(cfg, StateBefore(cfg, s0, xs, k), xs[k].total, xs[k].at).1.ShutDown? <==> TimesOutAt(cfg, s0, xs, k)
    ensures Step(cfg, StateBefore(cfg, s0, xs, k), xs[k].total, xs[k].at).1.diff == DiffAt(s0, xs, k)
  {
  }

  /** The first tick at or after `from` that times out. */
  function FirstTimeout(cfg: Config, s0: IdleState, xs: seq<Reading>, from: nat): (r: Option<nat>)
    requires from <= |xs|
    decreases |xs| - from
    ensures r.Some? ==> from <= r.value < |xs| && TimesOutAt(cfg, s0, xs, r.value)
    ensures r.Some? ==> forall j :: from <= j < r.value ==> !TimesOutAt(cfg, s0, xs, j)
    ensures r.None? <==> forall j :: from <= j < |xs| ==> !TimesOutAt(cfg, s0, xs, j)
  {
    if from == |xs| then None
    else if TimesOutAt(cfg, s0, xs, from) then Some(from)
    else FirstTimeout(cfg, s0, xs, from + 1)
  }

  /** No tick before `i` times out. */
  predicate NoTimeoutBefore(cfg: Config, s0: IdleState, xs: seq<Reading>, i: nat)
    requires i <= |xs|
  {
    forall j :: 0 <= j < i ==> !TimesOutAt(cfg, s0, xs, j)
  }

  /** After `i` ticks the machine has either stopped at the first timeout,
      or runs on in the state read off the sequence with no timeout so far. */
  predicate Replayed(cfg: Config, s0: IdleState, xs: seq<Reading>, i: nat, s: IdleState, stopped: bool)
    requires i <= |xs|
  {
    if stopped then i >= 1 && FirstTimeout(cfg, s0, xs, 0) == Some(i - 1)
    else s == StateBefore(cfg, s0, xs, i) && NoTimeoutBefore(cfg, s0, xs, i)
  }

  /** A tick that times out with none before it is the first timeout. */
  lemma FirstTimeoutAt(cfg: Config, s0: IdleState, xs: seq<Reading>, k: nat)
    requires k < |xs| && TimesOutAt(cfg, s0, xs, k)
    requires NoTimeoutBefore(cfg, s0, xs, k)
    ensures FirstTimeout(cfg, s0, xs, 0) == Some(k)
  {
  }

  /** Feeding tick `i`'s reading to `Step` extends a replay of `i` ticks to `i + 1`. */
  lemma TickAdvances(cfg: Config, s0: IdleState, xs: seq<Reading>, i: nat, s: IdleState, current: int, now: int)
    requires i < |xs| && xs[i] == Reading(current, now)
    requires Replayed(cfg, s0, xs, i, s, false)
    ensures Replayed(cfg, s0, xs, i + 1, Step(cfg, s, current, now).0, Step(cfg, s, current, now).1.ShutDown?)
  {
    StepMatchesReadings(cfg, s0, xs, i);
    if Step(cfg, s, current, now).1.ShutDown? {
      FirstTimeoutAt(cfg, s0, xs, i);
    }
  }

  /** A replay that has stopped, or has consumed every reading, has found
      the first timeout or shown there is none. */
  lemma ReplayedToEnd(cfg: Config, s0: IdleState, xs: seq<Reading>, i: nat, s: IdleState, stopped: bool)
    requires i <= |xs| && Replayed(cfg, s0, xs, i, s, stopped)
    requires stopped || i == |xs|
    ensures stopped ==> i >= 1 && FirstTimeout(cfg, s0, xs, 0) == Some(i - 1)
    ensures !stopped ==> FirstTimeout(cfg, s0, xs, 0) == None
  {
  }

  // ---------------------------------------------------------------------------
  // Properties over time
  // ---------------------------------------------------------------------------

  /** Instants never go backwards, starting from the initial one. */
  predicate Chronological(s0: IdleState, xs: seq<Reading>)
  {
    (forall i :: 0 <= i < |xs| ==> s0.lastActive <= xs[i].at)
    && (forall i, j :: 0 <= i < j < |xs| ==> xs[i].at <= xs[j].at)
  }

  /** Totals never go backwards, starting from the initial sample. */
  predicate NonDecreasingTotals(s0: IdleState, xs: seq<Reading>)
  {
    (forall i :: 0 <= i < |xs| ==> s0.lastBytes <= xs[i].total)
    && (forall i, j :: 0 <= i < j < |xs| ==> xs[i].total <= xs[j].total)
  }

  /** An active tick keeps the start of every later idle window at or after it. */
  lemma {:induction false} LastActiveAfterActive(cfg: Config, s0: IdleState, xs: seq<Reading>, j: nat, k: nat)
    requires Chronological(s0, xs)
    requires j < k <= |xs| && ActiveAt(cfg, s0, xs, j)
    ensures LastActiveAt(cfg, s0, xs, k) >= xs[j].at
  {
    if k - 1 != j && !ActiveAt(cfg, s0, xs, k - 1) {
      LastActiveAfterActive(cfg, s0, xs, j, k - 1);
    }
  }

  /** The idle window never starts after the tick that measures it. */
  lemma {:induction false} LastActiveNotLater(cfg: Config, s0: IdleState, xs: seq<Reading>, k: nat)
    requires Chronological(s0, xs)
    requires k < |xs|
    ensures LastActiveAt(cfg, s0, xs, k) <= xs[k].at
  {
    if k > 0 && !ActiveAt(cfg, s0, xs, k - 1) {
      LastActiveNotLater(cfg, s0, xs, k - 1);
    }
  }

  /** No timeout while an active tick lies within the idle limit. */
  lemma NoTimeoutWithinWindow(cfg: Config, s0: IdleState, xs: seq<Reading>, j: nat, k: nat)
    requires Chronological(s0, xs)
    requires j < k < |xs| && ActiveAt(cfg, s0, xs, j)
    requires xs[k].at - xs[j].at < cfg.limit
    ensures !TimesOutAt(cfg, s0, xs, k)
  {
    LastActiveAfterActive(cfg, s0, xs, j, k);
  }

  /** With a threshold of zero (or below) and totals that never fall, every
      tick is activity and no tick ever times out. */
  lemma ZeroThresholdNeverTimesOut(cfg: Config, s0: IdleState, xs: seq<Reading>)
    requires cfg.threshold <= 0
    requires NonDecreasingTotals(s0, xs)
    ensures forall k :: 0 <= k < |xs| ==> ActiveAt(cfg, s0, xs, k)
    ensures FirstTimeout(cfg, s0, xs, 0) == None
  {
  }

  /** Once every total is zero, with a positive threshold, no tick is
      activity: each difference is zero or negative. The idle window stays
      where it was at tick `c`, and a tick times out exactly when it lies at
      least the limit after that window's start. */
  lemma {:induction false} QuietAfterSilence(cfg: Config, s0: IdleState, xs: seq<Reading>, c: nat, k: nat)
    requires cfg.threshold > 0 && s0.lastBytes >= 0
    requires forall i :: 0 <= i < |xs| ==> xs[i].total >= 0
    requires c <= k < |xs|
    requires forall i :: c <= i < |xs| ==> xs[i].total == 0
    ensures !ActiveAt(cfg, s0, xs, k)
    ensures LastActiveAt(cfg, s0, xs, k) == LastActiveAt(cfg, s0, xs, c)
    ensures TimesOutAt(cfg, s0, xs, k) <==> xs[k].at - LastActiveAt(cfg, s0, xs, c) >= cfg.limit
  {
    if k > c {
      QuietAfterSilence(cfg, s0, xs, c, k - 1);
    }
  }

  /** With an idle limit of zero (or below), the first tick that is not
      activity times out. */
  lemma ZeroLimitTimesOutOnFirstIdleTick(cfg: Config, s0: IdleState, xs: seq<Reading>, k: nat)
    requires cfg.limit <= 0
    requires Chronological(s0, xs)
    requires k < |xs|
    ensures TimesOutAt(cfg, s0, xs, k) <==> !ActiveAt(cfg, s0, xs, k)
  {
    LastActiveNotLater(cfg, s0, xs, k);
  }

  /** Threshold 1024 bytes and limit 10 s, monitoring from instant 0 with an
      initial total of 0. The first poll runs straight after the initial
      sample, still at instant 0, and the loop then sleeps 2 s between polls.
      The first poll reads 2000 bytes and is activity; the next five see no
      change and are idle for 2, 4, 6, 8 and 10 s; the sixth poll (idle time
      10 = limit) times out. */
  lemma IdleAfterDownloadScenario()
    ensures var xs := [Reading(2000, 0), Reading(2000, 2), Reading(2000, 4),
                       Reading(2000, 6), Reading(2000, 8), Reading(2000, 10)];
            FirstTimeout(Config(1024, 10), IdleState(0, 0), xs, 0) == Some(5)
  {
  }
}
