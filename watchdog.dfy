/**
 * The driver: look the target up once, take the initial sample, then poll
 * the process tree, feed each total to the idle detector, and issue the
 * shutdown command (at most once) when the idle limit is reached.
 *
 * The monitor's state lives in a `Monitor` object updated in place, as the
 * local variables `last_bytes` and `last_active` of the main loop are. The
 * endless loop is driven by a finite script of polls: each one is what the
 * OS answers at that tick and the instant at which the tick reads the clock.
 */
module Watchdog {
  import opened Wrappers
  import opened Processes
  import opened Sampler
  import opened IdleDetector

  class Monitor {
    const root: Pid
    const cfg: Config
    var lastBytes: int
    var lastActive: int
    /** How many snapshots have been summed. */
    var samples: nat
    /** How many times the shutdown command was issued. */
    var shutdowns: nat
    /** The loop has broken out after the shutdown. */
    var finished: bool

    ghost predicate Valid()
      reads this
    {
      shutdowns <= 1 && (finished <==> shutdowns == 1)
    }

    function State(): IdleState
      reads this
    {
      IdleState(lastBytes, lastActive)
    }

    /** Startup once the target is found: the initial sample and the instant
        monitoring starts. */
    constructor (root: Pid, cfg: Config, h: Host, now: int)
      ensures Valid() && this.root == root && this.cfg == cfg
      ensures State() == IdleState(SampleOf(h, root), now)
      ensures samples == 1 && shutdowns == 0 && !finished
    {
      var procs := RelatedProcs(h, root);
      var total := TotalReadBytes(h, procs);
      this.root := root;
      this.cfg := cfg;
      lastBytes := total;
      lastActive := now;
      samples := 1;
      shutdowns := 0;
      finished := false;
    }

    /** The decision part of one loop iteration, given the tick's total and instant. */
    method Tick(current: int, now: int) returns (e: Event)
      requires Valid() && !finished
      modifies this
      ensures Valid()
      ensures (State(), e) == Step(cfg, old(State()), current, now)
      ensures lastBytes == current && samples == old(samples)
      ensures shutdowns == old(shutdowns) + (if e.ShutDown? then 1 else 0)
      ensures finished <==> e.ShutDown?
    {
      var diff := current - lastBytes;
      lastBytes := current;
      if diff >= cfg.threshold {
        lastActive := now;
        e := Downloading(diff, current);
      } else {
        var idleTime := now - lastActive;
        if idleTime >= cfg.limit {
          shutdowns := shutdowns + 1;
          finished := true;
          e := ShutDown(diff, idleTime);
        } else {
          e := Idle(diff, idleTime);
        }
      }
    }

    /** One loop iteration: a fresh snapshot of the tree, its total, and the tick. */
    method Poll(h: Host, now: int) returns (e: Event)
      requires Valid() && !finished
      modifies this
      ensures Valid()
      ensures (State(), e) == Step(cfg, old(State()), SampleOf(h, root), now)
      ensures samples == old(samples) + 1
      ensures shutdowns == old(shutdowns) + (if e.ShutDown? then 1 else 0)
      ensures finished <==> e.ShutDown?
    {
      var procs := RelatedProcs(h, root);
      var current := TotalReadBytes(h, procs);
      samples := samples + 1;
      e := Tick(current, now);
    }
  }

  /** What the OS answers at one tick, and the instant of that tick. */
  datatype PollInput = PollInput(host: Host, now: int)

  /** How a run ends: the target was not found (exit status 1), the shutdown
      was issued at a given tick (counting from 0) and the loop broke, or the
      script of polls ran out while still monitoring. */
  datatype Outcome = ProcessNotFound | ShutDownAt(tick: nat) | StillWatching(ticks: nat)

  /** The readings the idle detector is fed during a run on `root`. */
  function Readings(polls: seq<PollInput>, root: Pid): (xs: seq<Reading>)
    ensures |xs| == |polls|
    ensures forall i :: 0 <= i < |polls| ==> xs[i] == Reading(SampleOf(polls[i].host, root), polls[i].now)
  {
    seq(|polls|, i requires 0 <= i < |polls| => Reading(SampleOf(polls[i].host, root), polls[i].now))
  }

  /** The outcome of a run, read off the lookup and the readings. */
  function Expected(cfg: Config, table: seq<ProcEntry>, target: string, start: Host, t0: int,
                    polls: seq<PollInput>): Outcome
  {
    match FirstMatch(table, target)
    case None => ProcessNotFound
    case Some(p) =>
      match FirstTimeout(cfg, IdleState(SampleOf(start, p.pid), t0), Readings(polls, p.pid), 0)
      case Some(k) => ShutDownAt(k)
      case None => StillWatching(|polls|)
  }

  /** The whole program: lookup, initial sample at `t0` from `start`, then
      one tick per poll until the shutdown or the end of the script.
      `samples` counts the snapshots summed and `ticks` the loop iterations. */
  method Run(cfg: Config, table: seq<ProcEntry>, target: string, start: Host, t0: int,
             polls: seq<PollInput>)
    returns (outcome: Outcome, samples: nat, ticks: nat, shutdowns: nat)
    ensures outcome == Expected(cfg, table, target, start, t0, polls)
    ensures outcome.ProcessNotFound? <==> FirstMatch(table, target).None?
    ensures outcome.ProcessNotFound? ==> samples == 0 && ticks == 0 && shutdowns == 0
    ensures outcome.ShutDownAt? ==> ticks == outcome.tick + 1 && samples == ticks + 1 && shutdowns == 1
    ensures outcome.StillWatching? ==> ticks == |polls| && samples == ticks + 1 && shutdowns == 0
  {
    var found := FindProcessByName(table, target);
    if found.None? {
      return ProcessNotFound, 0, 0, 0;
    }
    var root := found.value.pid;
    var m := new Monitor(root, cfg, start, t0);
    ghost var s0 := m.State();
    ticks := Monitoring(m, polls);
    ReplayedToEnd(cfg, s0, Readings(polls, root), ticks, m.State(), m.finished);
    samples, shutdowns := m.samples, m.shutdowns;
    ghost var xs := Readings(polls, root);
    assert Expected(cfg, table, target, start, t0, polls)
        == match FirstTimeout(cfg, IdleState(SampleOf(start, root), t0), xs, 0)
           case Some(k) => ShutDownAt(k)
           case None => StillWatching(|polls|);
    if m.finished {
      outcome := ShutDownAt(ticks - 1);
    } else {
      outcome := StillWatching(ticks);
    }
  }

  /** The main loop: one `Poll` per scripted tick, breaking out after the
      shutdown. Returns the number of iterations run. */
  method Monitoring(m: Monitor, polls: seq<PollInput>) returns (ticks: nat)
    requires m.Valid() && !m.finished
    modifies m
    ensures m.Valid() && ticks <= |polls|
    ensures m.finished || ticks == |polls|
    ensures Replayed(m.cfg, old(m.State()), Readings(polls, m.root), ticks, m.State(), m.finished)
    ensures m.shutdowns == (if m.finished then 1 else 0)
    ensures m.samples == old(m.samples) + ticks
  {
    ghost var s0 := m.State();
    ghost var xs := Readings(polls, m.root);
    var i := 0;
    while i < |polls| && !m.finished
      invariant i <= |polls| && m.Valid()
      invariant m.samples == old(m.samples) + i
      invariant Replayed(m.cfg, s0, xs, i, m.State(), m.finished)
      decreases |polls| - i
    {
      ghost var pre := m.State();
      var e := m.Poll(polls[i].host, polls[i].now);
      TickAdvances(m.cfg, s0, xs, i, pre, SampleOf(polls[i].host, m.root), polls[i].now);
      i := i + 1;
    }
    ticks := i;
  }

  /** The shutdown command is issued at most once in a run, and only at the
      first tick that is idle for at least the limit. */
  lemma ShutdownOnlyAtFirstTimeout(cfg: Config, table: seq<ProcEntry>, target: string, start: Host,
                                   t0: int, polls: seq<PollInput>, k: nat)
    requires Expected(cfg, table, target, start, t0, polls) == ShutDownAt(k)
    ensures FirstMatch(table, target).Some?
    ensures var root := FirstMatch(table, target).value.pid;
            var s0 := IdleState(SampleOf(start, root), t0);
            var xs := Readings(polls, root);
            k < |polls| && TimesOutAt(cfg, s0, xs, k)
            && forall j :: 0 <= j < k ==> !TimesOutAt(cfg, s0, xs, j)
  {
  }

  /** Closing the target does not end the run. From poll `c` on, the root's
      listing and its counter both report `NoSuchProcess`, so the snapshot is
      the root alone and every sample is 0. With a positive threshold no such
      poll is activity. The idle window keeps the start it had at poll `c`,
      and poll `k` times out exactly when it lies at least the limit after
      that start. Once a poll gets that far, the run shuts down at that poll
      or earlier. */
  lemma ClosedTargetStaysIdle(cfg: Config, root: Pid, start: Host, t0: int, polls: seq<PollInput>,
                              c: nat, k: nat)
    requires cfg.threshold > 0
    requires c <= k < |polls|
    requires forall i :: c <= i < |polls| ==>
               polls[i].host.listing(root).ListingGone? && polls[i].host.counter(root).CounterGone?
    ensures var s0 := IdleState(SampleOf(start, root), t0);
            var xs := Readings(polls, root);
            !ActiveAt(cfg, s0, xs, k)
            && LastActiveAt(cfg, s0, xs, k) == LastActiveAt(cfg, s0, xs, c)
            && (TimesOutAt(cfg, s0, xs, k) <==> polls[k].now - LastActiveAt(cfg, s0, xs, c) >= cfg.limit)
    ensures var s0 := IdleState(SampleOf(start, root), t0);
            var xs := Readings(polls, root);
            polls[k].now - LastActiveAt(cfg, s0, xs, c) >= cfg.limit ==>
              FirstTimeout(cfg, s0, xs, 0).Some? && FirstTimeout(cfg, s0, xs, 0).value <= k
  {
    var s0 := IdleState(SampleOf(start, root), t0);
    var xs := Readings(polls, root);
    forall i | c <= i < |polls| ensures xs[i].total == 0 {
      VanishedRootSamplesZero(polls[i].host, root);
    }
    QuietAfterSilence(cfg, s0, xs, c, k);
  }

  /** An instance: the target had read 5000 bytes at startup and closes
      before the first poll; the polls at 0, 2, ..., 10 s see differences of
      -5000 and then 0, all idle, and the sixth poll (at 10 s, the limit)
      issues the shutdown. */
  lemma ClosedTargetShutsDown()
    ensures var alive := Host(p => Descendants([]), p => if p == 7 then ReadBytes(5000) else CounterGone);
            var closed := Host(p => ListingGone, p => CounterGone);
            var polls := [PollInput(closed, 0), PollInput(closed, 2), PollInput(closed, 4),
                          PollInput(closed, 6), PollInput(closed, 8), PollInput(closed, 10)];
            Expected(Config(1024, 10), [ProcEntry(7, Some("Chrome.EXE"))], "chrome.exe", alive, 0, polls)
              == ShutDownAt(5)
  {
    var alive := Host(p => Descendants([]), p => if p == 7 then ReadBytes(5000) else CounterGone);
    var closed := Host(p => ListingGone, p => CounterGone);
    var polls := [PollInput(closed, 0), PollInput(closed, 2), PollInput(closed, 4),
                  PollInput(closed, 6), PollInput(closed, 8), PollInput(closed, 10)];
    var cfg := Config(1024, 10);
    assert NameMatches(Some("Chrome.EXE"), "chrome.exe");
    assert FirstMatch([ProcEntry(7, Some("Chrome.EXE"))], "chrome.exe") == Some(ProcEntry(7, Some("Chrome.EXE")));
    var s0, xs := IdleState(SampleOf(alive, 7), 0), Readings(polls, 7);
    forall k | 0 <= k < 6 ensures TimesOutAt(cfg, s0, xs, k) <==> k == 5 {
      ClosedTargetStaysIdle(cfg, 7, alive, 0, polls, 0, k);
    }
    FirstTimeoutAt(cfg, s0, xs, 5);
  }
}
