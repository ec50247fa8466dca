/** The log of a run: its stop checks, spawns and stops, as a function of what the outside world answers,
    and what every such log keeps. */
module FleetLog {
  import opened Prelude
  import opened RestartPolicy
  import opened ServiceRun
  import opened FleetRun
  import opened RestartDecisions

  /** What the supervisor thread does that an operator's stop can race with. */
  datatype Event = StopRead(set_: bool) | Spawned(index: nat) | Shut(index: nat)

  type Log = seq<Event>

  // Each function below extends the log it is given.

  /** One stop check per iteration of the gate, up to the one that decides. */
  function GateLog(log: Log, gs: seq<Gate>): Log
    decreases |gs|
  {
    if gs == [] then log
    else if GatePasses(gs[0]) then GateLog(log + [StopRead(gs[0].stop)], gs[1..])
    else log + [StopRead(gs[0].stop)]
  }

  function BootLog(log: Log, i: nat, b: Boot): Log {
    if BootSpawns(b) then GateLog(log + [StopRead(b.stop)] + [Spawned(i)], b.gates) else log + [StopRead(b.stop)]
  }

  /** Extends a log on behalf of one service after the other. */
  type Extender = (Log, nat) -> Log

  function Extended(extend: Extender, log: Log, k: nat): Log {
    if k == 0 then log else extend(Extended(extend, log, k - 1), k - 1)
  }

  function BootLogOf(bs: seq<Boot>): Extender {
    (log: Log, i: nat) => if i < |bs| then BootLog(log, i, bs[i]) else log
  }

  function WholeBootLog(log: Log, bs: seq<Boot>): Log {
    Extended(BootLogOf(bs), log, Min(Reached(bs) + 1, |bs|))
  }

  /** A service's share of a tick logs its stop check and its spawn. */
  function ShareLog(log: Log, s: Svc, e: Input, i: nat): Log {
    if s.phase.None? then log
    else if DirectiveOf(s, e) == Some(Respawn) && e.spawn.Some? then log + [StopRead(e.stop)] + [Spawned(i)]
    else log + [StopRead(e.stop)]
  }

  function ShareLogOf(views: seq<Svc>, tick: FleetTick): Extender
    requires |tick.inputs| == |views|
  {
    (log: Log, i: nat) =>
      if i < |views| then ShareLog(log, Fold(views[i], LatestAt(tick.latest, i)), InputOf(tick, i), i) else log
  }

  function TickLog(log: Log, views: seq<Svc>, tick: FleetTick): Log
    requires |tick.inputs| == |views|
  {
    Extended(ShareLogOf(views, tick), log, |views|)
  }

  /** Extends a log on behalf of one step, given the records before it. */
  type Logger = (Log, seq<Svc>, nat) -> Log

  /** Each tick of the monitor loop logs its stop check and its shares. */
  function RoundLogOf(ticks: seq<FleetTick>): Logger {
    (log: Log, views: seq<Svc>, k: nat) =>
      if k < |ticks| && |ticks[k].inputs| == |views| then TickLog(log + [StopRead(ticks[k].stopAtTop)], views, ticks[k])
      else log
  }

  function Logged(step: Stepper, logger: Logger, log: Log, views: seq<Svc>, k: nat): Log {
    if k == 0 then log else logger(Logged(step, logger, log, views, k - 1), Iterated(step, views, k - 1), k - 1)
  }

  /** The first `k` ticks of the monitor loop. */
  function MonitorLog(log: Log, views: seq<Svc>, ticks: seq<FleetTick>, k: nat): Log {
    Logged(TickOf(ticks), RoundLogOf(ticks), log, views, k)
  }

  lemma {:induction false} MonitorLogStep(log: Log, views: seq<Svc>, ticks: seq<FleetTick>, k: nat)
    requires Rectangular(ticks, |views|) && k < |ticks|
    ensures MonitorLog(log, views, ticks, k + 1) ==
              TickLog(MonitorLog(log, views, ticks, k) + [StopRead(ticks[k].stopAtTop)], StatesAt(views, ticks, k), ticks[k])
  {
  }

  /** The monitor loop: its ticks, and the check that ends it. */
  function WholeMonitorLog(log: Log, views: seq<Svc>, ticks: seq<FleetTick>): Log {
    var n := TicksRun(ticks);
    MonitorLog(log, views, ticks, n) + if n < |ticks| then [StopRead(true)] else []
  }

  /** The stop check between boot and monitor. A stop that interrupted boot is still set there. */
  function CheckLog(log: Log, boot: BootResult, stopAfterBoot: bool): Log {
    if boot == BootFailed then log else log + [StopRead(boot == Interrupted || stopAfterBoot)]
  }

  /** Boot and monitor. */
  function LiveLog(log: Log, bs: seq<Boot>, stopAfterBoot: bool, ticks: seq<FleetTick>): Log {
    var started := CheckLog(WholeBootLog(log, bs), BootOutcome(bs), stopAfterBoot);
    if Monitored(bs, stopAfterBoot) then WholeMonitorLog(started, BootRecords(bs), ticks) else started
  }

  /** The stops of services from the last down to `from`. */
  function StopLog(log: Log, views: seq<Svc>, ts: seq<Stop>, from: nat): Log
    requires |views| == |ts| && from <= |views|
    decreases |views| - from
  {
    if from == |views| then log
    else
      var later := StopLog(log, views, ts, from + 1);
      if MustStop(views[from], ts[from]) then later + [Shut(from)] else later
  }

  /** A whole run that gets as far as boot. */
  function RunLog(bs: seq<Boot>, stopAfterBoot: bool, ticks: seq<FleetTick>, ts: seq<Stop>): Log
    requires |ts| == |bs|
  {
    StopLog(LiveLog([], bs, stopAfterBoot, ticks), BeforeTeardown(bs, stopAfterBoot, ticks), ts, 0)
  }

  // ---------------------------------------------------------------------------------------------
  // Stops
  // ---------------------------------------------------------------------------------------------

  /** Exactly the held, unexited processes are stopped, each once and in reverse order, after everything
      else. */
  lemma {:induction false} StopsInReverse(log: Log, views: seq<Svc>, ts: seq<Stop>, from: nat)
    requires |views| == |ts| && from <= |views|
    ensures var full := StopLog(log, views, ts, from);
            && log <= full
            && (forall k :: |log| <= k < |full| ==> full[k].Shut? && from <= full[k].index < |views|)
            && (forall a, b :: |log| <= a < b < |full| ==> full[a].index > full[b].index)
            && (forall i :: from <= i < |views| ==> (Shut(i) in full[|log|..] <==> MustStop(views[i], ts[i])))
    decreases |views| - from
  {
    if from < |views| {
      StopsInReverse(log, views, ts, from + 1);
      var full, later := StopLog(log, views, ts, from), StopLog(log, views, ts, from + 1);
      assert forall k :: 0 <= k < |later| ==> full[k] == later[k];
      assert Shut(from) !in later[|log|..];
      if MustStop(views[from], ts[from]) {
        assert full[|log|..] == later[|log|..] + [Shut(from)];
      }
    }
  }

  lemma {:induction false} NothingToStop(log: Log, views: seq<Svc>, ts: seq<Stop>, from: nat)
    requires |views| == |ts| && from <= |views| && forall i :: 0 <= i < |views| ==> views[i] == FRESH
    ensures StopLog(log, views, ts, from) == log
    decreases |views| - from
  {
    if from < |views| {
      NothingToStop(log, views, ts, from + 1);
    }
  }

  // ---------------------------------------------------------------------------------------------
  // The log holds every spawn
  // ---------------------------------------------------------------------------------------------

  /** How often service `i` is spawned in a log. */
  function SpawnsOf(log: Log, i: nat): nat {
    if log == [] then 0 else SpawnsOf(log[..|log| - 1], i) + if log[|log| - 1] == Spawned(i) then 1 else 0
  }

  lemma {:induction false} SpawnsOfNext(log: Log, e: Event, i: nat)
    ensures SpawnsOf(log + [e], i) == SpawnsOf(log, i) + if e == Spawned(i) then 1 else 0
  {
    assert (log + [e])[..|log|] == log;
  }

  lemma {:induction false} GateLogSpawns(log: Log, gs: seq<Gate>, i: nat)
    ensures SpawnsOf(GateLog(log, gs), i) == SpawnsOf(log, i)
    decreases |gs|
  {
    if gs != [] {
      SpawnsOfNext(log, StopRead(gs[0].stop), i);
      GateLogSpawns(log + [StopRead(gs[0].stop)], gs[1..], i);
    }
  }

  lemma {:induction false} BootLogSpawns(log: Log, j: nat, b: Boot, i: nat)
    ensures SpawnsOf(BootLog(log, j, b), i) == SpawnsOf(log, i) + if i == j && BootSpawns(b) then 1 else 0
  {
    SpawnsOfNext(log, StopRead(b.stop), i);
    SpawnsOfNext(log + [StopRead(b.stop)], Spawned(j), i);
    GateLogSpawns(log + [StopRead(b.stop)] + [Spawned(j)], b.gates, i);
  }

  /** Only service `i`'s own extension spawns it, `n` times. */
  ghost predicate SpawnsOnly(extend: Extender, i: nat, n: nat) {
    forall log: Log, j: nat :: SpawnsOf(extend(log, j), i) == SpawnsOf(log, i) + if j == i then n else 0
  }

  lemma {:induction false} ExtendedSpawns(extend: Extender, log: Log, k: nat, i: nat, n: nat)
    requires SpawnsOnly(extend, i, n)
    ensures SpawnsOf(Extended(extend, log, k), i) == SpawnsOf(log, i) + if i < k then n else 0
  {
    if k > 0 {
      ExtendedSpawns(extend, log, k - 1, i, n);
    }
  }

  lemma {:induction false} WholeBootLogSpawns(log: Log, bs: seq<Boot>, i: nat)
    requires i < |bs|
    ensures SpawnsOf(WholeBootLog(log, bs), i) ==
              SpawnsOf(log, i) + if i <= Reached(bs) && BootSpawns(bs[i]) then 1 else 0
  {
    var extend, n := BootLogOf(bs), if BootSpawns(bs[i]) then 1 else 0;
    forall l: Log, j: nat ensures SpawnsOf(extend(l, j), i) == SpawnsOf(l, i) + if j == i then n else 0 {
      if j < |bs| {
        BootLogSpawns(l, j, bs[j], i);
      }
    }
    ExtendedSpawns(extend, log, Min(Reached(bs) + 1, |bs|), i, n);
  }

  /** A share counts a restart exactly when it spawns. */
  lemma {:induction false} ShareCountsRestart(s: Svc, e: Input)
    ensures Share(s, e).restarts == s.restarts + if DirectiveOf(s, e) == Some(Respawn) && e.spawn.Some? then 1 else 0
  {
  }

  /** A share logs a spawn exactly when it counts a restart. */
  lemma {:induction false} ShareLogSpawns(log: Log, s: Svc, e: Input, j: nat, i: nat)
    ensures SpawnsOf(ShareLog(log, s, e, j), i) == SpawnsOf(log, i) + if i == j then Share(s, e).restarts - s.restarts else 0
  {
    ShareCountsRestart(s, e);
    SpawnsOfNext(log, StopRead(e.stop), i);
    SpawnsOfNext(log + [StopRead(e.stop)], Spawned(j), i);
  }

  lemma {:induction false} TickLogSpawns(log: Log, views: seq<Svc>, tick: FleetTick, i: nat)
    requires |tick.inputs| == |views| && i < |views|
    ensures Ticked(views, tick)[i].restarts >= views[i].restarts
    ensures SpawnsOf(TickLog(log, views, tick), i) == SpawnsOf(log, i) + Ticked(views, tick)[i].restarts - views[i].restarts
  {
    var extend := ShareLogOf(views, tick);
    var n: nat := Ticked(views, tick)[i].restarts - views[i].restarts;
    forall l: Log, j: nat ensures SpawnsOf(extend(l, j), i) == SpawnsOf(l, i) + if j == i then n else 0 {
      if j < |views| {
        ShareLogSpawns(l, Fold(views[j], LatestAt(tick.latest, j)), InputOf(tick, j), j, i);
      }
    }
    ExtendedSpawns(extend, log, |views|, i, n);
  }

  /** The step keeps the number of records, and its log holds exactly the spawns of `i` that it counts. */
  predicate CountsSpawnsAt(step: Stepper, logger: Logger, i: nat, n: nat, log: Log, v: seq<Svc>, k: nat) {
    i < |v| == n ==>
      |step(v, k)| == n && SpawnsOf(logger(log, v, k), i) == SpawnsOf(log, i) + step(v, k)[i].restarts - v[i].restarts
  }

  ghost predicate CountsSpawns(step: Stepper, logger: Logger, i: nat, n: nat) {
    forall log: Log, v: seq<Svc>, k: nat :: CountsSpawnsAt(step, logger, i, n, log, v, k)
  }

  lemma {:induction false} LoggedSpawns(step: Stepper, logger: Logger, log: Log, views: seq<Svc>, k: nat, i: nat)
    requires i < |views| && CountsSpawns(step, logger, i, |views|)
    ensures |Iterated(step, views, k)| == |views|
    ensures SpawnsOf(Logged(step, logger, log, views, k), i) ==
              SpawnsOf(log, i) + Iterated(step, views, k)[i].restarts - views[i].restarts
  {
    if k > 0 {
      LoggedSpawns(step, logger, log, views, k - 1, i);
      var before := Logged(step, logger, log, views, k - 1);
      assert CountsSpawnsAt(step, logger, i, |views|, before, Iterated(step, views, k - 1), k - 1);
    }
  }

  lemma {:induction false} TicksCountSpawns(ticks: seq<FleetTick>, i: nat, n: nat)
    ensures CountsSpawns(TickOf(ticks), RoundLogOf(ticks), i, n)
  {
    var step, logger := TickOf(ticks), RoundLogOf(ticks);
    forall log: Log, v: seq<Svc>, k: nat ensures CountsSpawnsAt(step, logger, i, n, log, v, k) {
      if i < |v| == n && k < |ticks| && |ticks[k].inputs| == |v| {
        SpawnsOfNext(log, StopRead(ticks[k].stopAtTop), i);
        TickLogSpawns(log + [StopRead(ticks[k].stopAtTop)], v, ticks[k], i);
      }
    }
  }

  lemma {:induction false} WholeMonitorLogSpawns(log: Log, views: seq<Svc>, ticks: seq<FleetTick>, i: nat)
    requires i < |views|
    ensures SpawnsOf(WholeMonitorLog(log, views, ticks), i) ==
              SpawnsOf(log, i) + StatesAt(views, ticks, TicksRun(ticks))[i].restarts - views[i].restarts
  {
    var l := MonitorLog(log, views, ticks, TicksRun(ticks));
    TicksCountSpawns(ticks, i, |views|);
    LoggedSpawns(TickOf(ticks), RoundLogOf(ticks), log, views, TicksRun(ticks), i);
    SpawnsOfNext(l, StopRead(true), i);
    assert l + [] == l;
  }

  lemma {:induction false} LiveLogSpawns(log: Log, bs: seq<Boot>, stopAfterBoot: bool, ticks: seq<FleetTick>, i: nat)
    requires i < |bs|
    ensures SpawnsOf(LiveLog(log, bs, stopAfterBoot, ticks), i) ==
              SpawnsOf(log, i) + (if i <= Reached(bs) && BootSpawns(bs[i]) then 1 else 0)
              + BeforeTeardown(bs, stopAfterBoot, ticks)[i].restarts
  {
    var booted := WholeBootLog(log, bs);
    WholeBootLogSpawns(log, bs, i);
    SpawnsOfNext(booted, StopRead(BootOutcome(bs) == Interrupted || stopAfterBoot), i);
    assert BootRecords(bs)[i].restarts == 0;
    if Monitored(bs, stopAfterBoot) {
      WholeMonitorLogSpawns(CheckLog(booted, BootOutcome(bs), stopAfterBoot), BootRecords(bs), ticks, i);
    }
  }

  lemma {:induction false} StopLogSpawns(log: Log, views: seq<Svc>, ts: seq<Stop>, from: nat, i: nat)
    requires |views| == |ts| && from <= |views|
    ensures SpawnsOf(StopLog(log, views, ts, from), i) == SpawnsOf(log, i)
    decreases |views| - from
  {
    if from < |views| {
      StopLogSpawns(log, views, ts, from + 1, i);
      SpawnsOfNext(StopLog(log, views, ts, from + 1), Shut(from), i);
    }
  }

  /** The log of a run holds every spawn: service `i` is spawned once if boot spawned it, and once for every
      restart its record counts. */
  lemma {:induction false} RunLogHoldsEverySpawn(bs: seq<Boot>, stopAfterBoot: bool, ticks: seq<FleetTick>, ts: seq<Stop>, i: nat)
    requires |ts| == |bs| && i < |bs|
    ensures SpawnsOf(RunLog(bs, stopAfterBoot, ticks, ts), i) ==
              (if i <= Reached(bs) && BootSpawns(bs[i]) then 1 else 0) + BeforeTeardown(bs, stopAfterBoot, ticks)[i].restarts
  {
    LiveLogSpawns([], bs, stopAfterBoot, ticks, i);
    StopLogSpawns(LiveLog([], bs, stopAfterBoot, ticks), BeforeTeardown(bs, stopAfterBoot, ticks), ts, 0, i);
  }

  /** No process is lost: everything a run spawns for a service it has let go of before teardown or still holds
      there. */
  lemma {:induction false} EverySpawnIsAccountedFor(bs: seq<Boot>, stopAfterBoot: bool, ticks: seq<FleetTick>, ts: seq<Stop>, i: nat)
    requires |ts| == |bs| && i < |bs| && Rectangular(ticks, |bs|)
    ensures var n := TicksMade(bs, stopAfterBoot, ticks);
            SpawnsOf(RunLog(bs, stopAfterBoot, ticks, ts), i) ==
              Drops(BootRecords(bs)[i], Column(ticks[..n], |bs|, i)) + Held(BeforeTeardown(bs, stopAfterBoot, ticks)[i])
  {
    RunLogHoldsEverySpawn(bs, stopAfterBoot, ticks, ts, i);
    BootLeavesCoherent(bs[i]);
    StatesAreRuns(BootRecords(bs), ticks, TicksMade(bs, stopAfterBoot, ticks), i);
    ProcessesAreConserved(BootRecords(bs)[i], Column(ticks[..TicksMade(bs, stopAfterBoot, ticks)], |bs|, i));
  }

  // ---------------------------------------------------------------------------------------------
  // What a log tells about the run
  // ---------------------------------------------------------------------------------------------

  lemma {:induction false} GateLogStops(log: Log, gs: seq<Gate>)
    ensures StopRead(true) in GateLog(log, gs) <==> StopRead(true) in log || GateEnd(gs) == Interrupted
    decreases |gs|
  {
    if gs != [] && GatePasses(gs[0]) {
      GateLogStops(log + [StopRead(gs[0].stop)], gs[1..]);
    }
  }

  lemma {:induction false} BootLogStops(log: Log, i: nat, b: Boot)
    ensures StopRead(true) in BootLog(log, i, b) <==> StopRead(true) in log || BootEnd(b) == Interrupted
  {
    if BootSpawns(b) {
      GateLogStops(log + [StopRead(b.stop)] + [Spawned(i)], b.gates);
    }
  }

  lemma {:induction false} BootLogsStop(log: Log, bs: seq<Boot>, k: nat)
    requires k <= |bs|
    ensures StopRead(true) in Extended(BootLogOf(bs), log, k) <==>
              StopRead(true) in log || exists i :: 0 <= i < k && BootEnd(bs[i]) == Interrupted
  {
    if k > 0 {
      BootLogsStop(log, bs, k - 1);
      BootLogStops(Extended(BootLogOf(bs), log, k - 1), k - 1, bs[k - 1]);
    }
  }

  /** Boot is interrupted exactly when one of its checks saw a stop. */
  lemma {:induction false} InterruptedIffStopSeen(bs: seq<Boot>)
    ensures StopRead(true) in WholeBootLog([], bs) <==> BootOutcome(bs) == Interrupted
  {
    BootLogsStop([], bs, Min(Reached(bs) + 1, |bs|));
    ReachedIsFirstNotUp(bs, Reached(bs));
  }

  lemma {:induction false} StopLogStops(log: Log, views: seq<Svc>, ts: seq<Stop>, from: nat)
    requires |views| == |ts| && from <= |views|
    ensures StopRead(true) in StopLog(log, views, ts, from) <==> StopRead(true) in log
    decreases |views| - from
  {
    if from < |views| {
      StopLogStops(log, views, ts, from + 1);
    }
  }

  lemma {:induction false} StopSeenStays(log: Log, bs: seq<Boot>, stopAfterBoot: bool, ticks: seq<FleetTick>)
    requires Monitored(bs, stopAfterBoot) && TicksRun(ticks) < |ticks|
    ensures StopRead(true) in LiveLog(log, bs, stopAfterBoot, ticks)
  {
    var started := CheckLog(WholeBootLog(log, bs), BootOutcome(bs), stopAfterBoot);
    var l := WholeMonitorLog(started, BootRecords(bs), ticks);
    assert l[|l| - 1] == StopRead(true);
  }

  /** A stop ended the run: during boot, right after it, or at the top of a tick. */
  predicate EndedByStop(bs: seq<Boot>, stopAfterBoot: bool, ticks: seq<FleetTick>) {
    || BootOutcome(bs) == Interrupted
    || (BootOutcome(bs) == Booted && (stopAfterBoot || exists k :: 0 <= k < |ticks| && ticks[k].stopAtTop))
  }

  /** A run that a stop ended shows it in its log; and a run whose boot failed saw no stop at all, so that one that
      saw a stop, wherever it did, does not fail on account of its boot. */
  lemma {:induction false} FailedBootSawNoStop(bs: seq<Boot>, stopAfterBoot: bool, ticks: seq<FleetTick>, ts: seq<Stop>)
    requires |ts| == |bs|
    ensures EndedByStop(bs, stopAfterBoot, ticks) ==> StopRead(true) in RunLog(bs, stopAfterBoot, ticks, ts)
    ensures StopRead(true) in RunLog(bs, stopAfterBoot, ticks, ts) ==> BootOutcome(bs) != BootFailed
  {
    InterruptedIffStopSeen(bs);
    StopLogStops(LiveLog([], bs, stopAfterBoot, ticks), BeforeTeardown(bs, stopAfterBoot, ticks), ts, 0);
    if Monitored(bs, stopAfterBoot) && EndedByStop(bs, stopAfterBoot, ticks) {
      MonitorEndsAtFirstStop(ticks, TicksRun(ticks));
      StopSeenStays([], bs, stopAfterBoot, ticks);
    }
  }

  // ---------------------------------------------------------------------------------------------
  // Stop safety
  // ---------------------------------------------------------------------------------------------

  /** Every spawn directly follows a stop check that found no stop. */
  predicate Guarded(log: seq<Event>) {
    log != [] ==>
      var n := |log| - 1;
      Guarded(log[..n]) && (log[n].Spawned? ==> n > 0 && log[n - 1] == StopRead(false))
  }

  lemma {:induction false} GuardedNext(log: Log, e: Event)
    requires Guarded(log) && (e.Spawned? ==> log != [] && log[|log| - 1] == StopRead(false))
    ensures Guarded(log + [e])
  {
    assert (log + [e])[..|log|] == log;
  }

  lemma {:induction false} GateLogGuarded(log: Log, gs: seq<Gate>)
    requires Guarded(log)
    ensures Guarded(GateLog(log, gs))
    decreases |gs|
  {
    if gs != [] {
      GuardedNext(log, StopRead(gs[0].stop));
      GateLogGuarded(log + [StopRead(gs[0].stop)], gs[1..]);
    }
  }

  lemma {:induction false} BootLogGuarded(log: Log, i: nat, b: Boot)
    requires Guarded(log)
    ensures Guarded(BootLog(log, i, b))
  {
    GuardedNext(log, StopRead(b.stop));
    if BootSpawns(b) {
      GuardedNext(log + [StopRead(b.stop)], Spawned(i));
      GateLogGuarded(log + [StopRead(b.stop)] + [Spawned(i)], b.gates);
    }
  }

  lemma {:induction false} ExtendedGuarded(extend: Extender, log: Log, k: nat)
    requires Guarded(log) && forall l: Log, j: nat :: Guarded(l) ==> Guarded(extend(l, j))
    ensures Guarded(Extended(extend, log, k))
  {
    if k > 0 {
      ExtendedGuarded(extend, log, k - 1);
    }
  }

  lemma {:induction false} WholeBootLogGuarded(log: Log, bs: seq<Boot>)
    requires Guarded(log)
    ensures Guarded(WholeBootLog(log, bs))
  {
    var extend := BootLogOf(bs);
    forall l: Log, j: nat | Guarded(l) ensures Guarded(extend(l, j)) {
      if j < |bs| {
        BootLogGuarded(l, j, bs[j]);
      }
    }
    ExtendedGuarded(extend, log, Min(Reached(bs) + 1, |bs|));
  }

  /** A respawn is decided only at a check that found no stop. */
  lemma {:induction false} ShareLogGuarded(log: Log, s: Svc, e: Input, i: nat)
    requires Guarded(log)
    ensures Guarded(ShareLog(log, s, e, i))
  {
    GuardedNext(log, StopRead(e.stop));
    if DirectiveOf(s, e) == Some(Respawn) {
      GuardedNext(log + [StopRead(e.stop)], Spawned(i));
    }
  }

  lemma {:induction false} TickLogGuarded(log: Log, views: seq<Svc>, tick: FleetTick)
    requires Guarded(log) && |tick.inputs| == |views|
    ensures Guarded(TickLog(log, views, tick))
  {
    var extend := ShareLogOf(views, tick);
    forall l: Log, j: nat | Guarded(l) ensures Guarded(extend(l, j)) {
      if j < |views| {
        ShareLogGuarded(l, Fold(views[j], LatestAt(tick.latest, j)), InputOf(tick, j), j);
      }
    }
    ExtendedGuarded(extend, log, |views|);
  }

  lemma {:induction false} LoggedGuarded(step: Stepper, logger: Logger, log: Log, views: seq<Svc>, k: nat)
    requires Guarded(log) && forall l: Log, v: seq<Svc>, j: nat :: Guarded(l) ==> Guarded(logger(l, v, j))
    ensures Guarded(Logged(step, logger, log, views, k))
  {
    if k > 0 {
      LoggedGuarded(step, logger, log, views, k - 1);
    }
  }

  lemma {:induction false} WholeMonitorLogGuarded(log: Log, views: seq<Svc>, ticks: seq<FleetTick>)
    requires Guarded(log)
    ensures Guarded(WholeMonitorLog(log, views, ticks))
  {
    var logger, l := RoundLogOf(ticks), MonitorLog(log, views, ticks, TicksRun(ticks));
    forall l: Log, v: seq<Svc>, k: nat | Guarded(l) ensures Guarded(logger(l, v, k)) {
      if k < |ticks| && |ticks[k].inputs| == |v| {
        GuardedNext(l, StopRead(ticks[k].stopAtTop));
        TickLogGuarded(l + [StopRead(ticks[k].stopAtTop)], v, ticks[k]);
      }
    }
    LoggedGuarded(TickOf(ticks), logger, log, views, TicksRun(ticks));
    GuardedNext(l, StopRead(true));
    assert l + [] == l;
  }

  lemma {:induction false} StopLogGuarded(log: Log, views: seq<Svc>, ts: seq<Stop>, from: nat)
    requires Guarded(log) && |views| == |ts| && from <= |views|
    ensures Guarded(StopLog(log, views, ts, from))
    decreases |views| - from
  {
    if from < |views| {
      StopLogGuarded(log, views, ts, from + 1);
      GuardedNext(StopLog(log, views, ts, from + 1), Shut(from));
    }
  }

  /** In the log of every run, each spawn directly follows a stop check that found no stop. */
  lemma {:induction false} RunLogGuarded(bs: seq<Boot>, stopAfterBoot: bool, ticks: seq<FleetTick>, ts: seq<Stop>)
    requires |ts| == |bs|
    ensures Guarded(RunLog(bs, stopAfterBoot, ticks, ts))
  {
    var booted := WholeBootLog([], bs);
    WholeBootLogGuarded([], bs);
    GuardedNext(booted, StopRead(BootOutcome(bs) == Interrupted || stopAfterBoot));
    if Monitored(bs, stopAfterBoot) {
      WholeMonitorLogGuarded(CheckLog(booted, BootOutcome(bs), stopAfterBoot), BootRecords(bs), ticks);
    }
    StopLogGuarded(LiveLog([], bs, stopAfterBoot, ticks), BeforeTeardown(bs, stopAfterBoot, ticks), ts, 0);
  }

  lemma {:induction false} GuardedEverywhere(log: seq<Event>, k: nat)
    requires Guarded(log) && k < |log| && log[k].Spawned?
    ensures k > 0 && log[k - 1] == StopRead(false)
  {
    if k < |log| - 1 {
      GuardedEverywhere(log[..|log| - 1], k);
    }
  }

  function SpawnCount(log: seq<Event>): nat {
    if log == [] then 0 else SpawnCount(log[1..]) + if log[0].Spawned? then 1 else 0
  }

  lemma {:induction false} NoSpawns(log: seq<Event>)
    requires forall k :: 0 <= k < |log| ==> !log[k].Spawned?
    ensures SpawnCount(log) == 0
  {
    if log != [] {
      NoSpawns(log[1..]);
    }
  }

  /** Stop safety: let stop be set at any moment `m` of the log, so that every later check reads it.
      Then at most one spawn still completes, the one whose check had already passed. */
  lemma {:induction false} AtMostOneSpawnAfterStop(log: seq<Event>, m: nat)
    requires Guarded(log) && m <= |log|
    requires forall k :: m <= k < |log| && log[k].StopRead? ==> log[k].set_
    ensures SpawnCount(log[m..]) <= 1
    ensures forall k :: m < k < |log| ==> !log[k].Spawned?
    ensures SpawnCount(log[m..]) == 1 ==> m > 0 && log[m - 1] == StopRead(false)
  {
    if m < |log| {
      if log[m].Spawned? {
        GuardedEverywhere(log, m);
      }
      assert log[m..][1..] == log[m + 1..];
      var rest := log[m + 1..];
      forall k | 0 <= k < |rest| ensures !rest[k].Spawned? {
        if rest[k].Spawned? {
          GuardedEverywhere(log, m + 1 + k);
          assert false;
        }
      }
      NoSpawns(log[m + 1..]);
    }
  }

  /** Stop is set from moment `m` of the log on: every later check reads it. */
  predicate StopSetFrom(log: seq<Event>, m: nat) {
    m <= |log| && forall k :: m <= k < |log| && log[k].StopRead? ==> log[k].set_
  }

  /** Whenever stop is set, at most one spawn follows, and only one whose check had already passed. */
  ghost predicate StopSafe(log: seq<Event>) {
    forall m: nat :: StopSetFrom(log, m) ==>
      SpawnCount(log[m..]) <= 1 && (SpawnCount(log[m..]) == 1 ==> m > 0 && log[m - 1] == StopRead(false))
  }

  lemma {:induction false} GuardedIsStopSafe(log: seq<Event>)
    requires Guarded(log)
    ensures StopSafe(log)
  {
    forall m: nat | StopSetFrom(log, m)
      ensures SpawnCount(log[m..]) <= 1 && (SpawnCount(log[m..]) == 1 ==> m > 0 && log[m - 1] == StopRead(false))
    {
      AtMostOneSpawnAfterStop(log, m);
    }
  }

  /** Stop safety of every run: once stop is set, at most one spawn of the whole fleet still completes. */
  lemma {:induction false} RunIsStopSafe(bs: seq<Boot>, stopAfterBoot: bool, ticks: seq<FleetTick>, ts: seq<Stop>)
    requires |ts| == |bs|
    ensures StopSafe(RunLog(bs, stopAfterBoot, ticks, ts))
  {
    RunLogGuarded(bs, stopAfterBoot, ticks, ts);
    GuardedIsStopSafe(RunLog(bs, stopAfterBoot, ticks, ts));
  }
}
