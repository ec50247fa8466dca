/** The supervisor that executes the policy: boot behind readiness gates, the monitor loop, teardown,
    and the whole run, over service records updated in place and a log of published checkpoints. */
module Fleet {
  import opened Prelude
  import opened RestartPolicy
  import opened ServiceRun
  import opened FleetRun
  import opened FleetLog

  datatype Entry = Entry(status: Status, pid: Option<Pid>, restarts: nat, readiness: Readiness)

  datatype Snapshot = Snapshot(status: FleetStatus, services: seq<Entry>)

  function EntryOf(s: Svc): Entry {
    Entry(s.status, s.proc, s.restarts, s.readiness)
  }

  function Entries(views: seq<Svc>): seq<Entry> {
    if views == [] then [] else Entries(views[..|views| - 1]) + [EntryOf(views[|views| - 1])]
  }

  function SnapshotOf(status: FleetStatus, views: seq<Svc>): Snapshot {
    Snapshot(status, Entries(views))
  }

  /** The snapshot shows every service in its place, with its status, its process, its restarts and its
      readiness. */
  predicate Shows(shown: Snapshot, status: FleetStatus, views: seq<Svc>) {
    && shown.status == status
    && |shown.services| == |views|
    && forall i :: 0 <= i < |views| ==>
         && shown.services[i].status == views[i].status
         && shown.services[i].pid == views[i].proc
         && shown.services[i].restarts == views[i].restarts
         && shown.services[i].readiness == views[i].readiness
  }

  /** Exactly the snapshot of the present state shows it. */
  lemma {:induction false} SnapshotShows(shown: Snapshot, status: FleetStatus, views: seq<Svc>)
    ensures shown == SnapshotOf(status, views) <==> Shows(shown, status, views)
  {
    EntriesAt(views);
    if Shows(shown, status, views) {
      assert shown.services == Entries(views);
    }
  }

  lemma {:induction false} EntriesAt(views: seq<Svc>)
    ensures |Entries(views)| == |views| && forall i :: 0 <= i < |views| ==> Entries(views)[i] == EntryOf(views[i])
  {
    if views != [] {
      EntriesAt(views[..|views| - 1]);
    }
  }

  /** `before` and `after` agree on every record but the one at `i`. */
  predicate Untouched(before: seq<Svc>, after: seq<Svc>, i: nat) {
    |before| == |after| && forall j :: 0 <= j < |after| && j != i ==> after[j] == before[j]
  }

  // A `&mut` parameter of the program is an in-parameter and an out-parameter here.

  /** Applies the healthy reset first, then counts the crash. */
  method RecordCrash(h: History, now: Instant) returns (h': History)
    ensures h' == Crashed(h, now)
  {
    var prior := h.consecutiveFailures;
    if h.healthySince.Some? && Elapsed(now, h.healthySince.value) >= HEALTHY_RESET_AFTER {
      prior := 0;
    }
    h' := History(prior + 1, None);
  }

  method CrashInto(h: History, now: Instant) returns (next: Phase, h': History)
    ensures next == CrashPhase(h, now) && h' == Crashed(h, now)
  {
    var decision := NextRestart(h, now);
    h' := RecordCrash(h, now);
    match decision
    case RespawnAt(at) => next := Backoff(at);
    case GiveUp => next := Failed;
  }

  /** The transition of one service; it changes nothing but the history. */
  method Transition(at: Phase, observed: Observed, stop: bool, now: Instant, h: History)
    returns (d: Directive, h': History)
    ensures Stepped(d, h') == Step(at, observed, stop, now, h)
  {
    d, h' := Stay(at), h;
    match at
    case Failed =>
    case Backoff(respawnAt) =>
      if !stop && now >= respawnAt {
        d := Respawn;
      }
    case Healthy(_) =>
      if observed == Exited {
        var p;
        p, h' := CrashInto(h, now);
        d := Stay(p);
      }
    case WaitingHealthy(deadline) =>
      if observed == Exited {
        var p;
        p, h' := CrashInto(h, now);
        d := Stay(p);
      } else if observed == Ready {
        h' := h.(healthySince := Some(now));
        d := Stay(Healthy(now));
      } else if now >= deadline {
        var p;
        p, h' := CrashInto(h, now);
        d := Kill(p);
      }
  }

  /** Observes and decides. Marking a respawn as restarting first does not change its effect. */
  method Decide(svc: Svc, e: Input) returns (d: Directive, svc': Svc)
    requires svc.phase.Some?
    ensures Some(d) == DirectiveOf(svc, e) && svc' == svc.(history := svc'.history)
    ensures Apply(svc', svc.phase.value, d, e) == Share(svc, e)
    ensures d == Stay(svc.phase.value) ==> svc' == svc
    ensures d == Respawn ==> !e.stop && Apply(svc'.(status := StRestarting), svc.phase.value, d, e) == Share(svc, e)
  {
    var at, h := svc.phase.value, svc.history;
    d, h := Transition(at, Observe(svc.proc, at, e), e.stop, e.now, svc.history);
    svc' := svc.(history := h);
  }

  /** Executes one directive on a record; `changed` asks for a checkpoint. */
  method Execute(svc: Svc, at: Phase, d: Directive, e: Input) returns (svc': Svc, changed: bool)
    ensures svc' == Apply(svc, at, d, e)
    ensures changed <==> d != Stay(at)
  {
    svc', changed := svc, d != Stay(at);
    match d
    case Stay(p) =>
      if p == at {
        return;
      }
      if p.Backoff? || p.Failed? {
        svc' := svc'.(proc := None);
      }
      svc' := svc'.(phase := Some(p), status := StatusOf(p));
    case Respawn =>
      if e.spawn.Some? {
        svc' := svc'.(proc := e.spawn, restarts := svc.restarts + 1);
        svc' := svc'.(phase := Some(WaitingHealthy(e.later + HEALTH_DEADLINE)), status := StWaitingHealthy);
      } else {
        var p, h := CrashInto(svc.history, e.later);
        svc' := svc'.(history := h, phase := Some(p), status := StatusOf(p));
      }
    case Kill(intended) =>
      var p := intended;
      if svc.proc.Some? {
        p := PhaseAfterKill(e.shutdown, intended);
      }
      svc' := svc'.(proc := None, phase := Some(p), status := StatusOf(p));
  }

  class Supervisor {
    /** The records, side by side and updated in place. */
    const fleet: array<Svc>
    var fleetStatus: FleetStatus
    var published: seq<Snapshot>
    var events: Log

    /** The checkpoints follow the lifecycle. */
    ghost predicate Valid()
      reads this`published, this`fleetStatus
    {
      Lifecycle(published, fleetStatus)
    }

    /** Still before the terminal checkpoint. */
    ghost predicate Active()
      reads this`published, this`fleetStatus
    {
      Valid() && !Finished(published) && !IsTerminal(fleetStatus)
    }

    /** The last checkpoint shows exactly the present state. */
    ghost predicate Current()
      reads this`published, this`fleetStatus, fleet
    {
      published != [] && published[|published| - 1] == SnapshotOf(fleetStatus, fleet[..])
    }

    constructor (n: nat)
      ensures Valid() && fleet.Length == n && fresh(fleet)
      ensures forall i :: 0 <= i < n ==> fleet[i] == FRESH
      ensures fleetStatus == FStarting && published == [] && events == []
    {
      fleet := new Svc[n](_ => FRESH);
      fleetStatus, published, events := FStarting, [], [];
    }

    method Checkpoint()
      requires Valid() && !Finished(published)
      modifies this`published
      ensures Valid() && Current() && published[..|published| - 1] == old(published)
      ensures Shows(published[|published| - 1], fleetStatus, fleet[..])
    {
      var shown := SnapshotOf(fleetStatus, fleet[..]);
      SnapshotShows(shown, fleetStatus, fleet[..]);
      assert (published + [shown])[..|published|] == published;
      published := published + [shown];
    }

    method Note(e: Event)
      modifies this`events
      ensures events == old(events) + [e]
    {
      events := events + [e];
    }

    /** Writes the poller's verdicts; touches nothing but readiness. */
    method FoldReadiness(latest: seq<Readiness>) returns (changed: bool)
      modifies fleet
      ensures forall i :: 0 <= i < fleet.Length ==> fleet[i] == Fold(old(fleet[i]), LatestAt(latest, i))
      ensures forall i :: 0 <= i < fleet.Length ==>
                fleet[i] == old(fleet[i]).(readiness := if i < |latest| then latest[i] else old(fleet[i]).readiness)
      ensures changed <==> fleet[..] != old(fleet[..])
    {
      changed := false;
      var n := Min(fleet.Length, |latest|);
      for i := 0 to n
        invariant forall j :: 0 <= j < i ==> fleet[j] == Fold(old(fleet[j]), LatestAt(latest, j))
        invariant forall j :: i <= j < fleet.Length ==> fleet[j] == old(fleet[j])
        invariant changed <==> exists j :: 0 <= j < fleet.Length && fleet[j] != old(fleet[j])
      {
        if fleet[i].readiness != latest[i] {
          fleet[i] := fleet[i].(readiness := latest[i]);
          changed := true;
          assert fleet[i] != old(fleet[i]);
        }
      }
      assert !changed ==> fleet[..] == old(fleet[..]);
      if changed {
        ghost var j :| 0 <= j < fleet.Length && fleet[j] != old(fleet[j]);
        assert fleet[..][j] != old(fleet[..])[j];
      }
    }

    /** One service's share of a tick: observe, decide, execute, publish. */
    method ServiceShare(i: nat, e: Input)
      requires Active() && i < fleet.Length
      modifies fleet, this`published, this`events
      ensures Active()
      ensures fleet[i] == Share(old(fleet[i]), e) && Untouched(old(fleet[..]), fleet[..], i)
      ensures events == ShareLog(old(events), old(fleet[i]), e, i)
      ensures old(Current()) ==> Current()
    {
      var svc := fleet[i];
      if svc.phase.None? {
        return;
      }
      Note(StopRead(e.stop));
      var d;
      d, fleet[i] := Decide(svc, e);
      if d == Respawn {
        AnnounceRespawn(i, e.spawn.Some?);
      }
      ExecuteAt(i, svc.phase.value, d, e);
      if d == Stay(svc.phase.value) {
        assert fleet[..] == old(fleet[..]);
      }
    }

    /** Executes a directive and publishes what it changed. */
    method ExecuteAt(i: nat, at: Phase, d: Directive, e: Input)
      requires Active() && i < fleet.Length
      modifies fleet, this`published
      ensures Active()
      ensures fleet[i] == Apply(old(fleet[i]), at, d, e) && Untouched(old(fleet[..]), fleet[..], i)
      ensures if d == Stay(at) then fleet[i] == old(fleet[i]) && published == old(published) else Current()
    {
      var changed;
      fleet[i], changed := Execute(fleet[i], at, d, e);
      if changed {
        Checkpoint();
      }
    }

    /** A respawn is visible as restarting before its spawn completes. */
    method AnnounceRespawn(i: nat, spawned: bool)
      requires Active() && i < fleet.Length
      modifies fleet, this`published, this`events
      ensures Active()
      ensures fleet[i] == old(fleet[i]).(status := StRestarting) && Untouched(old(fleet[..]), fleet[..], i)
      ensures SnapshotOf(fleetStatus, fleet[..]) in published
      ensures events == old(events) + if spawned then [Spawned(i)] else []
    {
      fleet[i] := fleet[i].(status := StRestarting);
      Checkpoint();
      if spawned {
        Note(Spawned(i));
      }
    }

    /** Service `i`'s share, those before it having had theirs. */
    method ShareRound(tick: FleetTick, i: nat, ghost was: seq<Svc>, ghost start: Log)
      requires Active() && |tick.inputs| == fleet.Length == |was| && i < fleet.Length
      requires Halfway(was, fleet[..], tick, i) && events == Extended(ShareLogOf(was, tick), start, i)
      modifies fleet, this`published, this`events
      ensures Active() && (old(Current()) ==> Current())
      ensures Halfway(was, fleet[..], tick, i + 1) && events == Extended(ShareLogOf(was, tick), start, i + 1)
    {
      assert fleet[i] == fleet[..][i];
      ServiceShare(i, InputOf(tick, i));
    }

    /** One tick of every service, in order. */
    method MonitorTick(tick: FleetTick)
      requires Active() && |tick.inputs| == fleet.Length && Current()
      modifies fleet, this`published, this`events
      ensures Active() && Current()
      ensures fleet[..] == Ticked(old(fleet[..]), tick)
      ensures events == TickLog(old(events), old(fleet[..]), tick)
    {
      ghost var was := fleet[..];
      var readinessChanged := FoldReadiness(tick.latest);
      for i := 0 to fleet.Length
        invariant Active() && (!readinessChanged ==> Current())
        invariant Halfway(was, fleet[..], tick, i) && events == Extended(ShareLogOf(was, tick), old(events), i)
      {
        ShareRound(tick, i, was, old(events));
      }
      HalfwayEnds(was, fleet[..], tick);
      if readinessChanged {
        Checkpoint();
      }
    }

    /** Tick number `n` of the loop, after its stop check. */
    method MonitorRound(ticks: seq<FleetTick>, n: nat, ghost was: seq<Svc>, ghost start: Log)
      requires Active() && Rectangular(ticks, fleet.Length) && Current() && n < |ticks| && |was| == fleet.Length
      requires fleet[..] == StatesAt(was, ticks, n)
      requires events == MonitorLog(start, was, ticks, n) + [StopRead(ticks[n].stopAtTop)]
      modifies fleet, this`published, this`events
      ensures Active() && Current()
      ensures fleet[..] == StatesAt(was, ticks, n + 1)
      ensures events == MonitorLog(start, was, ticks, n + 1)
    {
      MonitorLogStep(start, was, ticks, n);
      StatesStep(was, ticks, n);
      MonitorTick(ticks[n]);
    }

    /** Makes `n` ticks, until one finds the stop flag set. */
    method MonitorLoop(ticks: seq<FleetTick>) returns (n: nat)
      requires Active() && Rectangular(ticks, fleet.Length) && Current()
      modifies fleet, this`published, this`events
      ensures Active() && Current()
      ensures n <= |ticks| && NoStops(ticks, n) && (n < |ticks| ==> ticks[n].stopAtTop)
      ensures fleet[..] == StatesAt(old(fleet[..]), ticks, n)
      ensures events == MonitorLog(old(events), old(fleet[..]), ticks, n) + if n < |ticks| then [StopRead(true)] else []
    {
      ghost var was := fleet[..];
      n := 0;
      while n < |ticks|
        invariant n <= |ticks| && Active() && Current() && NoStops(ticks, n)
        invariant fleet[..] == StatesAt(was, ticks, n)
        invariant events == MonitorLog(old(events), was, ticks, n)
      {
        Note(StopRead(ticks[n].stopAtTop));
        if ticks[n].stopAtTop {
          return;
        }
        MonitorRound(ticks, n, was, old(events));
        n := n + 1;
      }
    }

    /** Runs until a tick finds the stop flag set. */
    method Monitor(ticks: seq<FleetTick>)
      requires Active() && Rectangular(ticks, fleet.Length) && Current()
      modifies fleet, this`published, this`events
      ensures Active() && Current()
      ensures fleet[..] == StatesAt(old(fleet[..]), ticks, TicksRun(ticks))
      ensures events == WholeMonitorLog(old(events), old(fleet[..]), ticks)
    {
      var n := MonitorLoop(ticks);
      MonitorEndsAtFirstStop(ticks, n);
    }

    /** One service's share of boot: check for a stop, spawn, then wait at the gate. */
    method BootService(i: nat, b: Boot) returns (r: BootResult)
      requires Active() && i < fleet.Length && fleet[i] == FRESH && Current()
      modifies fleet, this`published, this`events
      ensures Active() && Current()
      ensures r == BootEnd(b) && fleet[i] == BootView(b) && Untouched(old(fleet[..]), fleet[..], i)
      ensures events == BootLog(old(events), i, b)
    {
      Note(StopRead(b.stop));
      if b.stop {
        return Interrupted;
      }
      if b.staleListener || b.spawn.None? {
        return BootFailed;
      }
      Note(Spawned(i));
      fleet[i] := fleet[i].(proc := b.spawn, phase := Some(WaitingHealthy(b.spawnedAt + HEALTH_DEADLINE)));
      fleet[i] := fleet[i].(status := StWaitingHealthy);
      Checkpoint();
      r := AwaitGate(i, b.gates);
    }

    method AwaitGate(i: nat, gs: seq<Gate>) returns (r: BootResult)
      requires Active() && i < fleet.Length && Current()
      modifies fleet, this`published, this`events
      ensures Active() && Current()
      ensures r == GateEnd(gs)
      ensures r == Interrupted <==> exists k: nat :: FirstToDecide(gs, k) && gs[k].stop
      ensures r == Booted <==>
                exists k: nat :: FirstToDecide(gs, k) && !gs[k].stop && gs[k].liveness == StillRunning && gs[k].ready
      ensures events == GateLog(old(events), gs)
      ensures r != Booted ==> fleet[..] == old(fleet[..])
      ensures r == Booted ==>
                && Untouched(old(fleet[..]), fleet[..], i)
                && fleet[i] == old(fleet[i]).(history := TurnedHealthy(old(fleet[i]).history, OpenedAt(gs)),
                                              phase := Some(Healthy(OpenedAt(gs))), status := StHealthy)
    {
      GateEndsIff(gs);
      for k := 0 to |gs|
        invariant Active() && Current() && fleet[..] == old(fleet[..])
        invariant GateEnd(gs) == GateEnd(gs[k..])
        invariant GateEnd(gs) == Booted ==> OpenedAt(gs) == OpenedAt(gs[k..])
        invariant GateLog(events, gs[k..]) == GateLog(old(events), gs)
      {
        assert gs[k..][0] == gs[k] && gs[k..][1..] == gs[k + 1..];
        assert fleet[i] == old(fleet[..])[i];
        Note(StopRead(gs[k].stop));
        if gs[k].stop {
          return Interrupted;
        }
        if gs[k].liveness != StillRunning {
          return BootFailed;
        }
        if gs[k].ready {
          var h := fleet[i].history.(healthySince := Some(gs[k].readyAt));
          fleet[i] := fleet[i].(history := h, phase := Some(Healthy(gs[k].readyAt)), status := StHealthy);
          Checkpoint();
          return Booted;
        }
        if gs[k].expired {
          return BootFailed;
        }
      }
      r := BootFailed;
    }

    /** Boots service `i`, those before it being up. */
    method BootRound(bs: seq<Boot>, i: nat, ghost start: Log) returns (r: BootResult)
      requires Active() && i < |bs| == fleet.Length && Current()
      requires fleet[..] == BootedFleet(bs, i) && events == Extended(BootLogOf(bs), start, i)
      modifies fleet, this`published, this`events
      ensures Active() && Current() && r == BootEnd(bs[i])
      ensures fleet[..] == BootedFleet(bs, i + 1) && events == Extended(BootLogOf(bs), start, i + 1)
    {
      BootedFleetAt(bs, i, i);
      assert fleet[i] == fleet[..][i];
      r := BootService(i, bs[i]);
    }

    /** Boots in order until a service is not up. */
    method BootUntil(bs: seq<Boot>) returns (i: nat)
      requires Active() && |bs| == fleet.Length && Current() && fleet[..] == BootedFleet(bs, 0)
      modifies fleet, this`published, this`events
      ensures Active() && Current() && i == Reached(bs)
      ensures fleet[..] == BootedFleet(bs, Min(i + 1, |bs|))
      ensures events == Extended(BootLogOf(bs), old(events), Min(i + 1, |bs|))
    {
      i := 0;
      while i < fleet.Length
        invariant i <= fleet.Length && Active() && Current()
        invariant AllUp(bs, i) && fleet[..] == BootedFleet(bs, i) && events == Extended(BootLogOf(bs), old(events), i)
      {
        var r := BootRound(bs, i, old(events));
        if r != Booted {
          ReachedIsFirstNotUp(bs, i);
          return;
        }
        i := i + 1;
      }
      ReachedIsFirstNotUp(bs, i);
    }

    /** Boots in order and stops at the first service that is not up. */
    method BootFleet(bs: seq<Boot>) returns (r: BootResult)
      requires Active() && |bs| == fleet.Length && Current()
      requires forall i :: 0 <= i < fleet.Length ==> fleet[i] == FRESH
      modifies fleet, this`published, this`events
      ensures Active() && Current()
      ensures r == BootOutcome(bs) && fleet[..] == BootRecords(bs)
      ensures events == WholeBootLog(old(events), bs)
    {
      var i := BootUntil(bs);
      BootEnds(bs);
      r := if i < |bs| then BootEnd(bs[i]) else Booted;
    }

    /** Stops one service, if there is anything to stop. */
    method StopService(i: nat, t: Stop) returns (clean: bool)
      requires Active() && i < fleet.Length && fleetStatus == FStopping
      modifies fleet, this`published, this`events
      ensures Active()
      ensures fleet[i] == Torn(old(fleet[i]), t) && Untouched(old(fleet[..]), fleet[..], i)
      ensures clean <==> CleanStop(old(fleet[i]), t)
      ensures events == old(events) + if MustStop(old(fleet[i]), t) then [Shut(i)] else []
      ensures MustStop(old(fleet[i]), t) ==>
                SnapshotOf(fleetStatus, old(fleet[..])[i := old(fleet[i]).(proc := None, status := StStopping)]) in published
    {
      clean := true;
      if fleet[i].proc.Some? {
        fleet[i] := fleet[i].(proc := None);
        if t.liveness == HasExited {
          fleet[i] := fleet[i].(status := StExited);
        } else {
          fleet[i] := fleet[i].(status := StStopping);
          Checkpoint();
          assert fleet[..] == old(fleet[..])[i := fleet[i]];
          assert published[|published| - 1] in published;
          Note(Shut(i));
          var outcome := StopOutcome(t.shutdown);
          fleet[i] := fleet[i].(status := outcome.0);
          clean := outcome.1;
        }
        Checkpoint();
      } else {
        var final := match fleet[i].status case StFailed => StFailed case StStarting => StStopped case _ => StExited;
        if fleet[i].status != final {
          fleet[i] := fleet[i].(status := final);
          Checkpoint();
        }
      }
    }

    /** Stops what is held, in reverse spawn order. */
    method StopAll(ts: seq<Stop>) returns (clean: bool)
      requires Active() && |ts| == fleet.Length && fleetStatus == FStopping
      modifies fleet, this`published, this`events
      ensures Active()
      ensures fleet[..] == TornAll(old(fleet[..]), ts) && (clean <==> AllClean(old(fleet[..]), ts))
      ensures events == StopLog(old(events), old(fleet[..]), ts, 0)
    {
      ghost var was := fleet[..];
      clean := true;
      var i := fleet.Length;
      while i > 0
        invariant 0 <= i <= fleet.Length && Active()
        invariant forall j :: i <= j < fleet.Length ==> fleet[j] == Torn(was[j], ts[j])
        invariant forall j :: 0 <= j < i ==> fleet[j] == was[j]
        invariant clean <==> forall j :: i <= j < fleet.Length ==> CleanStop(was[j], ts[j])
        invariant events == StopLog(old(events), was, ts, i)
      {
        i := i - 1;
        var stopped := StopService(i, ts[i]);
        clean := clean && stopped;
      }
    }

    /** Stops the fleet and publishes the terminal status, which is `Failed` unless every stop was
        confirmed. */
    method Teardown(ts: seq<Stop>, terminal: FleetStatus) returns (clean: bool)
      requires Active() && |ts| == fleet.Length && IsTerminal(terminal)
      modifies fleet, this
      ensures Valid() && Current()
      ensures fleetStatus == if clean then terminal else FFailed
      ensures fleet[..] == TornAll(old(fleet[..]), ts) && (clean <==> AllClean(old(fleet[..]), ts))
      ensures events == StopLog(old(events), old(fleet[..]), ts, 0)
    {
      fleetStatus := FStopping;
      Checkpoint();
      clean := StopAll(ts);
      fleetStatus := if clean then terminal else FFailed;
      Checkpoint();
    }

    /** Boots, then monitors unless boot failed or a stop came in. A stop that interrupted boot is still
        set at the check that follows. */
    method BootAndMonitor(bs: seq<Boot>, stopAfterBoot: bool, ticks: seq<FleetTick>) returns (boot: BootResult)
      requires Active() && Current() && fleetStatus == FStarting
      requires forall i :: 0 <= i < fleet.Length ==> fleet[i] == FRESH
      requires |bs| == fleet.Length && Rectangular(ticks, fleet.Length)
      modifies fleet, this
      ensures Active() && Current()
      ensures fleetStatus == if AllUp(bs, |bs|) && !stopAfterBoot then FRunning else FStarting
      ensures boot == BootOutcome(bs) && fleet[..] == BeforeTeardown(bs, stopAfterBoot, ticks)
      ensures events == LiveLog(old(events), bs, stopAfterBoot, ticks)
    {
      boot := BootFleet(bs);
      MonitoredIff(bs, stopAfterBoot);
      if boot != BootFailed {
        Note(StopRead(boot == Interrupted || stopAfterBoot));
        if boot == Booted && !stopAfterBoot {
          fleetStatus := FRunning;
          Checkpoint();
          Monitor(ticks);
        }
      }
    }

    /** An endpoint could not be bound: nothing was spawned, and the fleet ends failed. */
    method FailBeforeBoot(ts: seq<Stop>)
      requires Active() && |ts| == fleet.Length
      requires forall i :: 0 <= i < fleet.Length ==> fleet[i] == FRESH
      modifies fleet, this
      ensures Valid() && Current() && fleetStatus == FFailed && events == old(events)
      ensures AllSettled(fleet[..])
    {
      NothingToStop(events, fleet[..], ts, 0);
      TornAllIsSettled(fleet[..], ts);
      var _ := Teardown(ts, FFailed);
    }

    /** A run that gets as far as boot. */
    method RunServices(bs: seq<Boot>, stopAfterBoot: bool, ticks: seq<FleetTick>, ts: seq<Stop>) returns (ok: bool)
      requires Active() && Current() && fleetStatus == FStarting
      requires forall i :: 0 <= i < fleet.Length ==> fleet[i] == FRESH
      requires |bs| == |ts| == fleet.Length && Rectangular(ticks, fleet.Length) && events == []
      modifies fleet, this
      ensures Valid() && Current()
      ensures fleetStatus == if ok then FStopped else FFailed
      ensures var before := BeforeTeardown(bs, stopAfterBoot, ticks);
              fleet[..] == TornAll(before, ts) && (ok <==> BootOutcome(bs) != BootFailed && AllClean(before, ts))
      ensures events == RunLog(bs, stopAfterBoot, ticks, ts)
    {
      var boot := BootAndMonitor(bs, stopAfterBoot, ticks);
      var clean := Teardown(ts, if boot == BootFailed then FFailed else FStopped);
      ok := boot != BootFailed && clean;
    }

    /** The agent's whole run after the lock. It succeeds exactly when the last published status is stopped,
        that is, when boot did not fail and every held process not seen to have exited was confirmed
        stopped; a run that saw a stop, during boot or later, cannot fail for any other reason. What it did is a function of the answers it got: the log holds its stop checks, spawns and
        stops, each service went through its own run, and once stop is set at most one spawn completes. */
    method RunFleet(start: Startup, bs: seq<Boot>, stopAfterBoot: bool, ticks: seq<FleetTick>, ts: seq<Stop>)
      returns (ok: bool)
      requires Valid() && fleetStatus == FStarting && published == [] && events == []
      requires forall i :: 0 <= i < fleet.Length ==> fleet[i] == FRESH
      requires |bs| == |ts| == fleet.Length && Rectangular(ticks, fleet.Length)
      modifies fleet, this
      ensures Valid() && published != [] && StopSafe(events)
      ensures start.EarlyFailure? ==> !ok && published[|published| - 1].status == FStarting && events == []
      ensures !start.EarlyFailure? ==> Finished(published) && Current()
      ensures Reports(published, ok)
      ensures !start.EarlyFailure? && !start.Launched? ==> !ok && events == []
      ensures start.Launched? ==>
                var before := BeforeTeardown(bs, stopAfterBoot, ticks);
                && (ok <==> BootOutcome(bs) != BootFailed && AllClean(before, ts))
                && fleet[..] == TornAll(before, ts)
                && events == RunLog(bs, stopAfterBoot, ticks, ts)
      ensures start.Launched? && StopRead(true) in events ==> (ok <==> AllClean(BeforeTeardown(bs, stopAfterBoot, ticks), ts))
      ensures !start.EarlyFailure? ==> AllSettled(fleet[..])
    {
      ok := false;
      published := [Snapshot(FStarting, [])];
      if start.EarlyFailure? {
        GuardedIsStopSafe(events);
        return;
      }
      Checkpoint();
      if start.ControlBindFailed? || start.AgentBindFailed? {
        FailBeforeBoot(ts);
        GuardedIsStopSafe(events);
        return;
      }
      Checkpoint();
      ok := RunServices(bs, stopAfterBoot, ticks, ts);
      TornAllIsSettled(BeforeTeardown(bs, stopAfterBoot, ticks), ts);
      RunIsStopSafe(bs, stopAfterBoot, ticks, ts);
      FailedBootSawNoStop(bs, stopAfterBoot, ticks, ts);
    }
  }

  /** A run succeeds exactly when the last status it publishes is stopped. */
  predicate Reports(published: seq<Snapshot>, ok: bool) {
    published != [] && (ok <==> published[|published| - 1].status == FStopped)
  }

  lemma {:induction false} TornAllIsSettled(views: seq<Svc>, ts: seq<Stop>)
    requires |views| == |ts|
    ensures AllSettled(TornAll(views, ts))
  {
  }

  /** Starting, then running, then stopping, then terminal. */
  function Rank(s: FleetStatus): nat {
    match s
    case FStarting => 0
    case FRunning => 1
    case FStopping => 2
    case _ => 3
  }

  predicate Finished(published: seq<Snapshot>) {
    published != [] && IsTerminal(published[|published| - 1].status)
  }

  /** Published statuses never go back, none passes the present one, and a terminal one is last. */
  predicate Lifecycle(published: seq<Snapshot>, now: FleetStatus) {
    published != [] ==>
      var n := |published| - 1;
      && Rank(published[n].status) <= Rank(now)
      && Lifecycle(published[..n], published[n].status)
      && !Finished(published[..n])
  }

  lemma {:induction false} LifecycleOrder(published: seq<Snapshot>, now: FleetStatus, a: nat, b: nat)
    requires Lifecycle(published, now) && a < b < |published|
    ensures Rank(published[a].status) <= Rank(published[b].status) <= Rank(now)
    ensures published[a].status !in {FStopped, FFailed}
    ensures published[a].status == FRunning ==> published[b].status != FStarting
    ensures published[a].status == FStopping ==> published[b].status !in {FStarting, FRunning}
    ensures published[b].status == FStopping ==> now !in {FStarting, FRunning}
  {
    var n := |published| - 1;
    if b < n {
      LifecycleOrder(published[..n], published[n].status, a, b);
    } else if a < n - 1 {
      LifecycleOrder(published[..n], published[n].status, a, n - 1);
    }
  }
}
