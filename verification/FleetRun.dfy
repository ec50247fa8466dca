/** A whole run of the supervisor as a function of what the outside world answers: what boot leaves, what
    each tick does to every service, what teardown starts from and what it leaves. */
module FleetRun {
  import opened Prelude
  import opened RestartPolicy
  import opened ServiceRun

  datatype FleetStatus = FStarting | FRunning | FStopping | FStopped | FFailed

  predicate IsTerminal(s: FleetStatus) {
    s == FStopped || s == FFailed
  }

  /** One monitor tick: the stop flag at its top, the poller's verdicts, each service's answers. */
  datatype FleetTick = FleetTick(stopAtTop: bool, latest: seq<Readiness>, inputs: seq<Input>)

  function LatestAt(latest: seq<Readiness>, i: nat): Option<Readiness> {
    if i < |latest| then Some(latest[i]) else None
  }

  predicate Rectangular(ticks: seq<FleetTick>, n: nat) {
    forall k :: 0 <= k < |ticks| ==> |ticks[k].inputs| == n
  }

  function InputOf(tick: FleetTick, i: nat): Input
    requires i < |tick.inputs|
  {
    tick.inputs[i].(latest := LatestAt(tick.latest, i))
  }

  /** What service `i` is answered, tick after tick. */
  function Column(ticks: seq<FleetTick>, n: nat, i: nat): seq<Input>
    requires Rectangular(ticks, n) && i < n
  {
    seq(|ticks|, k requires 0 <= k < |ticks| => InputOf(ticks[k], i))
  }

  /** One iteration of a boot gate, and one service's share of boot. */
  datatype Gate = Gate(stop: bool, liveness: Liveness, ready: bool, readyAt: Instant, expired: bool)

  datatype Boot = Boot(stop: bool, staleListener: bool, spawn: Option<Pid>, spawnedAt: Instant, gates: seq<Gate>)

  datatype BootResult = Booted | Interrupted | BootFailed

  /** How the gate ends: the first iteration that sees a stop, a death, a ready answer or the deadline
      decides, in that order. Running out of iterations is the deadline. */
  function GateEnd(gs: seq<Gate>): BootResult {
    if gs == [] then BootFailed
    else if gs[0].stop then Interrupted
    else if gs[0].liveness != StillRunning then BootFailed
    else if gs[0].ready then Booted
    else if gs[0].expired then BootFailed
    else GateEnd(gs[1..])
  }

  /** The iteration decides nothing. */
  predicate GatePasses(g: Gate) {
    !g.stop && g.liveness == StillRunning && !g.ready && !g.expired
  }

  predicate AllPass(gs: seq<Gate>, k: nat)
    requires k <= |gs|
  {
    forall j :: 0 <= j < k ==> GatePasses(gs[j])
  }

  /** Iteration `k` is the first that decides something. */
  predicate FirstToDecide(gs: seq<Gate>, k: nat) {
    k < |gs| && AllPass(gs, k) && !GatePasses(gs[k])
  }

  function OpenedAt(gs: seq<Gate>): Instant
    requires GateEnd(gs) == Booted
  {
    if gs[0].ready then gs[0].readyAt else OpenedAt(gs[1..])
  }

  lemma {:induction false} GateTail(gs: seq<Gate>, k: nat)
    requires gs != [] && GatePasses(gs[0]) && k <= |gs| - 1
    ensures AllPass(gs, k + 1) <==> AllPass(gs[1..], k)
  {
    var rest := gs[1..];
    assert forall j :: 1 <= j < |gs| ==> gs[j] == rest[j - 1];
    assert AllPass(gs, k + 1) ==> forall j :: 0 <= j < k ==> GatePasses(rest[j]) by {
      assert forall j :: 0 <= j < k ==> rest[j] == gs[j + 1];
    }
  }

  /** The first iteration that decides something decides: a stop interrupts, else a running and ready process is
      up, else boot fails. */
  lemma {:induction false} FirstDecides(gs: seq<Gate>, k: nat)
    requires FirstToDecide(gs, k)
    ensures GateEnd(gs) == Interrupted <==> gs[k].stop
    ensures GateEnd(gs) == Booted <==> !gs[k].stop && gs[k].liveness == StillRunning && gs[k].ready
    ensures GateEnd(gs) == Booted ==> OpenedAt(gs) == gs[k].readyAt
  {
    if k > 0 {
      assert GatePasses(gs[0]);
      GateTail(gs, k - 1);
      FirstDecides(gs[1..], k - 1);
    }
  }

  /** A gate at which nothing is decided fails. */
  lemma {:induction false} NoneDecides(gs: seq<Gate>)
    ensures AllPass(gs, |gs|) ==> GateEnd(gs) == BootFailed
    ensures !AllPass(gs, |gs|) ==> exists k: nat :: FirstToDecide(gs, k)
  {
    if gs != [] {
      if GatePasses(gs[0]) {
        NoneDecides(gs[1..]);
        GateTail(gs, |gs| - 1);
        if k: nat :| FirstToDecide(gs[1..], k) {
          GateTail(gs, k);
          assert FirstToDecide(gs, k + 1);
        }
      } else {
        assert FirstToDecide(gs, 0);
      }
    }
  }

  /** How a gate ends, whatever its iterations answer: interrupted exactly if some iteration sees a stop and none
      before it decided anything; up exactly if the first that decides sees no stop and a running and ready
      process; failed exactly otherwise, that is, if the first that decides finds the process dead or the time
      over, or none decides. */
  lemma {:induction false} GateEndsIff(gs: seq<Gate>)
    ensures GateEnd(gs) == Interrupted <==> exists k: nat :: FirstToDecide(gs, k) && gs[k].stop
    ensures GateEnd(gs) == Booted <==>
              exists k: nat :: FirstToDecide(gs, k) && !gs[k].stop && gs[k].liveness == StillRunning && gs[k].ready
    ensures GateEnd(gs) == BootFailed <==>
              || AllPass(gs, |gs|)
              || exists k: nat :: FirstToDecide(gs, k) && !gs[k].stop && (gs[k].liveness != StillRunning || !gs[k].ready)
  {
    NoneDecides(gs);
    forall k: nat | FirstToDecide(gs, k)
      ensures GateEnd(gs) == Interrupted <==> gs[k].stop
      ensures GateEnd(gs) == Booted <==> !gs[k].stop && gs[k].liveness == StillRunning && gs[k].ready
    {
      FirstDecides(gs, k);
    }
  }

  function BootEnd(b: Boot): BootResult {
    if b.stop then Interrupted
    else if b.staleListener || b.spawn.None? then BootFailed
    else GateEnd(b.gates)
  }

  predicate BootSpawns(b: Boot) {
    !b.stop && !b.staleListener && b.spawn.Some?
  }

  /** How a service's share of boot ends: interrupted exactly if a stop is seen before the spawn or at the gate, up
      exactly if it is spawned and its gate opens. */
  lemma {:induction false} BootEndsIff(b: Boot)
    ensures BootEnd(b) == Interrupted <==> b.stop || (BootSpawns(b) && exists k: nat :: FirstToDecide(b.gates, k) && b.gates[k].stop)
    ensures BootEnd(b) == Booted <==>
              BootSpawns(b) &&
              exists k: nat :: FirstToDecide(b.gates, k) && !b.gates[k].stop && b.gates[k].liveness == StillRunning && b.gates[k].ready
  {
    GateEndsIff(b.gates);
  }

  /** The record boot leaves for one service. */
  function BootView(b: Boot): Svc {
    if b.stop || b.staleListener || b.spawn.None? then FRESH
    else if GateEnd(b.gates) == Booted then
      var t := OpenedAt(b.gates);
      Svc(Some(Healthy(t)), b.spawn, History(0, Some(t)), StHealthy, 0, Unknown)
    else
      Svc(Some(WaitingHealthy(b.spawnedAt + HEALTH_DEADLINE)), b.spawn, History(0, None), StWaitingHealthy, 0, Unknown)
  }

  /** Boot hands the monitor only services that are up and never failed; whatever it leaves otherwise
      is either untouched or a coherent record still holding its process. */
  lemma {:induction false} BootLeavesCoherent(b: Boot)
    ensures BootEnd(b) == Booted ==> BootedAt(BootView(b), OpenedAt(b.gates)) && Coherent(BootView(b))
    ensures BootView(b) == FRESH || Coherent(BootView(b))
    ensures BootEnd(b) != Booted && BootView(b) != FRESH ==> BootView(b).phase == Some(WaitingHealthy(b.spawnedAt + Seconds(30)))
    ensures if BootSpawns(b) then BootView(b).proc == b.spawn else BootView(b) == FRESH
  {
  }

  /** What teardown is answered about one service. */
  datatype Stop = Stop(liveness: Liveness, shutdown: Shutdown)

  /** How far a run gets before boot. `EarlyFailure` covers a missing binary, a database that is too
      small, a failed prepare hook and a failed port mint. */
  datatype Startup = EarlyFailure | ControlBindFailed | AgentBindFailed | Launched

  /** The record teardown leaves behind. */
  function Torn(s: Svc, t: Stop): Svc {
    if s.proc.Some? then
      s.(proc := None, status := if t.liveness == HasExited then StExited else StopOutcome(t.shutdown).0)
    else
      s.(status := match s.status case StFailed => StFailed case StStarting => StStopped case _ => StExited)
  }

  /** The fleet teardown leaves behind. */
  function TornAll(views: seq<Svc>, ts: seq<Stop>): seq<Svc>
    requires |views| == |ts|
  {
    seq(|views|, i requires 0 <= i < |views| => Torn(views[i], ts[i]))
  }

  /** A record after teardown: nothing held and a final status. */
  predicate Settled(s: Svc) {
    s.proc.None? && s.status in {StStopped, StExited, StFailed}
  }

  /** Teardown must stop this process, because it is held and not seen to have exited. */
  predicate MustStop(s: Svc, t: Stop) {
    s.proc.Some? && t.liveness != HasExited
  }

  predicate CleanStop(s: Svc, t: Stop) {
    MustStop(s, t) ==> t.shutdown != Unconfirmed
  }

  /** What the final status of a service says about it: failed if the policy gave it up or its stop could
      not be confirmed, stopped if it never started or its stop was confirmed, exited if it was dead when
      teardown reached it. */
  predicate TruthfulStatus(s: Svc, t: Stop, status: Status) {
    && (status == StFailed <==> s.phase == Some(Failed) || (MustStop(s, t) && t.shutdown == Unconfirmed))
    && (status == StStopped <==> s.phase == None || (MustStop(s, t) && t.shutdown != Unconfirmed))
    && (status == StExited <==> (s.phase.Some? && s.phase.value.Backoff?) || (s.proc.Some? && t.liveness == HasExited))
  }

  lemma {:induction false} FinalStatusTellsTheTruth(s: Svc, t: Stop)
    requires s == FRESH || Coherent(s)
    ensures Settled(Torn(s, t)) && TruthfulStatus(s, t, Torn(s, t).status)
  {
  }

  /** Every held process not seen to have exited is confirmed stopped. */
  predicate AllClean(views: seq<Svc>, ts: seq<Stop>)
    requires |views| == |ts|
  {
    forall i :: 0 <= i < |views| ==> CleanStop(views[i], ts[i])
  }

  predicate AllSettled(views: seq<Svc>) {
    forall i :: 0 <= i < |views| ==> Settled(views[i])
  }

  // ---------------------------------------------------------------------------------------------
  // The run as a function of what the outside world answers
  // ---------------------------------------------------------------------------------------------

  /** How many services boot brings up before the first that is not. */
  function Reached(bs: seq<Boot>): (r: nat)
    ensures r <= |bs|
  {
    if bs == [] || BootEnd(bs[0]) != Booted then 0 else 1 + Reached(bs[1..])
  }

  predicate AllUp(bs: seq<Boot>, k: nat)
    requires k <= |bs|
  {
    forall i :: 0 <= i < k ==> BootEnd(bs[i]) == Booted
  }

  /** Boot reaches the first service that is not up, if there is one. */
  lemma {:induction false} ReachedIsFirstNotUp(bs: seq<Boot>, k: nat)
    requires k <= |bs|
    ensures Reached(bs) == k <==> AllUp(bs, k) && (k < |bs| ==> BootEnd(bs[k]) != Booted)
  {
    if bs != [] && k > 0 {
      ReachedIsFirstNotUp(bs[1..], k - 1);
      assert forall i :: 1 <= i < |bs| ==> bs[i] == bs[1..][i - 1];
    }
  }

  function BootOutcome(bs: seq<Boot>): BootResult {
    if Reached(bs) < |bs| then BootEnd(bs[Reached(bs)]) else Booted
  }

  /** The record boot leaves for service `i`: untouched if boot did not get to it. */
  function BootRecord(bs: seq<Boot>, i: nat): Svc
    requires i < |bs|
  {
    if i <= Reached(bs) then BootView(bs[i]) else FRESH
  }

  function BootRecords(bs: seq<Boot>): seq<Svc> {
    seq(|bs|, i requires 0 <= i < |bs| => BootRecord(bs, i))
  }

  /** The fleet once the first `k` services have been through boot. */
  function BootedFleet(bs: seq<Boot>, k: nat): (r: seq<Svc>)
    requires k <= |bs|
    ensures |r| == |bs|
  {
    if k == 0 then seq(|bs|, _ => FRESH) else BootedFleet(bs, k - 1)[k - 1 := BootView(bs[k - 1])]
  }

  lemma {:induction false} BootedFleetAt(bs: seq<Boot>, k: nat, i: nat)
    requires k <= |bs| && i < |bs|
    ensures BootedFleet(bs, k)[i] == if i < k then BootView(bs[i]) else FRESH
  {
    if k > 0 {
      BootedFleetAt(bs, k - 1, i);
    }
  }

  lemma {:induction false} BootEnds(bs: seq<Boot>)
    ensures BootedFleet(bs, Min(Reached(bs) + 1, |bs|)) == BootRecords(bs)
  {
    var k := Min(Reached(bs) + 1, |bs|);
    forall i | 0 <= i < |bs| ensures BootedFleet(bs, k)[i] == BootRecord(bs, i) {
      BootedFleetAt(bs, k, i);
    }
  }

  /** The fleet after one tick of every service. */
  function Ticked(views: seq<Svc>, tick: FleetTick): seq<Svc>
    requires |tick.inputs| == |views|
  {
    seq(|views|, i requires 0 <= i < |views| => Tick(views[i], InputOf(tick, i)))
  }

  /** The first `k` services have had their share of the tick; the others have only their verdicts. */
  predicate Halfway(was: seq<Svc>, now: seq<Svc>, tick: FleetTick, k: nat)
    requires |tick.inputs| == |was|
  {
    |now| == |was| && forall j :: 0 <= j < |was| ==>
      now[j] == if j < k then Tick(was[j], InputOf(tick, j)) else Fold(was[j], LatestAt(tick.latest, j))
  }

  lemma {:induction false} HalfwayEnds(was: seq<Svc>, now: seq<Svc>, tick: FleetTick)
    requires |tick.inputs| == |was| && Halfway(was, now, tick, |was|)
    ensures now == Ticked(was, tick)
  {
  }

  /** A step of the fleet, as a function of its records and the number of the tick. */
  type Stepper = (seq<Svc>, nat) -> seq<Svc>

  function TickOf(ticks: seq<FleetTick>): Stepper {
    (views: seq<Svc>, k: nat) => if k < |ticks| && |ticks[k].inputs| == |views| then Ticked(views, ticks[k]) else views
  }

  function Iterated(step: Stepper, views: seq<Svc>, k: nat): seq<Svc> {
    if k == 0 then views else step(Iterated(step, views, k - 1), k - 1)
  }

  lemma {:induction false} IteratedLength(ticks: seq<FleetTick>, views: seq<Svc>, k: nat)
    ensures |Iterated(TickOf(ticks), views, k)| == |views|
  {
    if k > 0 {
      IteratedLength(ticks, views, k - 1);
    }
  }

  /** The fleet after the first `k` ticks. */
  function StatesAt(views: seq<Svc>, ticks: seq<FleetTick>, k: nat): (r: seq<Svc>)
    ensures |r| == |views|
  {
    IteratedLength(ticks, views, k);
    Iterated(TickOf(ticks), views, k)
  }

  lemma {:induction false} StatesStep(views: seq<Svc>, ticks: seq<FleetTick>, k: nat)
    requires Rectangular(ticks, |views|) && k < |ticks|
    ensures StatesAt(views, ticks, k + 1) == Ticked(StatesAt(views, ticks, k), ticks[k])
  {
  }

  lemma {:induction false} ColumnGrows(ticks: seq<FleetTick>, k: nat, n: nat, i: nat)
    requires Rectangular(ticks, n) && k < |ticks| && i < n
    ensures Column(ticks[..k + 1], n, i) == Column(ticks[..k], n, i) + [InputOf(ticks[k], i)]
  {
  }

  /** Each service goes through its own run, whatever happens to the others. */
  lemma {:induction false} StatesAreRuns(views: seq<Svc>, ticks: seq<FleetTick>, k: nat, i: nat)
    requires Rectangular(ticks, |views|) && k <= |ticks| && i < |views|
    ensures StatesAt(views, ticks, k)[i] == Run(views[i], Column(ticks[..k], |views|, i))
  {
    if k > 0 {
      StatesAreRuns(views, ticks, k - 1, i);
      StatesStep(views, ticks, k - 1);
      ColumnGrows(ticks, k - 1, |views|, i);
    }
  }

  /** How many ticks the monitor makes: up to the first that finds stop set at its top. */
  function TicksRun(ticks: seq<FleetTick>): (n: nat)
    ensures n <= |ticks|
  {
    if ticks == [] || ticks[0].stopAtTop then 0 else 1 + TicksRun(ticks[1..])
  }

  predicate NoStops(ticks: seq<FleetTick>, n: nat)
    requires n <= |ticks|
  {
    forall k :: 0 <= k < n ==> !ticks[k].stopAtTop
  }

  /** The monitor ends at the first tick that finds stop set, if there is one. */
  lemma {:induction false} MonitorEndsAtFirstStop(ticks: seq<FleetTick>, n: nat)
    requires n <= |ticks|
    ensures TicksRun(ticks) == n <==> NoStops(ticks, n) && (n < |ticks| ==> ticks[n].stopAtTop)
  {
    if ticks != [] && n > 0 {
      MonitorEndsAtFirstStop(ticks[1..], n - 1);
      assert forall k :: 1 <= k < |ticks| ==> ticks[k] == ticks[1..][k - 1];
    }
  }

  /** Whether the monitor is entered, and the ticks it then makes. */
  predicate Monitored(bs: seq<Boot>, stopAfterBoot: bool) {
    BootOutcome(bs) == Booted && !stopAfterBoot
  }

  function TicksMade(bs: seq<Boot>, stopAfterBoot: bool, ticks: seq<FleetTick>): (n: nat)
    ensures n <= |ticks|
  {
    if Monitored(bs, stopAfterBoot) then TicksRun(ticks) else 0
  }

  /** The records that teardown starts from. */
  function BeforeTeardown(bs: seq<Boot>, stopAfterBoot: bool, ticks: seq<FleetTick>): (r: seq<Svc>)
    ensures |r| == |bs|
  {
    StatesAt(BootRecords(bs), ticks, TicksMade(bs, stopAfterBoot, ticks))
  }

  /** The fleet is monitored exactly if boot brought every service up and no stop came in. */
  lemma {:induction false} MonitoredIff(bs: seq<Boot>, stopAfterBoot: bool)
    ensures Monitored(bs, stopAfterBoot) <==> AllUp(bs, |bs|) && !stopAfterBoot
  {
    ReachedIsFirstNotUp(bs, Reached(bs));
  }

  /** A fleet's readiness verdicts never reach a restart decision of any of its services. */
  lemma {:induction false} FleetReadinessNeverRestarts(s: Svc, ticks: seq<FleetTick>, ticks': seq<FleetTick>, n: nat, i: nat)
    requires Rectangular(ticks, n) && Rectangular(ticks', n) && i < n && |ticks| == |ticks'|
    requires forall k :: 0 <= k < |ticks| ==> ticks[k].inputs == ticks'[k].inputs
    ensures Blind(Run(s, Column(ticks, n, i))) == Blind(Run(s, Column(ticks', n, i)))
    ensures Attempts(s, Column(ticks, n, i)) == Attempts(s, Column(ticks', n, i))
  {
    ReadinessNeverRestarts(s, s, Column(ticks, n, i), Column(ticks', n, i));
  }

  /** Whatever the answers, teardown starts from records that are untouched or coherent. */
  lemma {:induction false} BeforeTeardownCoherent(bs: seq<Boot>, stopAfterBoot: bool, ticks: seq<FleetTick>, i: nat)
    requires Rectangular(ticks, |bs|) && i < |bs|
    ensures var s := BeforeTeardown(bs, stopAfterBoot, ticks)[i]; s == FRESH || Coherent(s)
  {
    var views, n := BootRecords(bs), TicksMade(bs, stopAfterBoot, ticks);
    BootLeavesCoherent(bs[i]);
    StatesAreRuns(views, ticks, n, i);
    if Monitored(bs, stopAfterBoot) {
      ReachedIsFirstNotUp(bs, Reached(bs));
      assert AllUp(bs, |bs|);
      BootedRecord(bs, i);
      RunKeepsCoherent(views[i], Column(ticks[..n], |bs|, i));
    } else {
      assert StatesAt(views, ticks, 0) == views;
    }
  }

  /** After every run, each service's final status tells the truth about it. */
  lemma {:induction false} FinalStatusOfRun(bs: seq<Boot>, stopAfterBoot: bool, ticks: seq<FleetTick>, ts: seq<Stop>, i: nat)
    requires Rectangular(ticks, |bs|) && |ts| == |bs| && i < |bs|
    ensures var before := BeforeTeardown(bs, stopAfterBoot, ticks);
            TruthfulStatus(before[i], ts[i], TornAll(before, ts)[i].status)
  {
    BeforeTeardownCoherent(bs, stopAfterBoot, ticks, i);
    FinalStatusTellsTheTruth(BeforeTeardown(bs, stopAfterBoot, ticks)[i], ts[i]);
  }

  /** After every run, all stops were clean exactly if no process held at the end is left with a failed status. */
  lemma {:induction false} CleanIffNoneFailed(bs: seq<Boot>, stopAfterBoot: bool, ticks: seq<FleetTick>, ts: seq<Stop>)
    requires Rectangular(ticks, |bs|) && |ts| == |bs|
    ensures var before := BeforeTeardown(bs, stopAfterBoot, ticks);
            AllClean(before, ts) <==>
              forall i :: 0 <= i < |bs| && before[i].proc.Some? ==> TornAll(before, ts)[i].status != StFailed
  {
    var before := BeforeTeardown(bs, stopAfterBoot, ticks);
    forall i | 0 <= i < |bs| && before[i].proc.Some?
      ensures CleanStop(before[i], ts[i]) <==> TornAll(before, ts)[i].status != StFailed
    {
      FinalStatusOfRun(bs, stopAfterBoot, ticks, ts, i);
      BeforeTeardownCoherent(bs, stopAfterBoot, ticks, i);
    }
  }

  lemma {:induction false} BudgetAfter(s: Svc, t0: Instant, es: seq<Input>, u: Svc)
    requires BootedAt(s, t0) && Timed(t0, es) && u == Run(s, es)
    ensures Coherent(u) && u.restarts <= 4 * ((EndOf(t0, es) - t0) / HEALTHY_RESET_AFTER + 1)
  {
    RestartBudget(s, t0, es);
    EveryStateCoherent(s, t0, es);
  }

  lemma {:induction false} BootedRecord(bs: seq<Boot>, i: nat)
    requires i < |bs| && AllUp(bs, |bs|)
    ensures BootRecords(bs)[i] == BootView(bs[i]) && BootedAt(BootView(bs[i]), OpenedAt(bs[i].gates))
  {
    ReachedIsFirstNotUp(bs, |bs|);
    BootLeavesCoherent(bs[i]);
  }

  /** From boot through any number of monitor ticks, every service of the fleet stays coherent and within
      its restart budget, whatever happens to the others. */
  lemma {:induction false} FleetRestartBudget(bs: seq<Boot>, ticks: seq<FleetTick>, k: nat, i: nat)
    requires Rectangular(ticks, |bs|) && k <= |ticks| && i < |bs| && AllUp(bs, |bs|)
    requires Timed(OpenedAt(bs[i].gates), Column(ticks[..k], |bs|, i))
    ensures var t0, es := OpenedAt(bs[i].gates), Column(ticks[..k], |bs|, i);
            var s := StatesAt(BootRecords(bs), ticks, k)[i];
            Coherent(s) && s.restarts <= 4 * ((EndOf(t0, es) - t0) / HEALTHY_RESET_AFTER + 1)
  {
    var t0, es, s := OpenedAt(bs[i].gates), Column(ticks[..k], |bs|, i), BootView(bs[i]);
    StatesAreRuns(BootRecords(bs), ticks, k, i);
    BootedRecord(bs, i);
    BudgetAfter(s, t0, es, StatesAt(BootRecords(bs), ticks, k)[i]);
  }
}
