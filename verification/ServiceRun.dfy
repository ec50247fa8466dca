/** One supervised service under the monitor: what a tick does to its record, and what every run of
    ticks keeps, for arbitrary liveness, probe, spawn, shutdown, stop and clock inputs. */
module ServiceRun {
  import opened Prelude
  import opened RestartPolicy

  type Pid = nat

  datatype Readiness = Unknown | ReadyNow | Degraded | Unreachable

  /** A supervised service's record. `phase` is `None` until boot spawns it. */
  datatype Svc = Svc(
    phase: Option<Phase>,
    proc: Option<Pid>,
    history: History,
    status: Status,
    restarts: nat,
    readiness: Readiness)

  const FRESH := Svc(None, None, History(0, None), StStarting, 0, Unknown)

  /** The answer of a non-blocking liveness query. */
  datatype Liveness = StillRunning | HasExited | QueryFailed

  /** Everything the outside world answers during one service's share of one monitor tick.
      `now` is read before the observation and `later` after the spawn work. */
  datatype Input = Input(
    now: Instant,
    later: Instant,
    latest: Option<Readiness>,
    liveness: Liveness,
    probeReady: bool,
    stop: bool,
    spawn: Option<Pid>,
    shutdown: Shutdown)

  /** Liveness wins over the probe, and only a service that is still coming up is probed. */
  function Observe(proc: Option<Pid>, phase: Phase, e: Input): Observed {
    var liveness := if proc.Some? && e.liveness == StillRunning then Alive else Exited;
    if phase.WaitingHealthy? && liveness == Alive then (if e.probeReady then Ready else NotReady)
    else liveness
  }

  function Apply(s: Svc, phase: Phase, d: Directive, e: Input): Svc {
    match d
    case Stay(p) =>
      if p == phase then s
      else s.(proc := if p.Backoff? || p.Failed? then None else s.proc,
              phase := Some(p), status := StatusOf(p))
    case Respawn =>
      if e.spawn.Some? then
        s.(proc := e.spawn, restarts := s.restarts + 1,
           phase := Some(WaitingHealthy(e.later + HEALTH_DEADLINE)), status := StWaitingHealthy)
      else
        var p := CrashPhase(s.history, e.later);
        s.(history := Crashed(s.history, e.later), phase := Some(p), status := StatusOf(p))
    case Kill(p) =>
      var p' := if s.proc.Some? then PhaseAfterKill(e.shutdown, p) else p;
      s.(proc := None, phase := Some(p'), status := StatusOf(p'))
  }

  function Fold(s: Svc, latest: Option<Readiness>): Svc {
    if latest.Some? then s.(readiness := latest.value) else s
  }

  /** The directive a service's share of a tick executes; `None` for a service never started. */
  function DirectiveOf(s: Svc, e: Input): Option<Directive> {
    if s.phase.None? then None
    else Some(Step(s.phase.value, Observe(s.proc, s.phase.value, e), e.stop, e.now, s.history).directive)
  }

  /** A service's share of a tick, once readiness is folded in. */
  function Share(s: Svc, e: Input): Svc {
    if s.phase.None? then s
    else
      var phase := s.phase.value;
      var out := Step(phase, Observe(s.proc, phase, e), e.stop, e.now, s.history);
      Apply(s.(history := out.history), phase, out.directive, e)
  }

  function Tick(s: Svc, e: Input): Svc {
    Share(Fold(s, e.latest), e)
  }

  function Run(s: Svc, es: seq<Input>): Svc {
    if es == [] then s else Tick(Run(s, es[..|es| - 1]), es[|es| - 1])
  }

  /** The clock never runs backwards over a run that starts at `t0`. */
  predicate Timed(t0: Instant, es: seq<Input>) {
    && (forall i :: 0 <= i < |es| ==> t0 <= es[i].now <= es[i].later)
    && (forall i, j :: 0 <= i < j < |es| ==> es[i].later <= es[j].now)
  }

  function EndOf(t0: Instant, es: seq<Input>): Instant {
    if es == [] then t0 else es[|es| - 1].later
  }

  // ---------------------------------------------------------------------------------------------
  // Restart budget
  // ---------------------------------------------------------------------------------------------

  /** When this tick records a crash, the instant it is recorded at. */
  function CrashAt(s: Svc, e: Input): Option<Instant> {
    match DirectiveOf(s, e)
    case Some(Stay(p)) => if (p.Backoff? || p.Failed?) && Some(p) != s.phase then Some(e.now) else None
    case Some(Respawn) => if e.spawn.None? then Some(e.later) else None
    case Some(Kill(_)) => Some(e.now)
    case None => None
  }

  /** Respawn attempts over a run, successful or not. */
  function Attempts(s: Svc, es: seq<Input>): nat {
    if es == [] then 0
    else
      var init, e := es[..|es| - 1], es[|es| - 1];
      Attempts(s, init) + if DirectiveOf(Run(s, init), e) == Some(Respawn) then 1 else 0
  }

  /** Crashes over a run that ended at least a minute of continuous health. */
  function Resets(s: Svc, es: seq<Input>): nat {
    if es == [] then 0
    else
      var init, e := es[..|es| - 1], es[|es| - 1];
      var before := Run(s, init);
      Resets(s, init) +
      match CrashAt(before, e)
      case Some(t) => if EarnedReset(before.history, t) then 1 else 0
      case None => 0
  }

  /** The instant of the last crash a run records, or `t0`. */
  function LastCrash(t0: Instant, s: Svc, es: seq<Input>): Instant {
    if es == [] then t0
    else
      var init, e := es[..|es| - 1], es[|es| - 1];
      match CrashAt(Run(s, init), e)
      case Some(t) => t
      case None => LastCrash(t0, s, init)
  }

  /** A service as boot hands it to the monitor: up since `t0`, never failed. */
  predicate BootedAt(s: Svc, t0: Instant) {
    && s.phase == Some(Healthy(t0))
    && s.proc.Some?
    && s.history == History(0, Some(t0))
    && s.status == StHealthy
    && s.restarts == 0
  }

  /** Phase, history, process handle and status fit together. */
  predicate Coherent(s: Svc) {
    s.phase.Some? &&
    var p, h := s.phase.value, s.history;
    && s.status == StatusOf(p)
    && (s.proc.Some? <==> p.WaitingHealthy? || p.Healthy?)
    && h.healthySince == (if p.Healthy? then Some(p.healthySince) else None)
    && (p.WaitingHealthy? || p.Healthy? ==> h.consecutiveFailures <= 4)
    && (p.Backoff? ==> 1 <= h.consecutiveFailures <= 4)
    && (p.Failed? ==> 1 <= h.consecutiveFailures <= 5)
  }

  /** What every reachable state keeps, `t` being the present and `t0` the moment the service first
      turned healthy. `a`, `r` and `c` are the attempts, the resets and the last crash so far. */
  predicate Inv(s: Svc, t0: Instant, t: Instant, a: nat, r: nat, c: Instant) {
    && Coherent(s)
    && t0 <= t
    && var p, f := s.phase.value, s.history.consecutiveFailures;
    && (p.Healthy? ==> p.healthySince <= t && t0 + Seconds(60 * r) <= p.healthySince)
    && t0 + Seconds(60 * r) <= t
    && (p.Backoff? ==> c <= t && p.respawnAt == c + BackoffDelay(f))
    && (if p.Backoff? || p.Failed? then a + 1 <= 4 * r + f else a <= 4 * r + f)
    && s.restarts <= a
  }

  /** The counters one tick moves a run's `a`, `r` and `c` to. */
  predicate InvAfter(s: Svc, e: Input, t0: Instant, a: nat, r: nat, c: Instant) {
    var crash := CrashAt(s, e);
    Inv(Tick(s, e), t0, e.later,
        a + (if DirectiveOf(s, e) == Some(Respawn) then 1 else 0),
        r + (if crash.Some? && EarnedReset(s.history, crash.value) then 1 else 0),
        if crash.Some? then crash.value else c)
  }

  /** A crash recorded at `c'` from a state whose attempts fit, landing in the phase the policy picks
      or, after an unconfirmed kill, in `Failed`. */
  lemma {:induction false} CrashKeepsInv(s: Svc, s': Svc, t0: Instant, t: Instant, a: nat, r: nat, c: Instant, c': Instant, t': Instant)
    requires s.phase.Some? && t <= c' <= t' && t0 <= t
    requires s.history.consecutiveFailures <= 4 && a <= 4 * r + s.history.consecutiveFailures
    requires s.history.healthySince.Some? ==>
               s.history.healthySince.value <= t && t0 + Seconds(60 * r) <= s.history.healthySince.value
    requires t0 + Seconds(60 * r) <= t && s.restarts <= a
    requires s'.history == Crashed(s.history, c') && s'.restarts == s.restarts && s'.proc == None
    requires s'.phase == Some(CrashPhase(s.history, c')) || s'.phase == Some(Failed)
    requires s'.status == StatusOf(s'.phase.value)
    ensures Inv(s', t0, t', a, r + (if EarnedReset(s.history, c') then 1 else 0), c')
  {
  }

  lemma {:induction false} HealthyTickKeepsInv(s: Svc, e: Input, t0: Instant, t: Instant, a: nat, r: nat, c: Instant)
    requires Inv(s, t0, t, a, r, c) && s.phase.value.Healthy?
    requires t <= e.now <= e.later
    ensures InvAfter(s, e, t0, a, r, c)
  {
    if Observe(s.proc, s.phase.value, e) == Exited {
      CrashKeepsInv(s, Tick(s, e), t0, t, a, r, c, e.now, e.later);
    }
  }

  lemma {:induction false} WaitingTickKeepsInv(s: Svc, e: Input, t0: Instant, t: Instant, a: nat, r: nat, c: Instant)
    requires Inv(s, t0, t, a, r, c) && s.phase.value.WaitingHealthy?
    requires t <= e.now <= e.later
    ensures InvAfter(s, e, t0, a, r, c)
  {
    if CrashAt(s, e).Some? {
      CrashKeepsInv(s, Tick(s, e), t0, t, a, r, c, e.now, e.later);
    }
  }

  lemma {:induction false} BackoffTickKeepsInv(s: Svc, e: Input, t0: Instant, t: Instant, a: nat, r: nat, c: Instant)
    requires Inv(s, t0, t, a, r, c) && s.phase.value.Backoff?
    requires t <= e.now <= e.later
    ensures InvAfter(s, e, t0, a, r, c)
  {
    if CrashAt(s, e).Some? {
      CrashKeepsInv(s, Tick(s, e), t0, t, a + 1, r, c, e.later, e.later);
    }
  }

  lemma {:induction false} TickKeepsInv(s: Svc, e: Input, t0: Instant, t: Instant, a: nat, r: nat, c: Instant)
    requires Inv(s, t0, t, a, r, c)
    requires t <= e.now <= e.later
    ensures InvAfter(s, e, t0, a, r, c)
  {
    match s.phase.value
    case Healthy(_) => HealthyTickKeepsInv(s, e, t0, t, a, r, c);
    case WaitingHealthy(_) => WaitingTickKeepsInv(s, e, t0, t, a, r, c);
    case Backoff(_) => BackoffTickKeepsInv(s, e, t0, t, a, r, c);
    case Failed =>
  }

  lemma {:induction false} TimedInit(t0: Instant, es: seq<Input>)
    requires Timed(t0, es) && es != []
    ensures Timed(t0, es[..|es| - 1])
    ensures EndOf(t0, es[..|es| - 1]) <= es[|es| - 1].now <= es[|es| - 1].later
  {
    var init := es[..|es| - 1];
    assert forall i :: 0 <= i < |init| ==> init[i] == es[i];
  }

  lemma {:induction false} LastTickKeepsInv(s: Svc, t0: Instant, es: seq<Input>, t: Instant)
    requires es != [] && t <= es[|es| - 1].now <= es[|es| - 1].later
    requires var init := es[..|es| - 1];
             Inv(Run(s, init), t0, t, Attempts(s, init), Resets(s, init), LastCrash(t0, s, init))
    ensures Inv(Run(s, es), t0, es[|es| - 1].later, Attempts(s, es), Resets(s, es), LastCrash(t0, s, es))
  {
    var init, e := es[..|es| - 1], es[|es| - 1];
    TickKeepsInv(Run(s, init), e, t0, t, Attempts(s, init), Resets(s, init), LastCrash(t0, s, init));
  }

  lemma {:induction false} RunKeepsInv(s: Svc, t0: Instant, es: seq<Input>)
    requires BootedAt(s, t0) && Timed(t0, es)
    ensures Inv(Run(s, es), t0, EndOf(t0, es), Attempts(s, es), Resets(s, es), LastCrash(t0, s, es))
  {
    if es != [] {
      TimedInit(t0, es);
      RunKeepsInv(s, t0, es[..|es| - 1]);
      LastTickKeepsInv(s, t0, es, EndOf(t0, es[..|es| - 1]));
    }
  }

  /** `a` respawn attempts, of which `n` succeeded, are within the budget of `r` resets and of the time passed. */
  predicate WithinBudget(n: nat, t0: Instant, t: Instant, a: nat, r: nat) {
    && t0 <= t && n <= a <= 4 * (r + 1) && (r == 0 ==> n <= 4)
    && a <= 4 * ((t - t0) / HEALTHY_RESET_AFTER + 1)
  }

  lemma {:induction false} InvBounds(s: Svc, t0: Instant, t: Instant, a: nat, r: nat, c: Instant)
    requires Inv(s, t0, t, a, r, c)
    ensures WithinBudget(s.restarts, t0, t, a, r)
    ensures s.phase.value.Backoff? ==> BackoffIsDoubling(s, c)
  {
    var f := s.history.consecutiveFailures;
    BackoffSchedule(f, f);
    Pow2Small();
    assert r <= (t - t0) / HEALTHY_RESET_AFTER;
  }

  /** The wait since the crash at `c` is one, two, four or eight seconds, by the failure count. */
  predicate BackoffIsDoubling(s: Svc, c: Instant) {
    s.phase.Some? && s.phase.value.Backoff? && s.history.consecutiveFailures >= 1 &&
    var wait := s.phase.value.respawnAt - c;
    && wait == Seconds(Pow2(s.history.consecutiveFailures - 1))
    && wait in {Seconds(1), Seconds(2), Seconds(4), Seconds(8)}
    && wait < Seconds(BACKOFF_CAP_SECONDS)
  }

  /** Restart budget: at most four respawn attempts for each crash that ended a healthy minute, plus
      four; and since those minutes are disjoint, at most four per elapsed minute, plus four. */
  lemma {:induction false} RestartBudget(s: Svc, t0: Instant, es: seq<Input>)
    requires BootedAt(s, t0) && Timed(t0, es)
    ensures WithinBudget(Run(s, es).restarts, t0, EndOf(t0, es), Attempts(s, es), Resets(s, es))
  {
    RunKeepsInv(s, t0, es);
    InvBounds(Run(s, es), t0, EndOf(t0, es), Attempts(s, es), Resets(s, es), LastCrash(t0, s, es));
  }

  /** Phase, history, process handle and status fit together in every reachable state, and a backoff
      lasts exactly one, two, four or eight seconds from the crash that caused it: the thirty-second
      cap is never reached. */
  lemma {:induction false} EveryStateCoherent(s: Svc, t0: Instant, es: seq<Input>)
    requires BootedAt(s, t0) && Timed(t0, es)
    ensures Coherent(Run(s, es))
    ensures Run(s, es).phase.value.Backoff? ==> BackoffIsDoubling(Run(s, es), LastCrash(t0, s, es))
  {
    RunKeepsInv(s, t0, es);
    InvBounds(Run(s, es), t0, EndOf(t0, es), Attempts(s, es), Resets(s, es), LastCrash(t0, s, es));
  }

  lemma {:induction false} TickKeepsCoherent(s: Svc, e: Input)
    requires Coherent(s)
    ensures Coherent(Tick(s, e))
  {
  }

  lemma {:induction false} RunKeepsCoherent(s: Svc, es: seq<Input>)
    requires Coherent(s)
    ensures Coherent(Run(s, es))
  {
    if es != [] {
      RunKeepsCoherent(s, es[..|es| - 1]);
      TickKeepsCoherent(Run(s, es[..|es| - 1]), es[|es| - 1]);
    }
  }

  lemma {:induction false} RunConcat(s: Svc, es: seq<Input>, fs: seq<Input>)
    ensures Run(s, es + fs) == Run(Run(s, es), fs)
    ensures Attempts(s, es + fs) == Attempts(s, es) + Attempts(Run(s, es), fs)
    ensures Resets(s, es + fs) == Resets(s, es) + Resets(Run(s, es), fs)
  {
    if fs == [] {
      assert es + fs == es;
    } else {
      RunConcat(s, es, fs[..|fs| - 1]);
      assert (es + fs)[..|es + fs| - 1] == es + fs[..|fs| - 1];
    }
  }

  lemma {:induction false} FailedStays(s: Svc, fs: seq<Input>)
    requires s.phase == Some(Failed)
    ensures Run(s, fs).(readiness := s.readiness) == s
    ensures Attempts(s, fs) == 0
  {
    if fs != [] {
      FailedStays(s, fs[..|fs| - 1]);
    }
  }

  /** Giving up is final: whatever follows, the record changes in nothing but readiness and no
      respawn is attempted. */
  lemma {:induction false} FailedIsAbsorbing(s: Svc, es: seq<Input>, fs: seq<Input>)
    requires Run(s, es).phase == Some(Failed)
    ensures Run(s, es + fs).(readiness := Run(s, es).readiness) == Run(s, es)
    ensures Attempts(s, es + fs) == Attempts(s, es)
  {
    RunConcat(s, es, fs);
    FailedStays(Run(s, es), fs);
  }

  // The budget is attained: a run that crashes again as soon as it is up, except that every fourth
  // time it first stays up for a minute.

  /** When a service that is up since `up`, after `k` crashes of that run, crashes again. */
  function CrashTime(up: Instant, k: nat): Instant {
    up + if k > 0 && k % 4 == 0 then HEALTHY_RESET_AFTER else 0
  }

  function CrashAndComeBack(t: Instant): seq<Input> {
    var back := Input(t + Seconds(8), t + Seconds(8), None, StillRunning, true, false, Some(0), Graceful);
    [back.(now := t, later := t, liveness := HasExited), back, back]
  }

  lemma {:induction false} OneRelapse(s: Svc, t: Instant)
    requires s.phase.Some? && s.phase.value.Healthy? && s.proc.Some?
    requires s.history.healthySince == Some(s.phase.value.healthySince)
    requires FailuresAfterCrash(s.history, t) <= 4
    ensures var u := Run(s, CrashAndComeBack(t));
            && u.phase == Some(Healthy(t + Seconds(8))) && u.proc.Some?
            && u.history == History(FailuresAfterCrash(s.history, t), Some(t + Seconds(8)))
    ensures Attempts(s, CrashAndComeBack(t)) == 1
    ensures Resets(s, CrashAndComeBack(t)) == if EarnedReset(s.history, t) then 1 else 0
  {
    var f := FailuresAfterCrash(s.history, t);
    BackoffSchedule(f, 4);
    Pow2Small();
    var es := CrashAndComeBack(t);
    var s1 := Tick(s, es[0]);
    var s2 := Tick(s1, es[1]);
    assert es[..1] == [es[0]] && es[..2] == [es[0], es[1]] && es[..2][..1] == [es[0]];
    assert es[..1][..0] == [];
    assert Run(s, es[..1]) == s1;
    assert Run(s, es[..2]) == s2;
    assert DirectiveOf(s1, es[1]) == Some(Respawn);
    assert es[..3] == es;
    assert Attempts(s, es[..1]) == 0;
    assert Attempts(s, es[..2]) == 1;
    assert Resets(s, es[..2]) == Resets(s, es[..1]);
  }

  /** The service after `k` crashes of that run, up since `up`. */
  predicate Relapsed(s: Svc, up: Instant, k: nat) {
    && s.phase == Some(Healthy(up)) && s.proc.Some?
    && s.history == History(if k == 0 then 0 else (k - 1) % 4 + 1, Some(up))
  }

  /** How many of the first `k` crashes came after a minute up. */
  function LongStays(k: nat): nat {
    if k == 0 then 0 else (k - 1) / 4
  }

  lemma {:induction false} RelapsedCounts(h: History, up: Instant, k: nat)
    requires h == History(if k == 0 then 0 else (k - 1) % 4 + 1, Some(up))
    ensures EarnedReset(h, CrashTime(up, k)) <==> LongStays(k + 1) == LongStays(k) + 1
    ensures !EarnedReset(h, CrashTime(up, k)) <==> LongStays(k + 1) == LongStays(k)
    ensures FailuresAfterCrash(h, CrashTime(up, k)) == k % 4 + 1
  {
  }

  lemma {:induction false} NextRelapse(s: Svc, up: Instant, k: nat)
    requires Relapsed(s, up, k)
    ensures var t := CrashTime(up, k);
            && Relapsed(Run(s, CrashAndComeBack(t)), t + Seconds(8), k + 1)
            && Attempts(s, CrashAndComeBack(t)) == 1
            && Resets(s, CrashAndComeBack(t)) == LongStays(k + 1) - LongStays(k)
  {
    RelapsedCounts(s.history, up, k);
    OneRelapse(s, CrashTime(up, k));
  }

  lemma {:induction false} CrashAndComeBackTimed(t0: Instant, t: Instant)
    requires t0 <= t
    ensures Timed(t0, CrashAndComeBack(t)) && EndOf(t0, CrashAndComeBack(t)) == t + Seconds(8)
  {
  }

  lemma {:induction false} Appended(s: Svc, t0: Instant, es: seq<Input>, more: seq<Input>)
    requires Timed(t0, es) && Timed(EndOf(t0, es), more)
    ensures Timed(t0, es + more) && EndOf(t0, es + more) == EndOf(EndOf(t0, es), more)
    ensures Run(s, es + more) == Run(Run(s, es), more)
    ensures Attempts(s, es + more) == Attempts(s, es) + Attempts(Run(s, es), more)
    ensures Resets(s, es + more) == Resets(s, es) + Resets(Run(s, es), more)
  {
    RunConcat(s, es, more);
    TimedConcat(t0, es, more);
  }

  lemma {:induction false} OneMoreRelapse(s: Svc, t0: Instant, es: seq<Input>, k: nat) returns (fs: seq<Input>)
    requires Timed(t0, es) && Relapsed(Run(s, es), EndOf(t0, es), k)
    ensures Timed(t0, fs) && Relapsed(Run(s, fs), EndOf(t0, fs), k + 1)
    ensures Attempts(s, fs) == Attempts(s, es) + 1
    ensures Resets(s, fs) == Resets(s, es) + LongStays(k + 1) - LongStays(k)
  {
    var t := CrashTime(EndOf(t0, es), k);
    NextRelapse(Run(s, es), EndOf(t0, es), k);
    CrashAndComeBackTimed(EndOf(t0, es), t);
    Appended(s, t0, es, CrashAndComeBack(t));
    fs := es + CrashAndComeBack(t);
  }

  lemma {:induction false} RelapsingRun(s: Svc, t0: Instant, k: nat) returns (es: seq<Input>)
    requires BootedAt(s, t0)
    ensures Timed(t0, es) && Relapsed(Run(s, es), EndOf(t0, es), k)
    ensures Attempts(s, es) == k && Resets(s, es) == LongStays(k)
  {
    if k == 0 {
      es := [];
    } else {
      es := RelapsingRun(s, t0, k - 1);
      es := OneMoreRelapse(s, t0, es, k - 1);
    }
  }

  /** The budget is exact: for every `r` there is a run with `r` resets and `4 * (r + 1)` respawns. */
  lemma {:induction false} BudgetIsAttained(s: Svc, t0: Instant, r: nat)
    requires BootedAt(s, t0)
    ensures exists es :: Timed(t0, es) && Resets(s, es) == r && Attempts(s, es) == 4 * (r + 1)
  {
    var es := RelapsingRun(s, t0, 4 * (r + 1));
  }

  lemma {:induction false} TimedConcat(t0: Instant, es: seq<Input>, fs: seq<Input>)
    requires Timed(t0, es) && Timed(EndOf(t0, es), fs)
    ensures Timed(t0, es + fs)
  {
    forall i, j | 0 <= i < j < |es + fs| ensures (es + fs)[i].later <= (es + fs)[j].now {
      if i < |es| <= j && i < |es| - 1 {
        assert es[i].later <= es[|es| - 1].now;
      }
    }
  }

  // ---------------------------------------------------------------------------------------------
  // Readiness non-interference
  // ---------------------------------------------------------------------------------------------

  function Blind(s: Svc): Svc {
    s.(readiness := Unknown)
  }

  /** The same outside world apart from the readiness verdicts folded in. */
  predicate SameButReadiness(es: seq<Input>, fs: seq<Input>) {
    |es| == |fs| && forall i :: 0 <= i < |es| ==> es[i].(latest := None) == fs[i].(latest := None)
  }

  lemma {:induction false} ApplyIsBlind(s: Svc, s': Svc, phase: Phase, d: Directive, e: Input, v: Option<Readiness>)
    requires Blind(s) == Blind(s')
    ensures Blind(Apply(s, phase, d, e)) == Blind(Apply(s', phase, d, e.(latest := v)))
  {
  }

  lemma {:induction false} TickIsBlind(s: Svc, s': Svc, e: Input, v: Option<Readiness>)
    requires Blind(s) == Blind(s')
    ensures DirectiveOf(s, e) == DirectiveOf(s', e.(latest := v))
    ensures Blind(Tick(s, e)) == Blind(Tick(s', e.(latest := v)))
  {
    if s.phase.Some? {
      var phase := s.phase.value;
      var out := Step(phase, Observe(s.proc, phase, e), e.stop, e.now, s.history);
      var t, t' := Fold(s, e.latest).(history := out.history), Fold(s', v).(history := out.history);
      ApplyIsBlind(t, t', phase, out.directive, e, v);
    }
  }

  /** Readiness verdicts never reach a restart decision: two runs that differ only in them agree on
      phase, history, process, status, restart count, respawn attempts and every next directive. */
  lemma {:induction false} ReadinessNeverRestarts(s: Svc, s': Svc, es: seq<Input>, fs: seq<Input>)
    requires Blind(s) == Blind(s') && SameButReadiness(es, fs)
    ensures Blind(Run(s, es)) == Blind(Run(s', fs))
    ensures Attempts(s, es) == Attempts(s', fs)
    ensures forall e, v :: DirectiveOf(Run(s, es), e) == DirectiveOf(Run(s', fs), e.(latest := v))
  {
    if es != [] {
      var n := |es| - 1;
      ReadinessNeverRestarts(s, s', es[..n], fs[..n]);
      assert fs[n] == es[n].(latest := fs[n].latest);
      TickIsBlind(Run(s, es[..n]), Run(s', fs[..n]), es[n], fs[n].latest);
    }
    forall e, v {
      TickIsBlind(Run(s, es), Run(s', fs), e, v);
    }
  }
}
