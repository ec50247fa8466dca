/** What every run of a supervised service decides, told in instants: when it last crashed, when it was last
    spawned, since when it has been up, and how many crashes it has had in a row. */
module RestartDecisions {
  import opened Prelude
  import opened RestartPolicy
  import opened ServiceRun

  /** The instant of the last spawn of a run, or `t0`. */
  function LastSpawn(t0: Instant, s: Svc, es: seq<Input>): Instant {
    if es == [] then t0
    else
      var init, e := es[..|es| - 1], es[|es| - 1];
      if DirectiveOf(Run(s, init), e) == Some(Respawn) && e.spawn.Some? then e.later else LastSpawn(t0, s, init)
  }

  /** Since when the service has been up without a crash, if it has. */
  function UpSince(t0: Instant, s: Svc, es: seq<Input>): Option<Instant> {
    if es == [] then Some(t0)
    else
      var init, e := es[..|es| - 1], es[|es| - 1];
      if CrashAt(Run(s, init), e).Some? then None
      else if Run(s, init).status == StWaitingHealthy && Run(s, es).status == StHealthy then Some(e.now)
      else UpSince(t0, s, init)
  }

  /** How many crashes a run has had since the last one that ended at least sixty seconds up, that one
      included. */
  function InARow(t0: Instant, s: Svc, es: seq<Input>): nat {
    if es == [] then 0
    else
      var init, e := es[..|es| - 1], es[|es| - 1];
      match CrashAt(Run(s, init), e)
      case Some(t) => CountCrash(UpSince(t0, s, init), InARow(t0, s, init), t)
      case None => InARow(t0, s, init)
  }

  function CountCrash(up: Option<Instant>, row: nat, t: Instant): nat {
    if up.Some? && up.value + Seconds(60) <= t then 1 else row + 1
  }

  /** The run tried to kill the process and could not confirm that it is gone. */
  predicate LostKill(s: Svc, es: seq<Input>) {
    es != [] &&
    var init, e := es[..|es| - 1], es[|es| - 1];
    LostKill(s, init) || (Kills(Run(s, init), e) && e.shutdown == Unconfirmed)
  }

  predicate Kills(u: Svc, e: Input) {
    DirectiveOf(u, e).Some? && DirectiveOf(u, e).value.Kill?
  }

  /** The record says what the run's instants say. */
  predicate Told(u: Svc, crash: Instant, spawn: Instant, up: Option<Instant>, row: nat, lost: bool) {
    && Coherent(u)
    && u.history == History(row, up)
    && (u.phase.value.WaitingHealthy? ==> u.phase.value.deadline == spawn + Seconds(30))
    && (u.phase.value.Backoff? ==> row >= 1 && u.phase.value.respawnAt == crash + Seconds(Pow2(row - 1)))
    && (u.phase == Some(Failed) <==> row >= 5 || lost)
  }

  /** What a tick moves the instants of a run to. */
  predicate ToldAfter(u: Svc, e: Input, crash: Instant, spawn: Instant, up: Option<Instant>, row: nat, lost: bool) {
    var c, v := CrashAt(u, e), Tick(u, e);
    Told(v,
         if c.Some? then c.value else crash,
         if DirectiveOf(u, e) == Some(Respawn) && e.spawn.Some? then e.later else spawn,
         if c.Some? then None else if u.status == StWaitingHealthy && v.status == StHealthy then Some(e.now) else up,
         if c.Some? then CountCrash(up, row, c.value) else row,
         lost || (Kills(u, e) && e.shutdown == Unconfirmed))
  }

  lemma {:induction false} CrashIsTold(u: Svc, v: Svc, t: Instant, spawn: Instant, up: Option<Instant>, row: nat, lost: bool)
    requires u.history == History(row, up) && row <= 4
    requires v.history == Crashed(u.history, t) && v.proc == None
    requires v.phase == Some(if lost then Failed else CrashPhase(u.history, t)) && v.status == StatusOf(v.phase.value)
    ensures Told(v, t, spawn, None, CountCrash(up, row, t), lost)
  {
    var f := FailuresAfterCrash(u.history, t);
    BackoffSchedule(f, f);
  }

  lemma {:induction false} BackoffTickIsTold(u: Svc, e: Input, crash: Instant, spawn: Instant, up: Option<Instant>, row: nat, lost: bool)
    requires Told(u, crash, spawn, up, row, lost) && u.phase.value.Backoff?
    ensures ToldAfter(u, e, crash, spawn, up, row, lost)
  {
    if CrashAt(u, e).Some? {
      CrashIsTold(u, Tick(u, e), e.later, spawn, up, row, false);
    }
  }

  lemma {:induction false} UpTickIsTold(u: Svc, e: Input, crash: Instant, spawn: Instant, up: Option<Instant>, row: nat, lost: bool)
    requires Told(u, crash, spawn, up, row, lost) && (u.phase.value.Healthy? || u.phase.value.WaitingHealthy?)
    ensures ToldAfter(u, e, crash, spawn, up, row, lost)
  {
    if CrashAt(u, e).Some? {
      CrashIsTold(u, Tick(u, e), e.now, spawn, up, row, Kills(u, e) && e.shutdown == Unconfirmed);
    }
  }

  lemma {:induction false} TickIsTold(u: Svc, e: Input, crash: Instant, spawn: Instant, up: Option<Instant>, row: nat, lost: bool)
    requires Told(u, crash, spawn, up, row, lost)
    ensures ToldAfter(u, e, crash, spawn, up, row, lost)
  {
    match u.phase.value
    case Failed =>
    case Backoff(_) => BackoffTickIsTold(u, e, crash, spawn, up, row, lost);
    case _ => UpTickIsTold(u, e, crash, spawn, up, row, lost);
  }

  lemma {:induction false} RunIsTold(s: Svc, t0: Instant, es: seq<Input>)
    requires BootedAt(s, t0)
    ensures Told(Run(s, es), LastCrash(t0, s, es), LastSpawn(t0, s, es), UpSince(t0, s, es), InARow(t0, s, es), LostKill(s, es))
  {
    if es != [] {
      var init := es[..|es| - 1];
      RunIsTold(s, t0, init);
      TickIsTold(Run(s, init), es[|es| - 1], LastCrash(t0, s, init), LastSpawn(t0, s, init), UpSince(t0, s, init),
                 InARow(t0, s, init), LostKill(s, init));
    }
  }

  /** The backoff is over: one, two, four or eight seconds have passed since the last crash, by the crashes in a
      row. */
  predicate BackoffOver(now: Instant, crash: Instant, row: nat) {
    row >= 1 && now >= crash + Seconds(Pow2(row - 1))
  }

  /** What the answers of a tick decide about a service that last crashed and was last spawned at these instants. */
  predicate Decides(u: Svc, e: Input, crash: Instant, spawn: Instant, row: nat) {
    var over := u.status == StBackoff && !e.stop && BackoffOver(e.now, crash, row);
    var hung := u.status == StWaitingHealthy && e.liveness == StillRunning && !e.probeReady && e.now >= spawn + Seconds(30);
    && (DirectiveOf(u, e) == Some(Respawn) <==> over)
    && (Kills(u, e) <==> hung)
    && CrashAt(u, e) ==
         (if over && e.spawn.None? then Some(e.later)
          else if (u.proc.Some? && e.liveness != StillRunning) || hung then Some(e.now)
          else None)
  }

  lemma {:induction false} BackoffDecides(u: Svc, e: Input, crash: Instant, spawn: Instant, up: Option<Instant>, row: nat, lost: bool)
    requires Told(u, crash, spawn, up, row, lost) && u.phase.value.Backoff?
    ensures Decides(u, e, crash, spawn, row)
  {
  }

  lemma {:induction false} OtherDecides(u: Svc, e: Input, crash: Instant, spawn: Instant, up: Option<Instant>, row: nat, lost: bool)
    requires Told(u, crash, spawn, up, row, lost) && !u.phase.value.Backoff?
    ensures Decides(u, e, crash, spawn, row)
  {
  }

  /** What a service is told to do, whatever has happened to it since boot and whatever its clock did: it is
      respawned exactly when its backoff is over and no stop is set; it is killed exactly when it runs, is not
      ready, and was spawned at least thirty seconds ago; a crash is recorded exactly when its process is not
      seen running, when it is killed, or when a respawn fails. */
  lemma {:induction false} EveryDecision(s: Svc, t0: Instant, es: seq<Input>, e: Input)
    requires BootedAt(s, t0)
    ensures Decides(Run(s, es), e, LastCrash(t0, s, es), LastSpawn(t0, s, es), InARow(t0, s, es))
  {
    RunIsTold(s, t0, es);
    var u, crash, spawn := Run(s, es), LastCrash(t0, s, es), LastSpawn(t0, s, es);
    if u.phase.value.Backoff? {
      BackoffDecides(u, e, crash, spawn, UpSince(t0, s, es), InARow(t0, s, es), LostKill(s, es));
    } else {
      OtherDecides(u, e, crash, spawn, UpSince(t0, s, es), InARow(t0, s, es), LostKill(s, es));
    }
  }

  /** What a tick makes of a service that was spawned at `spawn`. */
  predicate Becomes(u: Svc, v: Svc, e: Input, spawn: Instant) {
    var spawned := DirectiveOf(u, e) == Some(Respawn) && e.spawn.Some?;
    && (v.status == StHealthy <==>
          (u.status == StHealthy || (u.status == StWaitingHealthy && e.probeReady)) && e.liveness == StillRunning)
    && (v.status == StWaitingHealthy <==>
          || spawned
          || (u.status == StWaitingHealthy && e.liveness == StillRunning && !e.probeReady && e.now < spawn + Seconds(30)))
    && v.status in {StHealthy, StWaitingHealthy, StBackoff, StFailed}
    && v.proc == (if spawned then e.spawn else if v.status in {StHealthy, StWaitingHealthy} then u.proc else None)
    && v.restarts == u.restarts + if spawned then 1 else 0
  }

  lemma {:induction false} DownTickBecomes(u: Svc, e: Input, spawn: Instant)
    requires Coherent(u) && (u.phase.value.Backoff? || u.phase.value.Failed?)
    ensures Becomes(u, Tick(u, e), e, spawn)
  {
  }

  lemma {:induction false} HealthyTickBecomes(u: Svc, e: Input, spawn: Instant)
    requires Coherent(u) && u.phase.value.Healthy?
    ensures Becomes(u, Tick(u, e), e, spawn)
  {
  }

  lemma {:induction false} WaitingTickBecomes(u: Svc, e: Input, spawn: Instant)
    requires Coherent(u) && u.phase.value == WaitingHealthy(spawn + Seconds(30))
    ensures Becomes(u, Tick(u, e), e, spawn)
  {
  }

  lemma {:induction false} TickBecomes(u: Svc, e: Input, spawn: Instant)
    requires Coherent(u) && (u.phase.value.WaitingHealthy? ==> u.phase.value.deadline == spawn + Seconds(30))
    ensures Becomes(u, Tick(u, e), e, spawn)
  {
    match u.phase.value
    case Healthy(_) => HealthyTickBecomes(u, e, spawn);
    case WaitingHealthy(_) => WaitingTickBecomes(u, e, spawn);
    case _ => DownTickBecomes(u, e, spawn);
  }

  /** What becomes of a service: it is up exactly when it runs and was up or is ready; it is coming up exactly
      when it was just spawned, or runs, is not ready and has time left; it is given up exactly after five
      crashes in a row or a kill that could not be confirmed; and it holds the process it was spawned with as
      long as it is up or coming up. */
  lemma {:induction false} EveryOutcome(s: Svc, t0: Instant, es: seq<Input>, e: Input)
    requires BootedAt(s, t0)
    ensures Becomes(Run(s, es), Run(s, es + [e]), e, LastSpawn(t0, s, es))
    ensures Run(s, es).status == StFailed <==> InARow(t0, s, es) >= 5 || LostKill(s, es)
  {
    assert (es + [e])[..|es|] == es;
    RunIsTold(s, t0, es);
    TickBecomes(Run(s, es), e, LastSpawn(t0, s, es));
  }

  /** How often a run lets go of the process it holds. */
  function Drops(s: Svc, es: seq<Input>): nat {
    if es == [] then 0
    else
      var before, after := Run(s, es[..|es| - 1]), Run(s, es);
      Drops(s, es[..|es| - 1]) + if before.proc.Some? && after.proc.None? then 1 else 0
  }

  function Held(s: Svc): nat {
    if s.proc.Some? then 1 else 0
  }

  /** No process is forgotten or counted twice: what was held at first and what was spawned since has been let go
      of or is held. */
  lemma {:induction false} ProcessesAreConserved(s: Svc, es: seq<Input>)
    requires s == FRESH || Coherent(s)
    ensures Held(s) + Run(s, es).restarts - s.restarts == Drops(s, es) + Held(Run(s, es))
    ensures if s == FRESH then Run(s, es).phase.None? else Coherent(Run(s, es))
  {
    if es != [] {
      var init := es[..|es| - 1];
      ProcessesAreConserved(s, init);
      if s != FRESH {
        TickKeepsCoherent(Run(s, init), es[|es| - 1]);
      }
    }
  }

  /** Some input carries a verdict, and none after it does. */
  predicate LastVerdict(es: seq<Input>, k: nat) {
    k < |es| && es[k].latest.Some? && forall j :: k < j < |es| ==> es[j].latest.None?
  }

  /** A service shows the newest verdict about it. */
  lemma {:induction false} NewestVerdictShows(s: Svc, es: seq<Input>, k: nat)
    requires LastVerdict(es, k)
    ensures Run(s, es).readiness == es[k].latest.value
  {
    var n := |es| - 1;
    if k < n {
      NewestVerdictShows(s, es[..n], k);
    }
  }

  /** Without a verdict it shows what it showed at first. */
  lemma {:induction false} NoVerdictNoChange(s: Svc, es: seq<Input>)
    requires forall k :: 0 <= k < |es| ==> es[k].latest.None?
    ensures Run(s, es).readiness == s.readiness
  {
    if es != [] {
      NoVerdictNoChange(s, es[..|es| - 1]);
    }
  }
}
