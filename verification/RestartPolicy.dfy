/** The restart policy of the supervisor: crash history, exponential backoff, give-up,
    and the per-service transition over an injected clock. */
module RestartPolicy {
  import opened Prelude

  /** A reading of the monotonic clock, in nanoseconds. */
  type Instant = nat

  function Seconds(n: nat): nat {
    n * 1_000_000_000
  }

  const HEALTH_DEADLINE: nat := Seconds(30)
  const MAX_CONSECUTIVE_FAILURES: nat := 5
  const HEALTHY_RESET_AFTER: nat := Seconds(60)
  const BACKOFF_CAP_SECONDS: nat := 30

  datatype History = History(consecutiveFailures: nat, healthySince: Option<Instant>)

  datatype Phase =
    | WaitingHealthy(deadline: Instant)
    | Healthy(healthySince: Instant)
    | Backoff(respawnAt: Instant)
    | Failed

  datatype Observed = Alive | Exited | Ready | NotReady

  datatype Directive = Stay(phase: Phase) | Respawn | Kill(phase: Phase)

  datatype Decision = RespawnAt(at: Instant) | GiveUp

  /** How a shutdown of an owned process ended. `Unconfirmed` is the error case: force could not
      confirm the exit. */
  datatype Shutdown = Graceful | Forced | Unconfirmed

  datatype Status =
    | StStarting | StWaitingHealthy | StHealthy | StBackoff | StRestarting
    | StFailed | StStopping | StExited | StStopped

  /** `Instant::duration_since`, which saturates at zero. */
  function Elapsed(now: Instant, since: Instant): nat {
    if since <= now then now - since else 0
  }

  /** A crash at `now` ends at least a minute of continuous health. */
  predicate EarnedReset(h: History, now: Instant) {
    h.healthySince.Some? && Elapsed(now, h.healthySince.value) >= HEALTHY_RESET_AFTER
  }

  function FailuresAfterCrash(h: History, now: Instant): nat {
    (if EarnedReset(h, now) then 0 else h.consecutiveFailures) + 1
  }

  function Crashed(h: History, now: Instant): History {
    History(FailuresAfterCrash(h, now), None)
  }

  function TurnedHealthy(h: History, now: Instant): History {
    h.(healthySince := Some(now))
  }

  function Pow2(e: nat): nat {
    if e == 0 then 1 else 2 * Pow2(e - 1)
  }

  /** The backoff before respawn number `failures`. The exponent is clamped to 31 before the 64-bit
      shift, so the shift never overflows. */
  function BackoffDelay(failures: nat): nat {
    var exponent := Min(if failures == 0 then 0 else failures - 1, 31);
    Seconds(Min(Pow2(exponent), BACKOFF_CAP_SECONDS))
  }

  function NextRestart(h: History, now: Instant): Decision {
    var failures := FailuresAfterCrash(h, now);
    if failures >= MAX_CONSECUTIVE_FAILURES then GiveUp else RespawnAt(now + BackoffDelay(failures))
  }

  /** Where a crash at `now` lands, given the history before it. */
  function CrashPhase(h: History, now: Instant): Phase {
    match NextRestart(h, now)
    case RespawnAt(at) => Backoff(at)
    case GiveUp => Failed
  }

  datatype Stepped = Stepped(directive: Directive, history: History)

  /** One transition of one service: the directive and the updated history. */
  function Step(phase: Phase, observed: Observed, stop: bool, now: Instant, h: History): Stepped {
    match phase
    case Failed => Stepped(Stay(Failed), h)
    case Backoff(at) => Stepped(if !stop && now >= at then Respawn else Stay(phase), h)
    case Healthy(_) =>
      if observed == Exited then Stepped(Stay(CrashPhase(h, now)), Crashed(h, now))
      else Stepped(Stay(phase), h)
    case WaitingHealthy(deadline) =>
      match observed
      case Exited => Stepped(Stay(CrashPhase(h, now)), Crashed(h, now))
      case Ready => Stepped(Stay(Healthy(now)), TurnedHealthy(h, now))
      case _ =>
        if now >= deadline then Stepped(Kill(CrashPhase(h, now)), Crashed(h, now))
        else Stepped(Stay(phase), h)
  }

  function StatusOf(phase: Phase): Status {
    match phase
    case WaitingHealthy(_) => StWaitingHealthy
    case Healthy(_) => StHealthy
    case Backoff(_) => StBackoff
    case Failed => StFailed
  }

  /** The status a stop records, and whether the process is confirmed gone. */
  function StopOutcome(s: Shutdown): (Status, bool) {
    match s
    case Unconfirmed => (StFailed, false)
    case _ => (StStopped, true)
  }

  /** A kill that could not be confirmed gives the service up. */
  function PhaseAfterKill(s: Shutdown, intended: Phase): Phase {
    if StopOutcome(s).1 then intended else Failed
  }

  lemma {:induction false} Pow2Small()
    ensures Pow2(0) == 1 && Pow2(1) == 2 && Pow2(2) == 4 && Pow2(3) == 8 && Pow2(4) == 16
    ensures Pow2(5) == 32
  {
    assert Pow2(3) == 2 * Pow2(2);
    assert Pow2(5) == 2 * Pow2(4);
  }

  lemma {:induction false} Pow2Monotone(a: nat, b: nat)
    requires a <= b
    ensures 1 <= Pow2(a) <= Pow2(b)
    decreases b
  {
    if a < b {
      Pow2Monotone(a, b - 1);
    } else if a > 0 {
      Pow2Monotone(a - 1, b - 1);
    }
  }

  /** The schedule is monotone and never exceeds the cap; up to the fifth failure it is exactly a
      doubling, and from the sixth on it is exactly the cap. */
  lemma {:induction false} BackoffSchedule(m: nat, n: nat)
    requires m <= n
    ensures BackoffDelay(m) <= BackoffDelay(n) <= Seconds(BACKOFF_CAP_SECONDS)
    ensures 1 <= n <= 5 ==> BackoffDelay(n) == Seconds(Pow2(n - 1))
    ensures n >= 6 ==> BackoffDelay(n) == Seconds(BACKOFF_CAP_SECONDS)
  {
    var em, en := Min(if m == 0 then 0 else m - 1, 31), Min(if n == 0 then 0 else n - 1, 31);
    Pow2Monotone(em, en);
    Pow2Small();
    if n >= 6 {
      Pow2Monotone(5, en);
    }
  }
}
