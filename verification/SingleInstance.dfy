/** A supervised service together with the operating system's processes: which of its processes can
    be alive at once. */
module SingleInstance {
  import opened Prelude
  import opened RestartPolicy
  import opened ServiceRun

  /** `live` are the service's processes that exist; `leaked` those that outlived the drop of their handle
      after a failed liveness query; `orphans` those whose kill could not be confirmed. */
  datatype World = World(svc: Svc, live: set<Pid>, leaked: set<Pid>, orphans: set<Pid>)

  /** One tick's input, the processes alive when the service is observed, those alive after, and whether the
      force and bounded wait that dropping an unreaped handle performs put the process down. */
  datatype Moment = Moment(input: Input, survivors: set<Pid>, after: set<Pid>, downed: bool)

  predicate Respawns(w: World, m: Moment) {
    DirectiveOf(w.svc, m.input) == Some(Respawn)
  }

  predicate Kills(w: World, m: Moment) {
    var d := DirectiveOf(w.svc, m.input);
    d.Some? && d.value.Kill? && w.svc.proc.Some?
  }

  /** The handle is dropped because its liveness query failed. */
  predicate DropsUnreaped(w: World, m: Moment) {
    w.svc.proc.Some? && m.input.liveness == QueryFailed && CrashAt(w.svc, m.input).Some?
  }

  /** And the force that goes with the drop fails as well. */
  predicate Leaks(w: World, m: Moment) {
    DropsUnreaped(w, m) && !m.downed
  }

  /** What the platform guarantees: processes appear only by a respawn, under an identifier not in
      use; an observed exit, a confirmed shutdown and a forced drop that works mean the process is gone. */
  predicate Possible(w: World, m: Moment) {
    && m.survivors <= w.live
    && (w.svc.proc.Some? && m.input.liveness == HasExited ==> w.svc.proc.value !in m.survivors)
    && (if Respawns(w, m) && m.input.spawn.Some?
        then m.input.spawn.value !in m.survivors && m.after <= m.survivors + {m.input.spawn.value}
        else m.after <= m.survivors)
    && (Kills(w, m) && m.input.shutdown != Unconfirmed ==> w.svc.proc.value !in m.after)
    && (DropsUnreaped(w, m) && m.downed ==> w.svc.proc.value !in m.after)
  }

  function Next(w: World, m: Moment): World {
    World(Tick(w.svc, m.input), m.after,
          w.leaked + (if Leaks(w, m) then {w.svc.proc.value} else {}),
          w.orphans + (if Kills(w, m) && m.input.shutdown == Unconfirmed then {w.svc.proc.value} else {}))
  }

  function After(w: World, ms: seq<Moment>): World {
    if ms == [] then w else Next(After(w, ms[..|ms| - 1]), ms[|ms| - 1])
  }

  predicate PossibleRun(w: World, ms: seq<Moment>) {
    forall i :: 0 <= i < |ms| ==> Possible(After(w, ms[..i]), ms[i])
  }

  /** A freshly booted service whose only process is the one it holds. */
  predicate Start(w: World) {
    && Coherent(w.svc)
    && w.svc.phase.value.Healthy?
    && w.live <= {w.svc.proc.value}
    && w.leaked == w.orphans == {}
  }

  /** Every live process is held, leaked or orphaned, and an orphan exists only after giving up. */
  ghost predicate Accounted(w: World) {
    && Coherent(w.svc)
    && w.live <= (if w.svc.proc.Some? then {w.svc.proc.value} else {}) + w.leaked + w.orphans
    && (w.orphans == {} || (w.svc.phase == Some(Failed) && exists p :: w.orphans == {p}))
  }

  lemma {:induction false} NextKeepsAccounted(w: World, m: Moment)
    requires Accounted(w) && Possible(w, m)
    ensures Accounted(Next(w, m))
  {
    TickKeepsCoherent(w.svc, m.input);
    if Kills(w, m) && m.input.shutdown == Unconfirmed {
      assert Next(w, m).orphans == {w.svc.proc.value};
    }
  }

  lemma {:induction false} RunStaysAccounted(w: World, ms: seq<Moment>)
    requires Start(w) && PossibleRun(w, ms)
    ensures Accounted(After(w, ms))
  {
    if ms != [] {
      var n := |ms| - 1;
      forall i | 0 <= i < n ensures Possible(After(w, ms[..n][..i]), ms[..n][i]) {
        assert ms[..n][..i] == ms[..i];
      }
      RunStaysAccounted(w, ms[..n]);
      NextKeepsAccounted(After(w, ms[..n]), ms[n]);
    }
  }

  lemma {:induction false} NoQueryFailureNoLeak(w: World, ms: seq<Moment>)
    requires w.leaked == {}
    requires forall i :: 0 <= i < |ms| ==> ms[i].input.liveness == QueryFailed ==> ms[i].downed
    ensures After(w, ms).leaked == {}
  {
    if ms != [] {
      NoQueryFailureNoLeak(w, ms[..|ms| - 1]);
    }
  }

  lemma {:induction false} RespawnFindsOnlyLeaked(v: World, m: Moment)
    requires Accounted(v) && Possible(v, m) && Respawns(v, m)
    ensures m.survivors <= v.leaked
    ensures v.orphans == {}
  {
  }

  lemma {:induction false} AccountedCounts(v: World)
    requires Accounted(v) && v.leaked == {}
    ensures |v.live| <= 1
  {
    if v.svc.proc.Some? {
      AtMostOne(v.live, v.svc.proc.value);
    } else if v.orphans != {} {
      var p :| v.orphans == {p};
      AtMostOne(v.live, p);
    }
  }

  /** In every reachable state, at the instant of a respawn, a process of the service is still alive
      exactly when one leaked by an earlier failed liveness query is: never one that was observed
      exited, stopped, or whose kill went unconfirmed. */
  lemma {:induction false} RespawnOverLiveOnlyAfterLeak(w: World, ms: seq<Moment>, m: Moment)
    requires Start(w) && PossibleRun(w, ms)
    requires Possible(After(w, ms), m) && Respawns(After(w, ms), m)
    ensures m.survivors != {} <==> m.survivors * After(w, ms).leaked != {}
    ensures m.survivors <= After(w, ms).leaked
    ensures After(w, ms).orphans == {}
  {
    RunStaysAccounted(w, ms);
    RespawnFindsOnlyLeaked(After(w, ms), m);
  }

  /** While every liveness query succeeds or the forced drop that follows a failed one works, two processes of
      one service never coexist, and a process is spawned only when none is alive. */
  lemma {:induction false} SingleInstance(w: World, ms: seq<Moment>, m: Moment)
    requires Start(w) && PossibleRun(w, ms)
    requires forall i :: 0 <= i < |ms| ==> ms[i].input.liveness == QueryFailed ==> ms[i].downed
    ensures |After(w, ms).live| <= 1
    ensures Possible(After(w, ms), m) && Respawns(After(w, ms), m) ==> m.survivors == {}
  {
    RunStaysAccounted(w, ms);
    NoQueryFailureNoLeak(w, ms);
    AccountedCounts(After(w, ms));
    if Possible(After(w, ms), m) && Respawns(After(w, ms), m) {
      RespawnFindsOnlyLeaked(After(w, ms), m);
    }
  }

  lemma {:induction false} AtMostOne(s: set<Pid>, p: Pid)
    requires s <= {p}
    ensures |s| <= 1
  {
    if p in s {
      assert s == {p};
    } else {
      assert s == {};
    }
  }

  /** A failed liveness query is treated as an exit, so a process that also outlives the forced drop of its
      handle is respawned over. */
  lemma {:induction false} QueryFailureCanDuplicate() returns (w: World, ms: seq<Moment>)
    ensures Start(w) && PossibleRun(w, ms)
    ensures |After(w, ms).live| == 2
  {
    var up := Svc(Some(Healthy(0)), Some(7), History(0, Some(0)), StHealthy, 0, Unknown);
    w := World(up, {7}, {}, {});
    var quiet := Input(0, 0, None, StillRunning, false, false, Some(8), Graceful);
    var m0 := Moment(quiet.(liveness := QueryFailed), {7}, {7}, false);
    var m1 := Moment(quiet.(now := Seconds(1), later := Seconds(1)), {7}, {7, 8}, false);
    ms := [m0, m1];
    BackoffSchedule(1, 1);
    Pow2Small();
    assert ms[..0] == [] && ms[..1] == [m0];
    assert After(w, ms[..1]) == Next(w, m0);
    assert Possible(w, m0);
    assert Respawns(Next(w, m0), m1);
    assert Possible(Next(w, m0), m1);
    assert After(w, ms) == Next(Next(w, m0), m1);
  }
}
