/** The `down` client waiting for the fleet to stop, racing with a supervisor that publishes its last
    state and exits. */
module DownRace {
  import opened Prelude
  import opened FleetRun
  import opened Fleet

  datatype Outcome = StoppedCleanly | EndedFailed | PrematureExit | TimedOut | Unreadable

  /** One round of the client: when it loads the state, when it probes the supervisor, when it loads
      the state again, and whether the deadline has passed by then. */
  datatype Poll = Poll(loadAt: nat, probeAt: nat, reloadAt: nat, late: bool)

  /** What the client can see over time: the state file's status, and whether the pid answers. */
  datatype View = View(load: nat -> Option<FleetStatus>, probe: nat -> bool)

  predicate Ordered(polls: seq<Poll>) {
    && (forall k :: 0 <= k < |polls| ==> polls[k].loadAt <= polls[k].probeAt <= polls[k].reloadAt)
    && (forall j, k :: 0 <= j < k < |polls| ==> polls[j].reloadAt <= polls[k].loadAt)
  }

  function Verdict(s: FleetStatus): Outcome
    requires IsTerminal(s)
  {
    if s == FStopped then StoppedCleanly else EndedFailed
  }

  /** What one poll decides, if anything: a terminal state at the first load, an unreadable state, or
      a dead supervisor, whose state is loaded once more. */
  function Decides(v: View, p: Poll): Option<Outcome> {
    match v.load(p.loadAt)
    case None => Some(Unreadable)
    case Some(s) =>
      if IsTerminal(s) then Some(Verdict(s))
      else if v.probe(p.probeAt) then None
      else
        match v.load(p.reloadAt)
        case None => Some(Unreadable)
        case Some(s') => Some(if IsTerminal(s') then Verdict(s') else PrematureExit)
  }

  /** The outcome: the first poll that decides, unless the deadline passes first. */
  function OutcomeOf(v: View, polls: seq<Poll>): Outcome {
    if polls == [] then TimedOut
    else if Decides(v, polls[0]).Some? then Decides(v, polls[0]).value
    else if polls[0].late then TimedOut
    else OutcomeOf(v, polls[1..])
  }

  /** The poll sees a fleet that goes on: a status that is not terminal and a supervisor that answers. */
  predicate SeesItGoOn(v: View, p: Poll) {
    && v.load(p.loadAt).Some? && v.load(p.loadAt).value !in {FStopped, FFailed}
    && v.probe(p.probeAt)
  }

  /** Every poll before number `k` saw the fleet go on, with time left. */
  predicate AllGoOn(v: View, polls: seq<Poll>, k: nat)
    requires k <= |polls|
  {
    forall j :: 0 <= j < k ==> SeesItGoOn(v, polls[j]) && !polls[j].late
  }

  /** Poll `k` is the first that does not see the fleet go on, and comes in time. */
  predicate FirstToSee(v: View, polls: seq<Poll>, k: nat) {
    k < |polls| && AllGoOn(v, polls, k) && !SeesItGoOn(v, polls[k])
  }

  /** What is read at such a poll in the end: the first load if it is terminal or fails, else the second. */
  function LastRead(v: View, p: Poll): Option<FleetStatus> {
    var first := v.load(p.loadAt);
    if first.Some? && first.value !in {FStopped, FFailed} then v.load(p.reloadAt) else first
  }

  lemma {:induction false} GoOnTail(v: View, polls: seq<Poll>, k: nat)
    requires polls != [] && SeesItGoOn(v, polls[0]) && !polls[0].late && k < |polls|
    ensures AllGoOn(v, polls, k + 1) <==> AllGoOn(v, polls[1..], k)
  {
    var rest := polls[1..];
    assert forall j :: 1 <= j < |polls| ==> polls[j] == rest[j - 1];
    assert forall j :: 0 <= j < k ==> rest[j] == polls[j + 1];
  }

  /** What `down` reports, whatever the file and the process do: how the first poll that does not see the fleet go
      on reads the state in the end. */
  lemma {:induction false} FirstToSeeReports(v: View, polls: seq<Poll>, k: nat)
    requires FirstToSee(v, polls, k)
    ensures var read := LastRead(v, polls[k]);
            && (OutcomeOf(v, polls) == StoppedCleanly <==> read == Some(FStopped))
            && (OutcomeOf(v, polls) == EndedFailed <==> read == Some(FFailed))
            && (OutcomeOf(v, polls) == Unreadable <==> read == None)
            && (OutcomeOf(v, polls) == PrematureExit <==> read.Some? && read.value !in {FStopped, FFailed})
  {
    if k > 0 {
      assert SeesItGoOn(v, polls[0]) && !polls[0].late;
      GoOnTail(v, polls, k - 1);
      FirstToSeeReports(v, polls[1..], k - 1);
    }
  }

  /** And it times out exactly if there is no such poll. */
  lemma {:induction false} TimesOutIff(v: View, polls: seq<Poll>)
    ensures OutcomeOf(v, polls) == TimedOut <==> !exists k: nat :: FirstToSee(v, polls, k)
  {
    if k: nat :| FirstToSee(v, polls, k) {
      FirstToSeeReports(v, polls, k);
    }
    if polls != [] {
      if SeesItGoOn(v, polls[0]) && !polls[0].late {
        TimesOutIff(v, polls[1..]);
        if k: nat :| FirstToSee(v, polls[1..], k) {
          GoOnTail(v, polls, k);
          assert FirstToSee(v, polls, k + 1);
        }
      } else if !SeesItGoOn(v, polls[0]) {
        assert FirstToSee(v, polls, 0);
      }
    }
  }

  /** So every outcome has its reason. */
  lemma {:induction false} OutcomeIff(v: View, polls: seq<Poll>)
    ensures OutcomeOf(v, polls) == StoppedCleanly <==>
              exists k: nat :: FirstToSee(v, polls, k) && LastRead(v, polls[k]) == Some(FStopped)
    ensures OutcomeOf(v, polls) == EndedFailed <==>
              exists k: nat :: FirstToSee(v, polls, k) && LastRead(v, polls[k]) == Some(FFailed)
    ensures OutcomeOf(v, polls) == TimedOut <==> !exists k: nat :: FirstToSee(v, polls, k)
  {
    TimesOutIff(v, polls);
    forall k: nat | FirstToSee(v, polls, k)
      ensures OutcomeOf(v, polls) == StoppedCleanly <==> LastRead(v, polls[k]) == Some(FStopped)
      ensures OutcomeOf(v, polls) == EndedFailed <==> LastRead(v, polls[k]) == Some(FFailed)
    {
      FirstToSeeReports(v, polls, k);
    }
  }

  method WaitForTerminal(v: View, polls: seq<Poll>) returns (o: Outcome)
    ensures o == OutcomeOf(v, polls)
    ensures o == StoppedCleanly <==> exists k: nat :: FirstToSee(v, polls, k) && LastRead(v, polls[k]) == Some(FStopped)
    ensures o == EndedFailed <==> exists k: nat :: FirstToSee(v, polls, k) && LastRead(v, polls[k]) == Some(FFailed)
    ensures o == TimedOut <==> !exists k: nat :: FirstToSee(v, polls, k)
  {
    OutcomeIff(v, polls);
    for k := 0 to |polls|
      invariant OutcomeOf(v, polls) == OutcomeOf(v, polls[k..])
    {
      assert polls[k..][0] == polls[k] && polls[k..][1..] == polls[k + 1..];
      var p := polls[k];
      var loaded := v.load(p.loadAt);
      if loaded.None? {
        return Unreadable;
      }
      if IsTerminal(loaded.value) {
        return Verdict(loaded.value);
      }
      if !v.probe(p.probeAt) {
        loaded := v.load(p.reloadAt);
        if loaded.None? {
          return Unreadable;
        }
        if IsTerminal(loaded.value) {
          return Verdict(loaded.value);
        }
        return PrematureExit;
      }
      if p.late {
        return TimedOut;
      }
    }
    o := TimedOut;
  }

  /** A premature exit is reported only on evidence: some poll found the supervisor dead, and the state
      loaded after that was not terminal. */
  lemma {:induction false} PrematureOnlyOnEvidence(v: View, polls: seq<Poll>)
    requires OutcomeOf(v, polls) == PrematureExit
    ensures exists k :: 0 <= k < |polls| && !v.probe(polls[k].probeAt)
                        && v.load(polls[k].reloadAt).Some? && !IsTerminal(v.load(polls[k].reloadAt).value)
  {
    if Decides(v, polls[0]).None? {
      PrematureOnlyOnEvidence(v, polls[1..]);
      var k :| 0 <= k < |polls| - 1 && !v.probe(polls[1..][k].probeAt)
                && v.load(polls[1..][k].reloadAt).Some? && !IsTerminal(v.load(polls[1..][k].reloadAt).value);
      assert polls[k + 1] == polls[1..][k];
    } else {
      assert !v.probe(polls[0].probeAt);
    }
  }

  /** A single supervisor that exits at `death` leaving `final` behind. Until then its pid answers; a
      terminal state is never followed by another; afterwards the pid may be answered by a stranger. */
  ghost predicate ExitsAt(v: View, death: nat, final: FleetStatus) {
    && (forall t: nat :: t < death ==> v.probe(t))
    && (forall t: nat :: t >= death ==> v.load(t) == Some(final))
    && (forall t: nat :: v.load(t).Some?)
    && (forall t: nat :: v.load(t).Some? && IsTerminal(v.load(t).value) ==> v.load(t).value == final)
  }

  /** Some poll sees the end in time: a terminal status, or a supervisor that does not answer. */
  ghost predicate SeenInTime(v: View, polls: seq<Poll>) {
    exists k: nat :: FirstToSee(v, polls, k)
  }

  /** Any poll in time that finds the supervisor dead, or its status terminal, will do. */
  lemma {:induction false} SeenAtAny(v: View, polls: seq<Poll>, k: nat)
    requires k < |polls| && !SeesItGoOn(v, polls[k]) && forall j :: 0 <= j < k ==> !polls[j].late
    ensures SeenInTime(v, polls)
  {
    if SeesItGoOn(v, polls[0]) {
      SeenAtAny(v, polls[1..], k - 1);
      var m: nat :| FirstToSee(v, polls[1..], m);
      GoOnTail(v, polls, m);
      assert FirstToSee(v, polls, m + 1);
    } else {
      assert FirstToSee(v, polls, 0);
    }
  }

  /** The race is decided right: whatever the interleaving, a client that sees the end in time reports the
      supervisor's own last word, a clean stop exactly if that is stopped, a failure exactly if it is failed, and a
      premature exit exactly if it is neither. A client that does not runs out of time. */
  lemma {:induction false} DownReportsTheLastWord(v: View, polls: seq<Poll>, death: nat, final: FleetStatus)
    requires ExitsAt(v, death, final) && Ordered(polls)
    ensures OutcomeOf(v, polls) == StoppedCleanly <==> SeenInTime(v, polls) && final == FStopped
    ensures OutcomeOf(v, polls) == EndedFailed <==> SeenInTime(v, polls) && final == FFailed
    ensures OutcomeOf(v, polls) == PrematureExit <==> SeenInTime(v, polls) && final !in {FStopped, FFailed}
    ensures OutcomeOf(v, polls) == TimedOut <==> !SeenInTime(v, polls)
  {
    TimesOutIff(v, polls);
    if k: nat :| FirstToSee(v, polls, k) {
      FirstToSeeReports(v, polls, k);
      LastReadIsFinal(v, polls[k], death, final);
    }
  }

  lemma {:induction false} LastReadIsFinal(v: View, p: Poll, death: nat, final: FleetStatus)
    requires ExitsAt(v, death, final) && p.loadAt <= p.probeAt <= p.reloadAt && !SeesItGoOn(v, p)
    ensures LastRead(v, p) == Some(final)
  {
    var first := v.load(p.loadAt);
    if first.Some? && first.value !in {FStopped, FFailed} {
      assert death <= p.probeAt;
      assert v.load(p.reloadAt) == Some(final);
    }
  }

  // The supervisor that `down` races with is the one that runs the fleet.

  /** The snapshot in force at `t`, when snapshot `k` is published at `at[k]`. */
  function Latest(at: seq<nat>, t: nat): (k: nat)
    requires at != []
    ensures k < |at|
  {
    var n := |at| - 1;
    if n == 0 || at[n] <= t then n else Latest(at[..n], t)
  }

  /** The client sees the snapshots a supervisor published, and a pid that answers until it exits. */
  ghost predicate Follows(v: View, published: seq<Snapshot>, at: seq<nat>, death: nat) {
    && |published| == |at| > 0 && at[|at| - 1] <= death
    && (forall t: nat :: v.load(t) == Some(published[Latest(at, t)].status))
    && (forall t: nat :: t < death ==> v.probe(t))
  }

  /** A supervisor whose checkpoints follow the lifecycle exits leaving its last checkpoint behind. */
  lemma {:induction false} LastCheckpointIsTheLastWord(v: View, published: seq<Snapshot>, now: FleetStatus, at: seq<nat>, death: nat)
    requires Lifecycle(published, now) && Follows(v, published, at, death)
    ensures ExitsAt(v, death, published[|published| - 1].status)
  {
    var last := |published| - 1;
    forall t: nat
      ensures v.load(t).Some?
      ensures t >= death ==> v.load(t) == Some(published[last].status)
      ensures IsTerminal(v.load(t).value) ==> v.load(t).value == published[last].status
    {
      var k := Latest(at, t);
      assert v.load(t) == Some(published[k].status);
      if k < last {
        LifecycleOrder(published, now, k, last);
      }
    }
  }

  /** So `down` reports how the run ended, if it sees the end in time: a clean stop exactly if the run succeeded, a
      failure exactly if it failed with a terminal checkpoint, and a premature exit exactly if it ended without one,
      as an early failure does. */
  lemma {:induction false} DownAfterRun(v: View, published: seq<Snapshot>, now: FleetStatus, ok: bool, at: seq<nat>, death: nat, polls: seq<Poll>)
    requires Lifecycle(published, now) && Reports(published, ok) && Follows(v, published, at, death) && Ordered(polls)
    ensures OutcomeOf(v, polls) == StoppedCleanly ==> ok
    ensures SeenInTime(v, polls) ==>
              && (OutcomeOf(v, polls) == StoppedCleanly <==> ok)
              && (OutcomeOf(v, polls) == EndedFailed <==> !ok && Finished(published))
              && (OutcomeOf(v, polls) == PrematureExit <==> !ok && !Finished(published))
    ensures OutcomeOf(v, polls) == TimedOut <==> !SeenInTime(v, polls)
  {
    LastCheckpointIsTheLastWord(v, published, now, at, death);
    DownReportsTheLastWord(v, polls, death, published[|published| - 1].status);
  }

  /** What a client would report that loads the state once per poll and trusts the probe. */
  function OneLoadOutcome(v: View, polls: seq<Poll>): Outcome {
    if polls == [] then TimedOut
    else
      match v.load(polls[0].loadAt)
      case None => Unreadable
      case Some(s) =>
        if IsTerminal(s) then Verdict(s)
        else if !v.probe(polls[0].probeAt) then PrematureExit
        else if polls[0].late then TimedOut
        else OneLoadOutcome(v, polls[1..])
  }

  /** The two clients differ exactly when a poll that decides loads a state that is not terminal, finds the
      supervisor dead, and would have loaded something else than a non-terminal state the second time. */
  lemma {:induction false} SecondLoadMattersIff(v: View, polls: seq<Poll>)
    ensures OneLoadOutcome(v, polls) != OutcomeOf(v, polls) <==>
              exists k :: 0 <= k < |polls| && Overtaken(v, polls[k]) && AllWait(v, polls, k)
  {
    if polls != [] {
      var p := polls[0];
      if Decides(v, p).Some? || p.late {
        if k :| 0 <= k < |polls| && Overtaken(v, polls[k]) && AllWait(v, polls, k) {
          assert k > 0 ==> Waits(v, polls[0]);
        }
        assert AllWait(v, polls, 0);
      } else {
        SecondLoadMattersIff(v, polls[1..]);
        AllWaitTail(v, polls);
      }
    }
  }

  /** Not terminal at the first load, dead at the probe, and terminal or gone at the second load. */
  predicate Overtaken(v: View, p: Poll) {
    && v.load(p.loadAt).Some? && !IsTerminal(v.load(p.loadAt).value)
    && !v.probe(p.probeAt)
    && (v.load(p.reloadAt).Some? ==> IsTerminal(v.load(p.reloadAt).value))
  }

  /** The poll decides nothing and the deadline has not passed. */
  predicate Waits(v: View, p: Poll) {
    Decides(v, p).None? && !p.late
  }

  predicate AllWait(v: View, polls: seq<Poll>, k: nat)
    requires k <= |polls|
  {
    forall j :: 0 <= j < k ==> Waits(v, polls[j])
  }

  lemma {:induction false} AllWaitTail(v: View, polls: seq<Poll>)
    requires polls != [] && Waits(v, polls[0])
    ensures (exists k :: 0 <= k < |polls| && Overtaken(v, polls[k]) && AllWait(v, polls, k)) <==>
            (exists k :: 0 <= k < |polls[1..]| && Overtaken(v, polls[1..][k]) && AllWait(v, polls[1..], k))
  {
    var rest := polls[1..];
    if k :| 0 <= k < |polls| && Overtaken(v, polls[k]) && AllWait(v, polls, k) {
      assert k > 0 && rest[k - 1] == polls[k];
      assert AllWait(v, rest, k - 1) by {
        assert forall j :: 0 <= j < k - 1 ==> rest[j] == polls[j + 1];
      }
    }
    if k :| 0 <= k < |rest| && Overtaken(v, rest[k]) && AllWait(v, rest, k) {
      assert polls[k + 1] == rest[k];
      assert AllWait(v, polls, k + 1) by {
        assert forall j :: 1 <= j < k + 1 ==> polls[j] == rest[j - 1];
      }
    }
  }

  /** The second load is what decides the race: an orderly supervisor that publishes and exits between
      the first load and the probe would otherwise be reported as a premature exit. */
  lemma {:induction false} SecondLoadIsNeeded() returns (v: View, p: Poll)
    ensures ExitsAt(v, 1, FStopped) && Ordered([p])
    ensures v.load(p.loadAt) == Some(FStopping) && !v.probe(p.probeAt)
    ensures OutcomeOf(v, [p]) == StoppedCleanly && OneLoadOutcome(v, [p]) == PrematureExit
  {
    v := View(t => if t < 1 then Some(FStopping) else Some(FStopped), t => t < 1);
    p := Poll(0, 1, 2, false);
  }
}
