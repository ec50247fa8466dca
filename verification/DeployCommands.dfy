/** The `deploy` and `rollback` commands as programs over the generation store: each effect is one step
    of the protocol, and retention is exact. */
module DeployCommands {
  import opened Prelude
  import opened Staging
  import opened Generations

  /** What retention is answered: the snapshot of the pin, the directory scan, the pin re-read before
      each deletion, and, for the directories that cannot be removed wholly, the files that then remain. */
  datatype Sweep = Sweep(snapshot: PinRead, scan: seq<nat>, reread: nat -> PinRead, stuck: map<nat, set<string>>)

  /** A sweep that protects `keep` does not touch `g`: it is not scanned, protected, pinned at the snapshot,
      or pinned at the re-read. */
  predicate Untouched(s: System, keep: set<nat>, w: Sweep, g: nat) {
    || g !in w.scan
    || g in keep
    || LivePin(s, w.snapshot) == Some(g)
    || Spared(s, w, g)
  }

  /** The fresh read of the pin names the victim. */
  predicate Spared(s: System, w: Sweep, g: nat) {
    LivePin(s, w.reread(g)) == Some(g)
  }

  /** What survives the sweep, whole or in part. */
  predicate Survives(s: System, keep: set<nat>, w: Sweep, g: nat) {
    Untouched(s, keep, w, g) || g in w.stuck
  }

  /** What removing `d` leaves when only the files in `remaining` resist. */
  function Remains(d: Dir, remaining: set<string>): Dir {
    map f | f in d && f in remaining :: d[f]
  }

  /** The directory of a survivor after the sweep. */
  function Left(s: System, keep: set<nat>, w: Sweep, g: nat): Dir
    requires g in s.gens && Survives(s, keep, w, g)
  {
    if Untouched(s, keep, w, g) then s.gens[g] else Remains(s.gens[g], w.stuck[g])
  }

  datatype DeployResult = Deployed | Refused | Abandoned

  /** The highest generation present, plus one. */
  method NextGeneration(scan: seq<nat>) returns (n: nat)
    ensures n == MaxOf(scan) + 1
    ensures n !in scan && forall g :: g in scan ==> g < n
  {
    var max := 0;
    for i := 0 to |scan|
      invariant max == MaxOf(scan[..i])
    {
      assert scan[..i + 1][..i] == scan[..i];
      max := Max(max, scan[i]);
    }
    assert scan[..|scan|] == scan;
    n := max + 1;
  }

  predicate Plausible(gens: map<nat, Dir>, g: nat, current: nat) {
    g < current && g in gens && ManifestIn(gens[g]).Some?
  }

  /** The default rollback target: the greatest generation below `current` that has a manifest. */
  method PredecessorGeneration(gens: map<nat, Dir>, scan: seq<nat>, current: nat) returns (best: Option<nat>)
    ensures best.Some? ==> best.value in scan && Plausible(gens, best.value, current)
    ensures forall g :: g in scan && Plausible(gens, g, current) ==> best.Some? && g <= best.value
  {
    best := None;
    for i := 0 to |scan|
      invariant best.Some? ==> best.value in scan && Plausible(gens, best.value, current)
      invariant forall j :: 0 <= j < i && Plausible(gens, scan[j], current) ==> best.Some? && scan[j] <= best.value
    {
      if Plausible(gens, scan[i], current) {
        best := Some(if best.Some? then Max(best.value, scan[i]) else scan[i]);
      }
    }
  }

  function Above(scan: seq<nat>, target: nat): set<nat> {
    set n | n in scan && n >= target
  }

  /** One copy: what the file system does, and the entry of some generation that the path hits if it leads out
      of the new directory. */
  datatype Copy = Copy(io: Io, stray: Option<(nat, string)>)

  /** The generations that the paths of a plan, joined to the new directory, lead into from outside. */
  function HitsOf(plan: seq<Source>, copies: seq<Copy>): set<nat>
    requires |plan| == |copies|
  {
    set k | 0 <= k < |plan| && Hits(plan[k], copies[k]) :: copies[k].stray.value.0
  }

  predicate Hits(src: Source, copy: Copy) {
    Entry(src.file).None? && copy.stray.Some?
  }

  /** How a deploy whose copies all succeeded goes on: the write of its manifest breaks off, leaving no
      manifest or a beginning of one; the flip fails; or neither. */
  datatype Finish = ManifestFails(left: Option<nat>) | FlipFails | Completes

  function OldFiles(gens: map<nat, Dir>, g: nat): Dir {
    if g in gens then gens[g] else map[]
  }

  /** The generations after deleting the `stale` ones, but for those spared and what remains of the stuck. */
  function Swept(s: System, w: Sweep, stale: set<nat>): map<nat, Dir> {
    map g | g in s.gens && (g in stale ==> Spared(s, w, g) || g in w.stuck)
      :: if g in stale && !Spared(s, w, g) && g in w.stuck then Remains(s.gens[g], w.stuck[g]) else s.gens[g]
  }

  /** One file further: the new directory holds that file as well, unless its path leads into another one, or
      the deploy is marked as failed. No generation but the new one and those in `hits` changes. */
  predicate CopyStep(s: System, t: System, hits: set<nat>)
    requires s.mutator.Copying? && s.mutator.done < |s.mutator.plan| && s.mutator.gen in s.gens
  {
    && t.mutator.Copying? && t == s.(gens := t.gens, mutator := t.mutator)
    && t.mutator == s.mutator.(done := s.mutator.done + 1, failed := t.mutator.failed)
    && t.gens.Keys == s.gens.Keys
    && (forall g :: g in t.gens && g != s.mutator.gen && g !in hits ==> t.gens[g] == s.gens[g])
    && (!t.mutator.failed ==>
          var src := s.mutator.plan[s.mutator.done];
          && !s.mutator.failed && src.bytes.Some?
          && (hits == {} ==> t.gens[s.mutator.gen] == Put(s.gens[s.mutator.gen], Item(src.file, src.bytes.value))))
  }

  /** So far as copied, unless a copy failed, every source was there and the new directory holds it; no other
      generation changed but those in `hits`. */
  predicate Copied(was: System, s: System, hits: set<nat>)
    requires was.mutator.Copying? && was.mutator.gen in was.gens
  {
    && s.mutator.Copying? && s.mutator.done <= |was.mutator.plan| && s == was.(gens := s.gens, mutator := s.mutator)
    && s.mutator == was.mutator.(done := s.mutator.done, failed := s.mutator.failed)
    && s.gens.Keys == was.gens.Keys
    && (forall g :: g in s.gens && g != was.mutator.gen && g !in hits ==> s.gens[g] == was.gens[g])
    && (!s.mutator.failed ==>
          var done := was.mutator.plan[..s.mutator.done];
          && AllPresent(done)
          && (hits == {} ==> s.gens[was.mutator.gen] == Overlay(was.gens[was.mutator.gen], Items(done))))
  }

  lemma {:induction false} CopiedOneMore(was: System, s: System, t: System, hits: set<nat>, now: set<nat>)
    requires was.mutator.Copying? && was.mutator.gen in was.gens && now <= hits
    requires Copied(was, s, hits) && s.mutator.done < |was.mutator.plan| && CopyStep(s, t, now)
    ensures Copied(was, t, hits)
  {
    OneMoreFile(was.gens[was.mutator.gen], was.mutator.plan, s.mutator.done);
  }

  lemma {:induction false} SweptOneMore(s: System, w: Sweep, stale: set<nat>, victim: nat)
    requires victim in s.gens && victim !in stale
    ensures victim in Swept(s, w, stale) && Swept(s, w, stale)[victim] == s.gens[victim]
    ensures Swept(s, w, stale + {victim}) ==
              if Spared(s, w, victim) then Swept(s, w, stale)
              else if victim in w.stuck then Swept(s, w, stale)[victim := Remains(s.gens[victim], w.stuck[victim])]
              else Swept(s, w, stale) - {victim}
  {
  }

  /** What a complete deploy leaves at its number: the items and the manifest, over what was there. */
  function NewGeneration(gens: map<nat, Dir>, gen: nat, plan: seq<Source>): Dir
    requires plan != []
  {
    Overlay(OldFiles(gens, gen), Written(gen, Items(plan)))
  }

  /** So the new generation holds the manifest, at each other entry the file planned last for it, and elsewhere what
      was there. */
  lemma {:induction false} NewGenerationHolds(gens: map<nat, Dir>, gen: nat, plan: seq<Source>, f: string)
    requires plan != [] && AllPresent(plan)
    ensures var d := NewGeneration(gens, gen, plan);
            && MANIFEST in d && d[MANIFEST] == Render(ManifestOf(gen, Items(plan)))
            && (f != MANIFEST ==> forall i: nat :: LastAt(Items(plan), i, f) ==> f in d && Some(d[f]) == plan[i].bytes)
            && (f != MANIFEST && (forall i :: 0 <= i < |plan| ==> Entry(plan[i].file) != Some(f)) ==>
                  && (f in d <==> gen in gens && f in gens[gen])
                  && (f in d ==> d[f] == gens[gen][f]))
  {
    var old_, items := OldFiles(gens, gen), Items(plan);
    var w := Written(gen, items);
    ManifestEntry();
    LastOverlayWins(old_, w, MANIFEST, |items|);
    if f != MANIFEST {
      forall i: nat | LastAt(items, i, f) ensures f in NewGeneration(gens, gen, plan) && Some(NewGeneration(gens, gen, plan)[f]) == plan[i].bytes {
        LastOverlayWins(old_, w, f, i);
      }
      if forall i :: 0 <= i < |plan| ==> Entry(plan[i].file) != Some(f) {
        OverlayElsewhere(old_, w, f);
      }
    }
  }

  ghost predicate AllUndisturbed(copies: seq<Copy>) {
    forall k :: 0 <= k < |copies| ==> Undisturbed(copies[k].io)
  }

  ghost predicate AllGoesWell(plan: seq<Source>, copies: seq<Copy>, finish: Finish) {
    AllPresent(plan) && AllUndisturbed(copies) && finish.Completes?
  }

  /** From idle to all files copied, or to a copy that failed. */
  predicate StageStep(s: System, t: System, gen: nat, plan: seq<Source>, hits: set<nat>) {
    && t.mutator.Copying? && t == s.(gens := t.gens, mutator := t.mutator, highest := t.highest)
    && t.mutator == Copying(gen, s.current, plan, |plan|, t.mutator.failed)
    && t.gens.Keys == s.gens.Keys + {gen}
    && (forall g :: g in s.gens && g != gen && g !in hits ==> t.gens[g] == s.gens[g])
    && (!t.mutator.failed ==>
          AllPresent(plan) && (hits == {} ==> t.gens[gen] == Overlay(OldFiles(s.gens, gen), Items(plan))))
  }

  /** From all files copied to the flip, or to a failure that leaves `current`. */
  predicate FinishStep(s: System, t: System, finish: Finish)
    requires Staged(s)
  {
    var m := s.mutator;
    && t == s.(gens := t.gens, current := if finish.Completes? then Some(m.gen) else s.current,
               mutator := if finish.Completes? then Flipped({m.gen} + AsSet(m.previous)) else Idle)
    && t.gens.Keys == s.gens.Keys
    && (forall g :: g in t.gens && g != m.gen ==> t.gens[g] == s.gens[g])
    && (!finish.ManifestFails? ==> t.gens[m.gen] == s.gens[m.gen][MANIFEST := Render(NewManifest(m))])
  }

  /** From idle to the flip, or to a failure that leaves `current` and every other generation. */
  predicate LaunchStep(s: System, t: System, gen: nat, plan: seq<Source>, hits: set<nat>, ok: bool)
    requires plan != []
  {
    && t == s.(gens := t.gens, current := if ok then Some(gen) else s.current,
               mutator := if ok then Flipped({gen} + AsSet(s.current)) else Idle, highest := t.highest)
    && t.gens.Keys == s.gens.Keys + {gen}
    && (forall g :: g in s.gens && g != gen && g !in hits ==> t.gens[g] == s.gens[g])
    && (ok ==> AllPresent(plan) && (hits == {} ==> t.gens[gen] == NewGeneration(s.gens, gen, plan)))
  }

  lemma {:induction false} Launched(s: System, t: System, u: System, gen: nat, plan: seq<Source>, hits: set<nat>, finish: Finish)
    requires plan != [] && StageStep(s, t, gen, plan, hits) && Staged(t) && FinishStep(t, u, finish)
    ensures LaunchStep(s, u, gen, plan, hits, finish.Completes?)
  {
    ManifestEntry();
    OverlayLast(OldFiles(s.gens, gen), Items(plan), Item(MANIFEST, Render(ManifestOf(gen, Items(plan)))));
  }

  /** Complete numbering, paths that lead to entries of their own, and a manifest that parses back. */
  predicate DeploySound(s: System, plan: seq<Source>, scan: seq<nat>)
    requires plan != []
  {
    Sound(s, BeginDeploy(plan, scan)) && ReadsBack(ManifestOf(MaxOf(scan) + 1, Items(plan)))
  }

  /** The generations after a sweep that protects `keep`. */
  function Retained(s: System, keep: set<nat>, w: Sweep): map<nat, Dir> {
    map g | g in s.gens && Survives(s, keep, w, g) :: Left(s, keep, w, g)
  }

  lemma {:induction false} SweptIsRetained(s: System, t: System, w: Sweep)
    requires s.mutator.Flipped? && Within(w.scan, s.gens) && t == Next(s, PlanSweep(w.snapshot, w.scan))
    ensures Swept(t, w, t.mutator.stale) == Retained(s, s.mutator.keep, w)
  {
    forall g ensures Spared(s, w, g) <==> Spared(t, w, g) {
    }
    assert forall g :: g in w.scan ==> (g in t.mutator.stale <==> g !in s.mutator.keep && LivePin(s, w.snapshot) != Some(g));
  }

  class Store {
    var sys: System

    constructor ()
      ensures Initial(sys)
    {
      sys := System(map[], None, None, Idle, None, map[], 0);
    }

    /** Every effect goes through here. */
    method Take(step: Step)
      requires Enabled(sys, step)
      modifies this
      ensures sys == Next(old(sys), step)
      ensures old(Inv(sys)) && Sound(old(sys), step) ==> Inv(sys)
    {
      if Inv(sys) && Sound(sys, step) {
        StepKeepsInv(sys, step);
      }
      sys := Next(sys, step);
    }

    /** One deletion, unless the fresh read of the pin names the victim. */
    method DeleteOne(victim: nat, w: Sweep)
      requires sys.mutator.Sweeping? && victim in sys.mutator.stale && victim in sys.gens
      modifies this
      ensures sys == old(sys).(gens := sys.gens, mutator := Sweeping(old(sys).mutator.stale - {victim}))
      ensures sys.gens == if Spared(old(sys), w, victim) then old(sys).gens
                          else if victim in w.stuck then old(sys).gens[victim := Remains(old(sys).gens[victim], w.stuck[victim])]
                          else old(sys).gens - {victim}
      ensures old(Inv(sys)) ==> Inv(sys)
    {
      var removal := if victim in w.stuck then Partial(Remains(sys.gens[victim], w.stuck[victim])) else Removed;
      Take(SweepOne(victim, w.reread(victim), removal));
    }

    /** Deletes everything marked for deletion but what is spared. The order does not matter. */
    method DeleteStale(w: Sweep)
      requires sys.mutator.Sweeping? && sys.mutator.stale <= sys.gens.Keys
      modifies this
      ensures sys == old(sys).(gens := sys.gens, mutator := Sweeping({}))
      ensures sys.gens == Swept(old(sys), w, old(sys).mutator.stale)
      ensures old(Inv(sys)) ==> Inv(sys)
    {
      ghost var was := sys;
      while sys.mutator.stale != {}
        invariant sys.mutator.Sweeping? && sys == was.(gens := sys.gens, mutator := sys.mutator)
        invariant sys.mutator.stale <= was.mutator.stale && sys.mutator.stale <= sys.gens.Keys
        invariant sys.gens == Swept(was, w, was.mutator.stale - sys.mutator.stale)
        invariant Inv(was) ==> Inv(sys)
        decreases sys.mutator.stale
      {
        var victim :| victim in sys.mutator.stale;
        ghost var before := was.mutator.stale - sys.mutator.stale;
        DeleteOne(victim, w);
        SweptOneMore(was, w, before, victim);
        assert was.mutator.stale - sys.mutator.stale == before + {victim};
      }
    }

    /** Deletes what retention may delete and leaves the mutator lock. */
    method PruneStaleGenerations(w: Sweep)
      requires sys.mutator.Flipped? && Within(w.scan, sys.gens)
      modifies this
      ensures sys == old(sys).(gens := sys.gens, mutator := Idle)
      ensures sys.gens == Retained(old(sys), old(sys).mutator.keep, w)
      ensures old(Inv(sys)) ==> Inv(sys)
    {
      ghost var was := sys;
      Take(PlanSweep(w.snapshot, w.scan));
      SweptIsRetained(was, sys, w);
      DeleteStale(w);
      Take(StopMutator);
    }

    /** Copies the next planned file; a missing source or a failed copy marks the deploy as failed. */
    method CopyOne(copy: Copy)
      requires sys.mutator.Copying? && sys.mutator.done < |sys.mutator.plan| && sys.mutator.gen in sys.gens
      modifies this
      ensures var src := old(sys).mutator.plan[old(sys).mutator.done];
              && CopyStep(old(sys), sys, if Hits(src, copy) then {copy.stray.value.0} else {})
              && (!old(sys).mutator.failed && src.bytes.Some? && Undisturbed(copy.io) ==> !sys.mutator.failed)
              && (old(Inv(sys)) && !Hits(src, copy) ==> Inv(sys))
    {
      var src := sys.mutator.plan[sys.mutator.done];
      if src.bytes.None? {
        Take(CopyNext(None, false, None));
      } else {
        var copied, written := CopyAndHash(src.bytes.value, copy.io);
        var stray := if Hits(src, copy) && copy.stray.value.0 in sys.gens then copy.stray else None;
        Take(CopyNext(written, copied.Ok?, stray));
      }
    }

    /** Copies the planned files into the new generation, one step each, never giving up half-way. */
    method CopyAll(copies: seq<Copy>)
      requires sys.mutator.Copying? && sys.mutator.done == 0 && !sys.mutator.failed && sys.mutator.gen in sys.gens
      requires |copies| == |sys.mutator.plan|
      modifies this
      ensures Copied(old(sys), sys, HitsOf(old(sys).mutator.plan, copies)) && sys.mutator.done == |copies|
      ensures AllPresent(sys.mutator.plan) && AllUndisturbed(copies) ==> !sys.mutator.failed
      ensures old(Inv(sys)) && HitsOf(old(sys).mutator.plan, copies) == {} ==> Inv(sys)
    {
      ghost var was := sys;
      ghost var hits := HitsOf(was.mutator.plan, copies);
      assert was.mutator.plan[..0] == [];
      while sys.mutator.done < |copies|
        invariant Copied(was, sys, hits)
        invariant AllPresent(was.mutator.plan) && AllUndisturbed(copies) ==> !sys.mutator.failed
        invariant Inv(was) && hits == {} ==> Inv(sys)
        decreases |copies| - sys.mutator.done
      {
        ghost var before := sys;
        var copy := copies[sys.mutator.done];
        ghost var now := if Hits(was.mutator.plan[sys.mutator.done], copy) then {copy.stray.value.0} else {};
        CopyOne(copy);
        CopiedOneMore(was, before, sys, hits, now);
      }
    }

    /** Every copy succeeded: write the manifest, then flip. If either fails, `current` stays. */
    method StampAndFlip(finish: Finish) returns (ok: bool)
      requires Enabled(sys, Stamp)
      modifies this
      ensures ok <==> finish.Completes?
      ensures FinishStep(old(sys), sys, finish)
      ensures old(Inv(sys)) && ReadsBack(NewManifest(old(sys).mutator)) ==> Inv(sys)
    {
      if finish.ManifestFails? {
        var text := Render(NewManifest(sys.mutator));
        var left := if finish.left.Some? then Some(text[..Min(finish.left.value, |text|)]) else None;
        Take(StampFails(left));
        return false;
      }
      Take(Stamp);
      if finish.FlipFails? {
        Take(StopMutator);
        return false;
      }
      Take(FlipDeployed);
      return true;
    }

    /** Opens the next generation and copies every planned file into it. */
    method Stage(plan: seq<Source>, scan: seq<nat>, copies: seq<Copy>)
      requires sys.mutator.Idle? && plan != [] && |copies| == |plan| && Within(scan, sys.gens)
      modifies this
      ensures StageStep(old(sys), sys, MaxOf(scan) + 1, plan, HitsOf(plan, copies))
      ensures AllPresent(plan) && AllUndisturbed(copies) ==> !sys.mutator.failed
      ensures old(Inv(sys)) && Sound(old(sys), BeginDeploy(plan, scan)) && HitsOf(plan, copies) == {} ==> Inv(sys)
    {
      var gen := NextGeneration(scan);
      Take(BeginDeploy(plan, scan));
      assert sys.mutator.gen == gen;
      CopyAll(copies);
      assert plan[..|plan|] == plan;
    }

    /** The part of a deploy up to its flip. If a copy, the manifest or the flip fails, the new generation
        is abandoned. */
    method StageAndFlip(plan: seq<Source>, scan: seq<nat>, copies: seq<Copy>, finish: Finish) returns (ok: bool)
      requires sys.mutator.Idle? && plan != [] && |copies| == |plan| && Within(scan, sys.gens)
      modifies this
      ensures LaunchStep(old(sys), sys, MaxOf(scan) + 1, plan, HitsOf(plan, copies), ok)
      ensures ok ==> finish.Completes?
      ensures AllGoesWell(plan, copies, finish) ==> ok
      ensures old(Inv(sys)) && DeploySound(old(sys), plan, scan) && HitsOf(plan, copies) == {} ==> Inv(sys)
    {
      ghost var was := sys;
      Stage(plan, scan, copies);
      ghost var staged := sys;
      if sys.mutator.failed {
        Take(StopMutator);
        return false;
      }
      ok := StampAndFlip(finish);
      Launched(was, staged, sys, MaxOf(scan) + 1, plan, HitsOf(plan, copies), finish);
    }

    /** `weles deploy`: stage a fresh generation and flip to it once every copy and the manifest succeeded. A
        deploy that is refused changes nothing; one that fails later leaves `current`, and every other
        generation that no path leads into, as they were. After success exactly the new generation, the old `current`, the live pin,
        the undeletable and the unscanned survive, untouched but for the undeletable. */
    method Deploy(plan: seq<Source>, fleetValid: bool, scan: seq<nat>, copies: seq<Copy>, finish: Finish, w: Sweep)
      returns (r: DeployResult)
      requires plan != [] && |copies| == |plan| && Within(scan, sys.gens)
      requires forall n :: n in w.scan ==> n in sys.gens || n == MaxOf(scan) + 1
      modifies this
      ensures r == Refused <==> !old(sys).mutator.Idle? || !fleetValid
      ensures r == Refused ==> sys == old(sys)
      ensures r == Abandoned ==> sys.current == old(sys).current && sys.mutator == Idle
                                 && sys.gens.Keys == old(sys).gens.Keys + {MaxOf(scan) + 1}
      ensures r == Abandoned ==> forall g :: g in old(sys).gens && g != MaxOf(scan) + 1 && g !in HitsOf(plan, copies) ==>
                sys.gens[g] == old(sys).gens[g]
      ensures r == Abandoned ==> !AllGoesWell(plan, copies, finish)
      ensures r == Deployed ==> AllPresent(plan) && sys.current == Some(MaxOf(scan) + 1) && sys.mutator == Idle
      ensures r == Deployed ==> MaxOf(scan) + 1 in sys.gens
      ensures r == Deployed && HitsOf(plan, copies) == {} ==>
                sys.gens[MaxOf(scan) + 1] == NewGeneration(old(sys).gens, MaxOf(scan) + 1, plan)
      ensures r == Deployed ==> forall g :: g in sys.gens <==>
                (g in old(sys).gens || g == MaxOf(scan) + 1) &&
                Survives(old(sys), {MaxOf(scan) + 1} + AsSet(old(sys).current), w, g)
      ensures r == Deployed ==> forall g :: g in sys.gens && g != MaxOf(scan) + 1 && g !in HitsOf(plan, copies) ==>
                sys.gens[g] == Left(old(sys), {MaxOf(scan) + 1} + AsSet(old(sys).current), w, g)
      ensures old(Inv(sys)) && DeploySound(old(sys), plan, scan) && HitsOf(plan, copies) == {} ==> Inv(sys)
    {
      if !sys.mutator.Idle? || !fleetValid {
        return Refused;
      }
      ghost var was := sys;
      var ok := StageAndFlip(plan, scan, copies, finish);
      if !ok {
        return Abandoned;
      }
      SameReads(was, sys, w);
      PruneStaleGenerations(w);
      r := Deployed;
    }

    /** The target of a rollback: the one named, or the predecessor of `current`. */
    method RollbackTarget(named: Option<nat>, scan: seq<nat>) returns (target: Option<nat>)
      ensures named.Some? ==> target == named
      ensures named.None? && sys.current.None? ==> target.None?
      ensures named.None? && sys.current.Some? && target.Some? ==>
                target.value in scan && Plausible(sys.gens, target.value, sys.current.value)
      ensures named.None? && sys.current.Some? ==> forall g :: g in scan && Plausible(sys.gens, g, sys.current.value) ==>
                target.Some? && g <= target.value
    {
      if named.Some? || sys.current.None? {
        return named;
      }
      target := PredecessorGeneration(sys.gens, scan, sys.current.value);
    }

    /** `weles rollback`: repoint `current` at an earlier generation that verifies. A rollback that fails
        changes nothing. After success exactly the generations scanned at or above the target, the old
        `current`, the live pin, the undeletable and the unscanned survive. */
    method Rollback(named: Option<nat>, listing: seq<nat>, rb: ReadBack, flips: bool, scan: seq<nat>, w: Sweep)
      returns (ok: bool, target: Option<nat>)
      requires Within(scan, sys.gens) && Within(w.scan, sys.gens)
      modifies this
      ensures !ok ==> sys == old(sys)
      ensures ok ==> target.Some? && target.value in old(sys).gens && Intact(old(sys).gens[target.value])
      ensures ok ==> sys.current == target && sys.mutator == Idle
      ensures ok ==> forall g :: g in sys.gens <==>
                g in old(sys).gens && Survives(old(sys), Above(scan, target.value) + AsSet(old(sys).current), w, g)
      ensures ok ==> forall g :: g in sys.gens ==>
                sys.gens[g] == Left(old(sys), Above(scan, target.value) + AsSet(old(sys).current), w, g)
      ensures named.Some? ==> target == named
      ensures named.None? && old(sys).current.Some? && old(sys).mutator.Idle? ==>
                forall g :: g in listing && Plausible(old(sys).gens, g, old(sys).current.value) ==> target.Some? && g <= target.value
      ensures ok && named.None? ==> old(sys).current.Some? && Plausible(old(sys).gens, target.value, old(sys).current.value)
      ensures old(sys).mutator.Idle? && target.Some? && target.value in old(sys).gens && Untroubled(rb) && flips ==>
                (Intact(old(sys).gens[target.value]) ==> ok)
      ensures ok && old(Inv(sys)) && Complete(scan, old(sys).gens) ==> Inv(sys)
    {
      ghost var was := sys;
      target := RollbackTarget(named, listing);
      if !sys.mutator.Idle? || target.None? || target.value !in sys.gens {
        return false, target;
      }
      var verified := VerifyGeneration(sys.gens[target.value], rb);
      if !verified || !flips {
        return false, target;
      }
      Take(FlipBack(target.value, scan));
      assert sys.mutator.keep == Above(scan, target.value) + AsSet(was.current);
      SameReads(was, sys, w);
      PruneStaleGenerations(w);
      ok := true;
    }
  }

  /** The pin is read from the state file and the supervisors alone. */
  lemma {:induction false} SameReads(s: System, t: System, w: Sweep)
    requires s.state == t.state && s.ups == t.ups
    ensures forall keep, g :: Untouched(s, keep, w, g) <==> Untouched(t, keep, w, g)
  {
  }

  /** The generation that is in use: the one a supervisor that exists recorded, unless terminal. */
  function PinOf(s: System): Option<nat> {
    if s.state.Some? && !s.state.value.terminal && s.state.value.supervisor in s.ups then Some(s.state.value.gen) else None
  }

  /** The read loads, and answers truly whether the supervisor exists. */
  predicate Accurate(s: System, r: PinRead) {
    r.loaded && (s.state.Some? ==> (r.alive <==> s.state.value.supervisor in s.ups))
  }

  /** With complete scans and accurate reads, a rollback keeps exactly what is at or above its target, the
      old `current`, the generation in use and what cannot be deleted; a deploy of number `n` keeps exactly
      itself, the old `current`, the generation in use and what cannot be deleted. */
  lemma {:induction false} RetentionIsExact(s: System, w: Sweep, g: nat, target: nat, n: nat, scan: seq<nat>)
    requires g in s.gens && g in w.scan && Complete(scan, s.gens)
    requires Accurate(s, w.snapshot) && Accurate(s, w.reread(g))
    ensures Survives(s, Above(scan, target) + AsSet(s.current), w, g) <==>
              g >= target || s.current == Some(g) || PinOf(s) == Some(g) || g in w.stuck
    ensures Survives(s, {n} + AsSet(s.current), w, g) <==>
              g == n || s.current == Some(g) || PinOf(s) == Some(g) || g in w.stuck
  {
  }
}
