/** The deploy, rollback and retention protocol over immutable generations, as a transition system in
    which the steps of mutators (`deploy`, `rollback`) and supervisors (`up`) interleave freely and a
    mutator or a supervisor may stop after any step. */
module Generations {
  import opened Prelude
  import opened Staging

  type UpId = nat

  /** `state.json`: which supervisor wrote it, whether its status is terminal, what it pinned. */
  datatype Pin = Pin(supervisor: UpId, terminal: bool, gen: nat)

  /** A file to stage; `None` if the source is missing. */
  datatype Source = Source(file: string, bytes: Option<Bytes>)

  /** The one process inside the mutator lock, and how far it is: copying file number `done`, manifest
      written, pointer flipped, deleting. */
  datatype Mutator =
    | Idle
    | Copying(gen: nat, previous: Option<nat>, plan: seq<Source>, done: nat, failed: bool)
    | Stamped(gen: nat, previous: Option<nat>)
    | Flipped(keep: set<nat>)
    | Sweeping(stale: set<nat>)

  /** A supervisor process: it has read `current`; it has verified that generation; it has checkpointed
      its pin under the rollout lock; it has published a terminal state. */
  datatype Up =
    | Reading(gen: nat)
    | Verified(gen: nat, bytes: Dir)
    | Pinned(gen: nat, bytes: Dir)
    | Finished

  /** `highest` is the greatest number ever used; it is not on disk. */
  datatype System = System(
    gens: map<nat, Dir>,
    current: Option<nat>,
    state: Option<Pin>,
    mutator: Mutator,
    holder: Option<UpId>,
    ups: map<UpId, Up>,
    highest: nat)

  /** One read of the live pin: whether the state file loaded, and what the liveness probe answered. */
  datatype PinRead = PinRead(loaded: bool, alive: bool)

  /** How a removal ends: the directory is gone, or part of it could not be deleted. */
  datatype Removal = Removed | Partial(rest: Dir)

  /** One step. In `CopyNext`, `written` is what reached the destination, if it was created, and `stray` is the
      entry of some generation that a path leading out of the directory hits, if it hits one. */
  datatype Step =
    | BeginDeploy(plan: seq<Source>, scan: seq<nat>)
    | CopyNext(written: Option<Bytes>, complete: bool, stray: Option<(nat, string)>)
    | Stamp
    | StampFails(left: Option<Bytes>)
    | FlipDeployed
    | FlipBack(target: nat, scan: seq<nat>)
    | PlanSweep(read: PinRead, scan: seq<nat>)
    | SweepOne(victim: nat, read: PinRead, removal: Removal)
    | StopMutator
    | ReadCurrent(up: UpId)
    | Verify(up: UpId)
    | TakeLock(up: UpId)
    | PinCheckpoint(up: UpId)
    | Publish(up: UpId, terminal: bool)
    | StopUp(up: UpId)

  function MaxOf(s: seq<nat>): (m: nat)
    ensures forall n :: n in s ==> n <= m
    ensures if s == [] then m == 0 else m in s
  {
    if s == [] then 0
    else
      assert s == s[..|s| - 1] + [s[|s| - 1]];
      Max(MaxOf(s[..|s| - 1]), s[|s| - 1])
  }

  /** The generation a live, non-terminal supervisor recorded, as one read sees it. */
  function LivePin(s: System, r: PinRead): Option<nat> {
    if r.loaded && s.state.Some? && !s.state.value.terminal && r.alive then Some(s.state.value.gen) else None
  }

  function AsSet(o: Option<nat>): set<nat> {
    if o.Some? then {o.value} else {}
  }

  /** What retention deletes: everything scanned that is not protected. */
  function Stale(scan: seq<nat>, keep: set<nat>): set<nat> {
    set n | n in scan && n !in keep
  }

  function Items(plan: seq<Source>): seq<Item> {
    seq(|plan|, i requires 0 <= i < |plan| => Item(plan[i].file, if plan[i].bytes.Some? then plan[i].bytes.value else []))
  }

  predicate Within(scan: seq<nat>, gens: map<nat, Dir>) {
    forall n :: n in scan ==> n in gens
  }

  /** What is left of `d` when some of its files are gone. */
  predicate Part(rest: Dir, d: Dir) {
    forall f :: f in rest ==> f in d && rest[f] == d[f]
  }

  /** The manifest the mutator writes at the end of its copies. */
  function NewManifest(m: Mutator): Manifest
    requires m.Copying? && m.plan != []
  {
    ManifestOf(m.gen, Items(m.plan))
  }

  /** Every copy is done and none failed. */
  predicate Staged(s: System) {
    && s.mutator.Copying? && s.mutator.done == |s.mutator.plan| && s.mutator.plan != [] && !s.mutator.failed
    && s.mutator.gen in s.gens
  }

  predicate Enabled(s: System, step: Step) {
    match step
    case BeginDeploy(plan, scan) => s.mutator.Idle? && plan != [] && Within(scan, s.gens)
    case CopyNext(written, complete, stray) =>
      && s.mutator.Copying? && s.mutator.done < |s.mutator.plan| && s.mutator.gen in s.gens
      && var src := s.mutator.plan[s.mutator.done];
         && (written.Some? ==> src.bytes.Some? && written.value <= src.bytes.value)
         && (complete ==> written.Some? && written == src.bytes)
         && (stray.Some? ==> Entry(src.file).None? && stray.value.0 in s.gens)
    case Stamp => Staged(s)
    case StampFails(left) => Staged(s) && (left.Some? ==> left.value <= Render(NewManifest(s.mutator)))
    case FlipDeployed => s.mutator.Stamped?
    case FlipBack(target, scan) => s.mutator.Idle? && target in s.gens && Intact(s.gens[target]) && Within(scan, s.gens)
    case PlanSweep(_, scan) => s.mutator.Flipped? && Within(scan, s.gens)
    case SweepOne(victim, _, removal) =>
      && s.mutator.Sweeping? && victim in s.mutator.stale && victim in s.gens
      && (removal.Partial? ==> Part(removal.rest, s.gens[victim]))
    case StopMutator => true
    case ReadCurrent(u) => u !in s.ups && s.current.Some? && s.current.value in s.gens
    case Verify(u) => u in s.ups && s.ups[u].Reading? && s.ups[u].gen in s.gens && Intact(s.gens[s.ups[u].gen])
    case TakeLock(u) => u in s.ups && s.ups[u].Verified? && s.holder.None?
    case PinCheckpoint(u) => u in s.ups && s.ups[u].Verified? && s.holder == Some(u)
    case Publish(u, _) => u in s.ups && s.ups[u].Pinned?
    case StopUp(u) => u in s.ups
  }

  function Next(s: System, step: Step): System
    requires Enabled(s, step)
  {
    match step
    case BeginDeploy(plan, scan) =>
      var gen := MaxOf(scan) + 1;
      s.(gens := s.gens[gen := if gen in s.gens then s.gens[gen] else map[]],
         mutator := Copying(gen, s.current, plan, 0, false),
         highest := Max(s.highest, gen))
    case CopyNext(written, complete, stray) =>
      var m := s.mutator;
      var src := m.plan[m.done];
      s.(gens := if written.None? then s.gens
                 else if stray.Some? then s.gens[stray.value.0 := s.gens[stray.value.0][stray.value.1 := written.value]]
                 else s.gens[m.gen := Put(s.gens[m.gen], Item(src.file, written.value))],
         mutator := m.(done := m.done + 1, failed := m.failed || !complete))
    case Stamp =>
      var m := s.mutator;
      s.(gens := s.gens[m.gen := s.gens[m.gen][MANIFEST := Render(NewManifest(m))]],
         mutator := Stamped(m.gen, m.previous))
    case StampFails(left) =>
      var m := s.mutator;
      s.(gens := if left.Some? then s.gens[m.gen := s.gens[m.gen][MANIFEST := left.value]] else s.gens,
         mutator := Idle)
    case FlipDeployed =>
      var m := s.mutator;
      s.(current := Some(m.gen), mutator := Flipped({m.gen} + AsSet(m.previous)))
    case FlipBack(target, scan) =>
      s.(current := Some(target),
         mutator := Flipped((set n | n in scan && n >= target) + AsSet(s.current)))
    case PlanSweep(read, scan) =>
      s.(mutator := Sweeping(Stale(scan, s.mutator.keep + AsSet(LivePin(s, read)))))
    case SweepOne(victim, read, removal) =>
      s.(mutator := Sweeping(s.mutator.stale - {victim}),
         gens := if LivePin(s, read) == Some(victim) then s.gens
                 else if removal.Removed? then s.gens - {victim}
                 else s.gens[victim := removal.rest])
    case StopMutator => s.(mutator := Idle)
    case ReadCurrent(u) => s.(ups := s.ups[u := Reading(s.current.value)])
    case Verify(u) => s.(ups := s.ups[u := Verified(s.ups[u].gen, s.gens[s.ups[u].gen])])
    case TakeLock(u) => s.(holder := Some(u))
    case PinCheckpoint(u) =>
      s.(state := Some(Pin(u, false, s.ups[u].gen)), ups := s.ups[u := Pinned(s.ups[u].gen, s.ups[u].bytes)])
    case Publish(u, terminal) =>
      s.(state := Some(Pin(u, terminal, s.ups[u].gen)), ups := if terminal then s.ups[u := Finished] else s.ups)
    case StopUp(u) =>
      s.(ups := s.ups - {u}, holder := if s.holder == Some(u) then None else s.holder)
  }

  // ---------------------------------------------------------------------------------------------
  // Hypotheses on the outside world
  // ---------------------------------------------------------------------------------------------

  predicate Complete(scan: seq<nat>, gens: map<nat, Dir>) {
    Within(scan, gens) && forall n :: n in gens ==> n in scan
  }

  predicate AllPresent(plan: seq<Source>) {
    forall i :: 0 <= i < |plan| ==> plan[i].bytes.Some?
  }

  /** The state file loads, and a supervisor that exists is probed alive. */
  predicate Reliable(s: System, r: PinRead) {
    r.loaded && (s.state.Some? && s.state.value.supervisor in s.ups ==> r.alive)
  }

  // Each result below names the hypotheses it needs.

  /** The directory scans that number a deploy and widen a rollback's retention are complete. */
  predicate CompleteScans(s: System, step: Step) {
    match step
    case BeginDeploy(_, scan) => Complete(scan, s.gens)
    case FlipBack(_, scan) => Complete(scan, s.gens)
    case _ => true
  }

  /** A deploy's number is not on disk. */
  predicate NewNumber(s: System, step: Step) {
    step.BeginDeploy? ==> MaxOf(step.scan) + 1 !in s.gens
  }

  /** The pin is re-read reliably right before a deletion. */
  predicate ReliableReread(s: System, step: Step) {
    step.SweepOne? ==> Reliable(s, step.read)
  }

  /** No copy is written into another generation. */
  predicate StaysInside(s: System, step: Step) {
    step.CopyNext? ==> step.stray.None?
  }

  /** The paths of a plan that can be carried out lead to entries of the directory and do not clash, and a
      manifest that was written parses. */
  predicate NamesApart(s: System, step: Step) {
    match step
    case BeginDeploy(plan, scan) =>
      plan != [] && AllPresent(plan) ==> AllDirect(Items(plan)) && Consistent(Written(MaxOf(scan) + 1, Items(plan)))
    case Stamp => s.mutator.Copying? && s.mutator.plan != [] ==> ReadsBack(NewManifest(s.mutator))
    case _ => true
  }

  predicate AllInOrder(s: System, step: Step) {
    CompleteScans(s, step) && NewNumber(s, step) && ReliableReread(s, step) && StaysInside(s, step) && NamesApart(s, step)
  }

  predicate PossibleRun(s: System, steps: seq<Step>)
    decreases steps
  {
    steps != [] ==> Enabled(s, steps[0]) && PossibleRun(Next(s, steps[0]), steps[1..])
  }

  function After(s: System, steps: seq<Step>): System
    requires PossibleRun(s, steps)
    decreases steps
  {
    if steps == [] then s else After(Next(s, steps[0]), steps[1..])
  }

  /** The hypothesis holds at every step of the run. */
  predicate Along(h: (System, Step) -> bool, s: System, steps: seq<Step>)
    requires PossibleRun(s, steps)
    decreases steps
  {
    steps != [] ==> h(s, steps[0]) && Along(h, Next(s, steps[0]), steps[1..])
  }

  /** An empty deploy directory and nobody at work. */
  predicate Initial(s: System) {
    s == System(map[], None, None, Idle, None, map[], 0)
  }

  // ---------------------------------------------------------------------------------------------
  // Numbers
  // ---------------------------------------------------------------------------------------------

  /** Numbers in use never exceed the highest ever used, which itself stays. */
  ghost predicate DiskInv(s: System) {
    && (forall g :: g in s.gens ==> 1 <= g <= s.highest)
    && (s.highest > 0 ==> s.highest in s.gens)
  }

  /** A number in use that is not being staged. */
  predicate Settled(s: System, g: nat) {
    g <= s.highest && (s.mutator.Copying? ==> g != s.mutator.gen)
  }

  ghost predicate NumberInv(s: System) {
    && DiskInv(s)
    && (s.current.Some? ==> Settled(s, s.current.value))
    && match s.mutator
       case Idle => true
       case Copying(gen, _, _, _, _) => gen == s.highest
       case Stamped(gen, _) => gen == s.highest
       case Flipped(keep) => s.highest in keep
       case Sweeping(stale) => s.highest !in stale
  }

  /** The next number is one never used before exactly when the scan sees the highest one; a scan that
      fails, and so comes back empty, starts again at number one. */
  lemma {:induction false} NumberIsFreshIff(s: System, scan: seq<nat>)
    requires DiskInv(s) && Within(scan, s.gens)
    ensures MaxOf(scan) + 1 > s.highest <==> s.highest == 0 || s.highest in scan
    ensures scan == [] ==> MaxOf(scan) + 1 == 1
  {
    if s.highest > 0 && MaxOf(scan) + 1 > s.highest {
      assert MaxOf(scan) in scan && MaxOf(scan) == s.highest;
    }
  }

  lemma {:induction false} NextNumberIsFresh(s: System, scan: seq<nat>)
    requires DiskInv(s) && Complete(scan, s.gens)
    ensures MaxOf(scan) == s.highest
  {
  }

  /** Complete scans are all that numbering needs: whatever else goes wrong, misread pins and paths that lead
      out included, every step keeps the numbers in order. */
  lemma {:induction false} StepKeepsNumbers(s: System, step: Step)
    requires NumberInv(s) && Enabled(s, step) && CompleteScans(s, step)
    ensures NumberInv(Next(s, step)) && s.highest <= Next(s, step).highest
  {
    if step.BeginDeploy? {
      NextNumberIsFresh(s, step.scan);
    }
  }

  lemma {:induction false} RunKeepsNumbers(s: System, steps: seq<Step>)
    requires NumberInv(s) && PossibleRun(s, steps) && Along(CompleteScans, s, steps)
    ensures NumberInv(After(s, steps)) && s.highest <= After(s, steps).highest
    decreases steps
  {
    if steps != [] {
      StepKeepsNumbers(s, steps[0]);
      RunKeepsNumbers(Next(s, steps[0]), steps[1..]);
    }
  }

  /** Generation numbers are never reused: in every history with complete scans, the number a deploy takes is
      greater than every number that was ever on disk. */
  lemma {:induction false} NumbersAreNeverReused(s: System, before: seq<Step>, between: seq<Step>, scan: seq<nat>, g: nat)
    requires NumberInv(s) && PossibleRun(s, before) && Along(CompleteScans, s, before)
    requires var t := After(s, before); PossibleRun(t, between) && Along(CompleteScans, t, between)
    requires Complete(scan, After(After(s, before), between).gens)
    requires g in After(s, before).gens
    ensures MaxOf(scan) + 1 > g
    ensures MaxOf(scan) + 1 !in After(After(s, before), between).gens
  {
    RunKeepsNumbers(s, before);
    RunKeepsNumbers(After(s, before), between);
    NextNumberIsFresh(After(After(s, before), between), scan);
  }

  // ---------------------------------------------------------------------------------------------
  // What supervisors run
  // ---------------------------------------------------------------------------------------------

  predicate OnlyHolds(s: System, g: nat, bytes: Dir) {
    g in s.gens ==> Part(s.gens[g], bytes)
  }

  /** The generation a supervisor looks at is not the one being staged, and a verified supervisor's generation
      holds nothing but what was verified. */
  ghost predicate SpawnInv(s: System) {
    forall u :: u in s.ups ==>
      match s.ups[u]
      case Reading(g) => Settled(s, g)
      case Verified(g, bytes) => Settled(s, g) && OnlyHolds(s, g, bytes)
      case Pinned(g, bytes) => Settled(s, g) && OnlyHolds(s, g, bytes)
      case Finished => true
  }

  lemma {:induction false} StepKeepsSpawns(s: System, step: Step)
    requires NumberInv(s) && SpawnInv(s) && Enabled(s, step) && CompleteScans(s, step) && StaysInside(s, step)
    ensures SpawnInv(Next(s, step))
  {
    if step.BeginDeploy? {
      NextNumberIsFresh(s, step.scan);
    }
  }

  lemma {:induction false} RunKeepsSpawns(s: System, steps: seq<Step>)
    requires NumberInv(s) && SpawnInv(s) && PossibleRun(s, steps)
    requires Along(CompleteScans, s, steps) && Along(StaysInside, s, steps)
    ensures NumberInv(After(s, steps)) && SpawnInv(After(s, steps))
    decreases steps
  {
    if steps != [] {
      StepKeepsNumbers(s, steps[0]);
      StepKeepsSpawns(s, steps[0]);
      RunKeepsSpawns(Next(s, steps[0]), steps[1..]);
    }
  }

  /** What a spawn or respawn of supervisor `u` finds at `path`. */
  function Binary(s: System, u: UpId, path: string): Option<Bytes>
    requires u in s.ups && (s.ups[u].Verified? || s.ups[u].Pinned?) && Entry(path).Some?
  {
    var g, name := s.ups[u].gen, Entry(path).value;
    if g in s.gens && name in s.gens[g] then Some(s.gens[g][name]) else None
  }

  predicate Keeps(s: System, t: System, u: UpId) {
    && u in s.ups && u in t.ups
    && (s.ups[u].Verified? || s.ups[u].Pinned?) && (t.ups[u].Verified? || t.ups[u].Pinned?)
    && t.ups[u].gen == s.ups[u].gen && t.ups[u].bytes == s.ups[u].bytes
  }

  predicate Leaves(step: Step, u: UpId) {
    step == StopUp(u) || step == Publish(u, true)
  }

  lemma {:induction false} UpKeepsBytes(s: System, steps: seq<Step>, u: UpId)
    requires PossibleRun(s, steps) && Keeps(s, s, u)
    requires forall k :: 0 <= k < |steps| ==> !Leaves(steps[k], u)
    ensures Keeps(s, After(s, steps), u)
    decreases steps
  {
    if steps != [] {
      assert Keeps(s, Next(s, steps[0]), u);
      UpKeepsBytes(Next(s, steps[0]), steps[1..], u);
    }
  }

  /** Every spawn and respawn of one supervisor runs exactly the bytes it verified at discover, or finds
      no file: never another generation's bytes, whatever deploys, rollbacks and deletions happen. A pin that
      is misread, so that the running generation is deleted, is no exception. */
  lemma {:induction false} SpawnsRunVerifiedBytes(s: System, steps: seq<Step>, u: UpId, path: string)
    requires NumberInv(s) && SpawnInv(s) && Keeps(s, s, u) && Entry(path).Some?
    requires PossibleRun(s, steps) && Along(CompleteScans, s, steps) && Along(StaysInside, s, steps)
    requires forall k :: 0 <= k < |steps| ==> !Leaves(steps[k], u)
    ensures Keeps(s, After(s, steps), u)
    ensures var found := Binary(After(s, steps), u, path);
            found.Some? ==> Entry(path).value in s.ups[u].bytes && found.value == s.ups[u].bytes[Entry(path).value]
  {
    UpKeepsBytes(s, steps, u);
    RunKeepsSpawns(s, steps);
  }

  // ---------------------------------------------------------------------------------------------
  // What supervisors pin
  // ---------------------------------------------------------------------------------------------

  /** A run is its first `k` steps and then the others. */
  lemma {:induction false} Split(h: (System, Step) -> bool, s: System, steps: seq<Step>, k: nat)
    requires PossibleRun(s, steps) && k <= |steps|
    ensures PossibleRun(s, steps[..k]) && PossibleRun(After(s, steps[..k]), steps[k..])
    ensures After(s, steps) == After(After(s, steps[..k]), steps[k..])
    ensures Along(h, s, steps) ==> Along(h, s, steps[..k]) && Along(h, After(s, steps[..k]), steps[k..])
    decreases k
  {
    if k == 0 {
      assert steps[..0] == [] && steps[0..] == steps;
    } else {
      Split(h, Next(s, steps[0]), steps[1..], k - 1);
      assert steps[..k][0] == steps[0] && steps[..k][1..] == steps[1..][..k - 1] && steps[1..][k - 1..] == steps[k..];
    }
  }

  /** The state after step `k`, and after the `n` steps from step `k` on. */
  lemma {:induction false} StepAt(s: System, steps: seq<Step>, k: nat)
    requires PossibleRun(s, steps) && k < |steps|
    ensures PossibleRun(s, steps[..k]) && Enabled(After(s, steps[..k]), steps[k])
    ensures PossibleRun(s, steps[..k + 1]) && After(s, steps[..k + 1]) == Next(After(s, steps[..k]), steps[k])
    decreases k
  {
    if k == 0 {
      assert steps[..1][1..] == [] && steps[..0] == [];
      assert PossibleRun(Next(s, steps[0]), []);
    } else {
      StepAt(Next(s, steps[0]), steps[1..], k - 1);
      assert steps[..k][0] == steps[0] && steps[..k][1..] == steps[1..][..k - 1];
      assert steps[..k + 1][0] == steps[0] && steps[..k + 1][1..] == steps[1..][..k];
    }
  }

  lemma {:induction false} StepsFrom(s: System, steps: seq<Step>, k: nat, n: nat)
    requires PossibleRun(s, steps) && k + n <= |steps|
    ensures PossibleRun(s, steps[..k]) && PossibleRun(After(s, steps[..k]), steps[k..][..n])
    ensures PossibleRun(s, steps[..k + n]) && After(s, steps[..k + n]) == After(After(s, steps[..k]), steps[k..][..n])
  {
    Split(CompleteScans, s, steps, k + n);
    Split(CompleteScans, s, steps[..k + n], k);
    assert steps[..k + n][..k] == steps[..k] && steps[..k + n][k..] == steps[k..][..n];
  }

  /** `u` looks at a generation. */
  predicate Looks(s: System, u: UpId) {
    u in s.ups && !s.ups[u].Finished?
  }

  predicate HasVerified(s: System, u: UpId) {
    u in s.ups && (s.ups[u].Verified? || s.ups[u].Pinned?)
  }

  /** No step of the run is `u` reading `current`. */
  predicate NoRead(steps: seq<Step>, u: UpId) {
    forall j :: 0 <= j < |steps| ==> steps[j] != ReadCurrent(u)
  }

  /** Step `k` is the last at which `u` reads `current`. */
  predicate LastRead(steps: seq<Step>, u: UpId, k: nat) {
    k < |steps| && steps[k] == ReadCurrent(u) && NoRead(steps[k + 1..], u)
  }

  /** Without reading `current` again nobody comes to look at a generation, or at another one. */
  lemma {:induction false} LookStays(s: System, steps: seq<Step>, u: UpId)
    requires PossibleRun(s, steps) && NoRead(steps, u) && Looks(After(s, steps), u)
    ensures Looks(s, u) && After(s, steps).ups[u].gen == s.ups[u].gen
    ensures HasVerified(s, u) ==> Keeps(s, After(s, steps), u)
    decreases steps
  {
    if steps != [] {
      LookStays(Next(s, steps[0]), steps[1..], u);
      assert steps[0] != ReadCurrent(u);
    }
  }

  lemma {:induction false} FindLastRead(s: System, steps: seq<Step>, u: UpId) returns (k: nat)
    requires PossibleRun(s, steps) && !Looks(s, u) && Looks(After(s, steps), u)
    ensures LastRead(steps, u, k)
    decreases steps
  {
    if NoRead(steps[1..], u) {
      k := 0;
      if steps[0] != ReadCurrent(u) {
        assert NoRead(steps, u);
        LookStays(s, steps, u);
      }
    } else {
      k := FindLast(steps[1..], u);
      k := k + 1;
      assert steps[1..][k..] == steps[k + 1..];
    }
  }

  lemma {:induction false} FindLast(steps: seq<Step>, u: UpId) returns (k: nat)
    requires !NoRead(steps, u)
    ensures LastRead(steps, u, k)
  {
    if NoRead(steps[1..], u) {
      k := 0;
    } else {
      k := FindLast(steps[1..], u);
      k := k + 1;
      assert steps[1..][k..] == steps[k + 1..];
    }
  }

  /** A supervisor's generation, from discover to the end of its run, is the one that `current` named when it last
      read it, in every history. */
  lemma {:induction false} PinsWhatCurrentNamed(s: System, steps: seq<Step>, u: UpId, k: nat)
    requires PossibleRun(s, steps) && Looks(After(s, steps), u) && LastRead(steps, u, k)
    ensures PossibleRun(s, steps[..k])
    ensures After(s, steps[..k]).current == Some(After(s, steps).ups[u].gen)
  {
    Split(CompleteScans, s, steps, k);
    var read := After(s, steps[..k]);
    assert steps[k..][0] == ReadCurrent(u) && steps[k..][1..] == steps[k + 1..];
    LookStays(Next(read, ReadCurrent(u)), steps[k + 1..], u);
  }

  /** What the supervisor verified is what its generation held before step `m`, and it was intact. */
  predicate VerifiedAt(s: System, steps: seq<Step>, m: nat, up: Up)
    requires m <= |steps| && PossibleRun(s, steps[..m]) && (up.Verified? || up.Pinned?)
  {
    var v := After(s, steps[..m]);
    up.gen in v.gens && up.bytes == v.gens[up.gen] && Intact(up.bytes)
  }

  /** Whoever only reads `current` at first and has verified at the end did so at some step in between. */
  lemma {:induction false} FindVerify(s: System, steps: seq<Step>, u: UpId) returns (m: nat)
    requires PossibleRun(s, steps) && NoRead(steps, u) && !HasVerified(s, u) && HasVerified(After(s, steps), u)
    ensures m < |steps| && steps[m] == Verify(u) && PossibleRun(s, steps[..m])
    ensures VerifiedAt(s, steps, m, After(s, steps).ups[u])
    decreases steps
  {
    var t := Next(s, steps[0]);
    if HasVerified(t, u) {
      m := 0;
      LookStays(t, steps[1..], u);
    } else {
      m := FindVerify(t, steps[1..], u);
      m := m + 1;
      assert steps[..m][0] == steps[0] && steps[..m][1..] == steps[1..][..m - 1];
    }
  }

  /** A generation that is not being staged only loses files. */
  predicate OnlyLoses(s: System, t: System, g: nat) {
    Settled(t, g) && (g in t.gens ==> g in s.gens && Part(t.gens[g], s.gens[g]))
  }

  lemma {:induction false} StepOnlyLoses(s: System, step: Step, g: nat)
    requires NumberInv(s) && Settled(s, g) && Enabled(s, step) && CompleteScans(s, step) && StaysInside(s, step)
    ensures OnlyLoses(s, Next(s, step), g)
  {
    if step.BeginDeploy? {
      NextNumberIsFresh(s, step.scan);
    }
  }

  lemma {:induction false} RunOnlyLoses(s: System, steps: seq<Step>, g: nat)
    requires NumberInv(s) && Settled(s, g) && PossibleRun(s, steps)
    requires Along(CompleteScans, s, steps) && Along(StaysInside, s, steps)
    ensures OnlyLoses(s, After(s, steps), g)
    decreases steps
  {
    if steps != [] {
      StepKeepsNumbers(s, steps[0]);
      StepOnlyLoses(s, steps[0], g);
      RunOnlyLoses(Next(s, steps[0]), steps[1..], g);
    }
  }

  lemma {:induction false} AfterRead(s: System, steps: seq<Step>, u: UpId, k: nat)
    requires PossibleRun(s, steps) && k < |steps| && steps[k] == ReadCurrent(u)
    ensures PossibleRun(s, steps[..k + 1]) && !HasVerified(After(s, steps[..k + 1]), u)
    ensures PossibleRun(After(s, steps[..k + 1]), steps[k + 1..])
    ensures After(s, steps) == After(After(s, steps[..k + 1]), steps[k + 1..])
  {
    StepAt(s, steps, k);
    Split(CompleteScans, s, steps, k + 1);
  }

  lemma {:induction false} FindVerifyAfter(s: System, steps: seq<Step>, u: UpId, k: nat) returns (m: nat)
    requires PossibleRun(s, steps) && LastRead(steps, u, k) && HasVerified(After(s, steps), u)
    ensures k < m < |steps| && steps[m] == Verify(u) && PossibleRun(s, steps[..m])
    ensures VerifiedAt(s, steps, m, After(s, steps).ups[u])
  {
    AfterRead(s, steps, u, k);
    m := FindVerify(After(s, steps[..k + 1]), steps[k + 1..], u);
    StepsFrom(s, steps, k + 1, m);
    m := k + 1 + m;
  }

  /** The read and the verification behind a verified supervisor: it read `current` at step `k` and verified at
      step `m` what was then on disk. */
  lemma {:induction false} Discovered(s: System, steps: seq<Step>, u: UpId) returns (k: nat, m: nat)
    requires PossibleRun(s, steps) && !Looks(s, u) && HasVerified(After(s, steps), u)
    ensures LastRead(steps, u, k) && k < m < |steps| && steps[m] == Verify(u)
    ensures PossibleRun(s, steps[..k]) && PossibleRun(s, steps[..m])
    ensures After(s, steps[..k]).current == Some(After(s, steps).ups[u].gen)
    ensures VerifiedAt(s, steps, m, After(s, steps).ups[u])
  {
    k := FindLastRead(s, steps, u);
    PinsWhatCurrentNamed(s, steps, u, k);
    m := FindVerifyAfter(s, steps, u, k);
  }

  /** Every spawn and respawn of a supervisor, in every history with complete scans and no copy that strays, finds at a
      path exactly the bytes that the generation named by `current` held there when the supervisor read `current`,
      or no file; and what it verified was intact. */
  lemma {:induction false} SpawnsRunCurrentBytes(s: System, steps: seq<Step>, u: UpId, path: string) returns (k: nat, m: nat)
    requires NumberInv(s) && SpawnInv(s) && !Looks(s, u) && Entry(path).Some?
    requires PossibleRun(s, steps) && Along(CompleteScans, s, steps) && Along(StaysInside, s, steps)
    requires HasVerified(After(s, steps), u)
    ensures LastRead(steps, u, k) && k < m < |steps| && steps[m] == Verify(u)
    ensures PossibleRun(s, steps[..k]) && PossibleRun(s, steps[..m])
    ensures After(s, steps[..k]).current.Some?
    ensures var g, name := After(s, steps[..k]).current.value, Entry(path).value;
            var read, verified := After(s, steps[..k]).gens, After(s, steps[..m]).gens;
            var found := Binary(After(s, steps), u, path);
            && g in read && g in verified && Intact(verified[g])
            && (found.Some? ==> name in verified[g] && found.value == verified[g][name])
            && (found.Some? ==> name in read[g] && found.value == read[g][name])
  {
    k, m := Discovered(s, steps, u);
    Split(CompleteScans, s, steps, k);
    Split(StaysInside, s, steps, k);
    RunKeepsSpawns(s, steps);
    RunKeepsSpawns(s, steps[..k]);
    var read, g := After(s, steps[..k]), After(s, steps).ups[u].gen;
    assert steps[k..][0] == ReadCurrent(u);
    RunOnlyLoses(read, steps[k..], g);
  }

  // ---------------------------------------------------------------------------------------------
  // Pins
  // ---------------------------------------------------------------------------------------------

  /** A pinned supervisor holds the rollout lock, and its pin is what the state file says. */
  ghost predicate LockInv(s: System) {
    && (s.holder.Some? ==> s.holder.value in s.ups)
    && (forall u :: u in s.ups && s.ups[u].Pinned? ==> s.holder == Some(u) && s.state == Some(Pin(u, false, s.ups[u].gen)))
  }

  /** The rollout lock alone sees to that. */
  lemma {:induction false} StepKeepsLock(s: System, step: Step)
    requires LockInv(s) && Enabled(s, step)
    ensures LockInv(Next(s, step))
  {
  }

  lemma {:induction false} RunKeepsLock(s: System, steps: seq<Step>)
    requires LockInv(s) && PossibleRun(s, steps)
    ensures LockInv(After(s, steps))
    decreases steps
  {
    if steps != [] {
      StepKeepsLock(s, steps[0]);
      RunKeepsLock(Next(s, steps[0]), steps[1..]);
    }
  }

  lemma {:induction false} NoPinWithoutCheckpoint(s: System, steps: seq<Step>, read: PinRead)
    requires LockInv(s) && s.state.Some? && s.state.value.terminal && PossibleRun(s, steps)
    requires forall k :: 0 <= k < |steps| ==> !steps[k].PinCheckpoint?
    ensures LivePin(After(s, steps), read) == None
    decreases steps
  {
    if steps != [] {
      StepKeepsLock(s, steps[0]);
      assert !steps[0].PinCheckpoint?;
      NoPinWithoutCheckpoint(Next(s, steps[0]), steps[1..], read);
    }
  }

  /** Publishing a terminal state releases the pin: until somebody checkpoints a pin again, no read sees one. */
  lemma {:induction false} TerminalReleasesPin(s: System, u: UpId, steps: seq<Step>, read: PinRead)
    requires LockInv(s) && Enabled(s, Publish(u, true)) && PossibleRun(Next(s, Publish(u, true)), steps)
    requires forall k :: 0 <= k < |steps| ==> !steps[k].PinCheckpoint?
    ensures LivePin(After(Next(s, Publish(u, true)), steps), read) == None
  {
    StepKeepsLock(s, Publish(u, true));
    NoPinWithoutCheckpoint(Next(s, Publish(u, true)), steps, read);
  }

  /** `u` has pinned a generation that is on disk and is not the one being staged. */
  predicate HasPinned(s: System, u: UpId) {
    && u in s.ups && s.ups[u].Pinned? && s.ups[u].gen in s.gens
    && (s.mutator.Copying? ==> s.mutator.gen != s.ups[u].gen)
  }

  lemma {:induction false} StepSparesPin(s: System, step: Step, u: UpId)
    requires LockInv(s) && HasPinned(s, u) && Enabled(s, step) && !Leaves(step, u)
    requires NewNumber(s, step) && ReliableReread(s, step) && StaysInside(s, step)
    ensures var t := Next(s, step);
            HasPinned(t, u) && t.ups[u] == s.ups[u] && t.gens[s.ups[u].gen] == s.gens[s.ups[u].gen]
  {
  }

  /** Pin safety: from its critical checkpoint until it publishes a terminal state or its process ends,
      the generation a supervisor pinned is neither removed nor changed in a single file, in every
      interleaving with any number of deploys, failed deploys, rollbacks and deletions. Clashing names,
      manifests that do not parse and incomplete scans do no harm, as long as no deploy takes a number that is
      on disk. */
  lemma {:induction false} PinnedGenerationSurvives(s: System, steps: seq<Step>, u: UpId)
    requires LockInv(s) && HasPinned(s, u) && PossibleRun(s, steps)
    requires Along(NewNumber, s, steps) && Along(ReliableReread, s, steps) && Along(StaysInside, s, steps)
    requires forall k :: 0 <= k < |steps| ==> !Leaves(steps[k], u)
    ensures var t := After(s, steps);
            HasPinned(t, u) && t.ups[u] == s.ups[u] && t.gens[s.ups[u].gen] == s.gens[s.ups[u].gen]
    decreases steps
  {
    if steps != [] {
      StepKeepsLock(s, steps[0]);
      StepSparesPin(s, steps[0], u);
      PinnedGenerationSurvives(Next(s, steps[0]), steps[1..], u);
    }
  }

  /** The same over a whole history: with complete scans up to the checkpoint, the generation pinned there is
      not the one being staged. */
  lemma {:induction false} PinSafety(s: System, before: seq<Step>, steps: seq<Step>, u: UpId)
    requires Initial(s) && PossibleRun(s, before) && Along(CompleteScans, s, before) && Along(StaysInside, s, before)
    requires var p := After(s, before);
             && u in p.ups && p.ups[u].Pinned? && p.ups[u].gen in p.gens && PossibleRun(p, steps)
             && Along(NewNumber, p, steps) && Along(ReliableReread, p, steps) && Along(StaysInside, p, steps)
    requires forall k :: 0 <= k < |steps| ==> !Leaves(steps[k], u)
    ensures var p, t := After(s, before), After(After(s, before), steps);
            HasPinned(t, u) && t.ups[u] == p.ups[u] && t.gens[p.ups[u].gen] == p.gens[p.ups[u].gen]
  {
    RunKeepsSpawns(s, before);
    RunKeepsLock(s, before);
    PinnedGenerationSurvives(After(s, before), steps, u);
  }

  // ---------------------------------------------------------------------------------------------
  // The current generation
  // ---------------------------------------------------------------------------------------------

  ghost predicate CurrentInv(s: System) {
    s.current.Some? ==> s.current.value in s.gens && Intact(s.gens[s.current.value])
  }

  ghost predicate FilesInv(s: System) {
    match s.mutator
    case Idle => true
    case Copying(gen, _, plan, done, failed) =>
      && gen in s.gens && done <= |plan| && plan != []
      && (AllPresent(plan) ==> AllDirect(Items(plan)) && Consistent(Written(gen, Items(plan))))
      && (!failed ==> AllPresent(plan[..done]) && s.gens[gen] == FilesOf(Items(plan[..done])))
    case Stamped(gen, _) => gen in s.gens && Intact(s.gens[gen])
    case Flipped(keep) => s.current.Some? && s.current.value in keep
    case Sweeping(stale) => s.current.Some? && s.current.value !in stale
  }

  /** Everything a run with complete scans, names apart and no copy that strays keeps. */
  ghost predicate Inv(s: System) {
    NumberInv(s) && SpawnInv(s) && LockInv(s) && CurrentInv(s) && FilesInv(s)
  }

  predicate Sound(s: System, step: Step) {
    CompleteScans(s, step) && NamesApart(s, step) && StaysInside(s, step)
  }

  lemma {:induction false} BeginKeepsFiles(s: System, step: Step)
    requires NumberInv(s) && CurrentInv(s) && FilesInv(s) && step.BeginDeploy? && Enabled(s, step) && Sound(s, step)
    ensures CurrentInv(Next(s, step)) && FilesInv(Next(s, step))
  {
    NextNumberIsFresh(s, step.scan);
    assert FilesOf(Items(step.plan[..0])) == map[];
  }

  lemma {:induction false} OneMoreFile(d: Dir, plan: seq<Source>, done: nat)
    requires done < |plan|
    ensures AllPresent(plan[..done + 1]) <==> AllPresent(plan[..done]) && plan[done].bytes.Some?
    ensures plan[done].bytes.Some? ==>
              Overlay(d, Items(plan[..done + 1])) ==
              Put(Overlay(d, Items(plan[..done])), Item(plan[done].file, plan[done].bytes.value))
  {
    var upTo := plan[..done + 1];
    assert upTo == plan[..done] + [plan[done]];
    assert Items(upTo)[..done] == Items(plan[..done]);
  }

  lemma {:induction false} CopyKeepsFiles(s: System, step: Step)
    requires NumberInv(s) && CurrentInv(s) && FilesInv(s) && step.CopyNext? && Enabled(s, step) && Sound(s, step)
    ensures CurrentInv(Next(s, step)) && FilesInv(Next(s, step))
  {
    var m := s.mutator;
    OneMoreFile(map[], m.plan, m.done);
  }

  lemma {:induction false} OverlayLast(d: Dir, items: seq<Item>, i: Item)
    ensures Overlay(d, items + [i]) == Put(Overlay(d, items), i)
  {
    assert (items + [i])[..|items|] == items;
  }

  /** A stamped generation verifies exactly when the paths written do not clash. */
  lemma {:induction false} StampedVerifiesIff(s: System)
    requires FilesInv(s) && Enabled(s, Stamp) && ReadsBack(NewManifest(s.mutator))
    ensures var m := s.mutator;
            && Next(s, Stamp).gens[m.gen] == FilesOf(Written(m.gen, Items(m.plan)))
            && (Intact(Next(s, Stamp).gens[m.gen]) <==> Consistent(Written(m.gen, Items(m.plan))))
  {
    var m := s.mutator;
    assert m.plan[..m.done] == m.plan && AllPresent(m.plan);
    ManifestEntry();
    OverlayLast(map[], Items(m.plan), Item(MANIFEST, Render(NewManifest(m))));
    StagedIsIntactIffConsistent(m.gen, Items(m.plan));
  }

  lemma {:induction false} StampKeepsFiles(s: System, step: Step)
    requires NumberInv(s) && CurrentInv(s) && FilesInv(s) && (step.Stamp? || step.StampFails?)
    requires Enabled(s, step) && Sound(s, step)
    ensures CurrentInv(Next(s, step)) && FilesInv(Next(s, step))
  {
    var m := s.mutator;
    assert m.plan[..m.done] == m.plan;
    if step.Stamp? {
      StampedVerifiesIff(s);
    }
  }

  lemma {:induction false} OtherKeepsFiles(s: System, step: Step)
    requires NumberInv(s) && CurrentInv(s) && FilesInv(s) && Enabled(s, step) && Sound(s, step)
    requires !step.BeginDeploy? && !step.CopyNext? && !step.Stamp? && !step.StampFails?
    ensures CurrentInv(Next(s, step)) && FilesInv(Next(s, step))
  {
  }

  lemma {:induction false} StepKeepsFiles(s: System, step: Step)
    requires NumberInv(s) && CurrentInv(s) && FilesInv(s) && Enabled(s, step) && Sound(s, step)
    ensures CurrentInv(Next(s, step)) && FilesInv(Next(s, step))
  {
    match step
    case BeginDeploy(_, _) => BeginKeepsFiles(s, step);
    case CopyNext(_, _, _) => CopyKeepsFiles(s, step);
    case Stamp => StampKeepsFiles(s, step);
    case StampFails(_) => StampKeepsFiles(s, step);
    case _ => OtherKeepsFiles(s, step);
  }

  lemma {:induction false} StepKeepsInv(s: System, step: Step)
    requires Inv(s) && Enabled(s, step) && Sound(s, step)
    ensures Inv(Next(s, step))
  {
    StepKeepsFiles(s, step);
    StepKeepsNumbers(s, step);
    StepKeepsSpawns(s, step);
    StepKeepsLock(s, step);
  }

  lemma {:induction false} RunKeepsInv(s: System, steps: seq<Step>)
    requires Inv(s) && PossibleRun(s, steps)
    requires Along(CompleteScans, s, steps) && Along(NamesApart, s, steps) && Along(StaysInside, s, steps)
    ensures Inv(After(s, steps))
    decreases steps
  {
    if steps != [] {
      StepKeepsInv(s, steps[0]);
      RunKeepsInv(Next(s, steps[0]), steps[1..]);
    }
  }

  /** In every history with complete scans, names apart and no copy that strays, with a stop allowed after any step and pins misread
      at will, `current` is absent or names a generation that verifies: its manifest is complete and matches
      its files. */
  lemma {:induction false} CurrentAlwaysVerifies(s: System, steps: seq<Step>)
    requires Initial(s) && PossibleRun(s, steps)
    requires Along(CompleteScans, s, steps) && Along(NamesApart, s, steps) && Along(StaysInside, s, steps)
    ensures var t := After(s, steps);
            t.current.Some? ==> t.current.value in t.gens && Intact(t.gens[t.current.value])
  {
    RunKeepsInv(s, steps);
  }

  /** The pointer moves only at a flip: a deploy or rollback that stops earlier leaves it alone. */
  lemma {:induction false} OnlyFlipsMoveCurrent(s: System, steps: seq<Step>)
    requires PossibleRun(s, steps)
    requires forall k :: 0 <= k < |steps| ==> !steps[k].FlipDeployed? && !steps[k].FlipBack?
    ensures After(s, steps).current == s.current
    decreases steps
  {
    if steps != [] {
      OnlyFlipsMoveCurrent(Next(s, steps[0]), steps[1..]);
    }
  }

  // ---------------------------------------------------------------------------------------------
  // Where the hypotheses are needed
  // ---------------------------------------------------------------------------------------------

  /** The pin protects at a deletion exactly when the state file loads and the live supervisor is probed
      alive; a failed load counts as no pin. */
  lemma {:induction false} PinProtectsIffReadIsRight(s: System, read: PinRead, u: UpId)
    requires LockInv(s) && u in s.ups && s.ups[u].Pinned? && s.ups[u].gen in s.gens
    requires s.mutator.Sweeping? && s.ups[u].gen in s.mutator.stale
    ensures s.ups[u].gen in Next(s, SweepOne(s.ups[u].gen, read, Removed)).gens <==> read.loaded && read.alive
  {
  }

  /** A copy changes the pinned generation exactly when its path leads out of the directory being staged, to an
      entry of the pinned one that held something else. */
  lemma {:induction false} CopyTouchesPinIff(s: System, step: Step, u: UpId)
    requires HasPinned(s, u) && step.CopyNext? && Enabled(s, step)
    ensures var g := s.ups[u].gen;
            Next(s, step).gens[g] != s.gens[g] <==>
              && step.written.Some? && step.stray.Some? && step.stray.value.0 == g
              && (step.stray.value.1 in s.gens[g] ==> s.gens[g][step.stray.value.1] != step.written.value)
  {
    var g := s.ups[u].gen;
    if step.written.Some? && step.stray.Some? && step.stray.value.0 == g {
      var f := step.stray.value.1;
      assert f in Next(s, step).gens[g] && Next(s, step).gens[g][f] == step.written.value;
      if f in s.gens[g] && s.gens[g][f] == step.written.value {
        assert s.gens[g][f := step.written.value] == s.gens[g];
      }
    }
  }

  /** A rollback whose two scans disagree can delete its own target: exactly when the second scan sees
      the target, the first missed it, and it is neither the old `current` nor the pin snapshot. */
  lemma {:induction false} RollbackTargetAtRiskIff(s: System, target: nat, scan: seq<nat>, read: PinRead, scan': seq<nat>)
    requires Enabled(s, FlipBack(target, scan))
    requires Enabled(Next(s, FlipBack(target, scan)), PlanSweep(read, scan'))
    ensures var t := Next(Next(s, FlipBack(target, scan)), PlanSweep(read, scan'));
            target in t.mutator.stale <==>
              target in scan' && target !in scan && s.current != Some(target) && LivePin(s, read) != Some(target)
  {
  }

  lemma {:induction false} FirstStep(h: (System, Step) -> bool, s: System, a: Step, rest: seq<Step>)
    requires Enabled(s, a) && h(s, a) && PossibleRun(Next(s, a), rest) && Along(h, Next(s, a), rest)
    ensures PossibleRun(s, [a] + rest) && Along(h, s, [a] + rest) && After(s, [a] + rest) == After(Next(s, a), rest)
  {
    var steps := [a] + rest;
    assert steps[0] == a && steps[1..] == rest;
  }

  lemma {:induction false} ThreeSteps(h: (System, Step) -> bool, s: System, a: Step, b: Step, c: Step)
    requires Enabled(s, a) && h(s, a)
    requires Enabled(Next(s, a), b) && h(Next(s, a), b)
    requires Enabled(Next(Next(s, a), b), c) && h(Next(Next(s, a), b), c)
    ensures PossibleRun(s, [a, b, c]) && Along(h, s, [a, b, c]) && After(s, [a, b, c]) == Next(Next(Next(s, a), b), c)
  {
    var s1, s2 := Next(s, a), Next(Next(s, a), b);
    FirstStep(h, s2, c, []);
    FirstStep(h, s1, b, [c] + []);
    FirstStep(h, s, a, [b] + ([c] + []));
    assert [a] + ([b] + ([c] + [])) == [a, b, c];
  }

  /** Between discovering its generation and its critical checkpoint a supervisor is not protected:
      whenever that generation lies below `current` and is not somebody's pin, a mere rollback to
      `current` itself deletes it, with every read, scan and name in order. */
  lemma {:induction false} UnprotectedBeforeCheckpoint(s: System, u: UpId, scan: seq<nat>, read: PinRead)
    requires CurrentInv(s) && s.mutator.Idle? && Complete(scan, s.gens) && Reliable(s, read)
    requires u in s.ups && s.ups[u].Verified? && s.ups[u].gen in s.gens
    requires s.current.Some? && s.ups[u].gen < s.current.value && LivePin(s, read) != Some(s.ups[u].gen)
    ensures var steps := [FlipBack(s.current.value, scan), PlanSweep(read, scan), SweepOne(s.ups[u].gen, read, Removed)];
            && PossibleRun(s, steps) && Along(AllInOrder, s, steps)
            && s.ups[u].gen !in After(s, steps).gens && After(s, steps).ups == s.ups
  {
    var g := s.ups[u].gen;
    var a, b, c := FlipBack(s.current.value, scan), PlanSweep(read, scan), SweepOne(g, read, Removed);
    var s1 := Next(s, a);
    assert g !in s1.mutator.keep && LivePin(s1, read) == LivePin(s, read);
    var s2 := Next(s1, b);
    assert g in s2.mutator.stale;
    ThreeSteps(AllInOrder, s, a, b, c);
  }
}
