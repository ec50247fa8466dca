/** The rollout lock and its one-shot borrow: lenders that take the lock, publish a lease, drop it and
    clean up, other tools that take the lock, and borrowers that claim a role of a published lease. */
module Borrow {
  import opened Prelude
  import opened Decimal

  const OWNER_LEASE_VERSION: nat := 2
  const MAX_BYTES: nat := 65536

  datatype Identity = Identity(pid: nat, executable: string, started: nat)

  datatype OwnerLease = OwnerLease(version: nat, owner: Identity, runId: string, startedNanos: nat, roles: set<string>)

  datatype Credential = Credential(version: nat, metadata: OwnerLease)

  /** A document as its reader meets it: its size, what the version probe finds, and what the typed parse
      finds. */
  datatype Document<+T> = Document(size: nat, version: Option<nat>, body: Option<T>)

  const EMPTY: Document<OwnerLease> := Document(0, None, None)

  /** Size first, version before shape, then shape. */
  function Understood<T>(d: Document<T>): Option<T> {
    if d.size <= MAX_BYTES && d.version == Some(OWNER_LEASE_VERSION) then d.body else None
  }

  /** Who holds the lock: someone who has not rewritten the metadata yet, a lender, or another tool. */
  datatype Holder = Claiming | Lender(lease: OwnerLease) | Tool

  /** The lock file's holder and contents, the claimed markers, the live processes, and the leases whose
      dropped owners may still be deleting markers. */
  datatype World = World(
    holder: Option<Holder>,
    file: Option<Document<OwnerLease>>,
    markers: set<string>,
    live: map<nat, Identity>,
    reaping: set<OwnerLease>)

  // Marker names

  const PREFIX: string := ".rollout.lock."
  const SUFFIX: string := ".borrowed"

  function Key(lease: OwnerLease, role: string): string {
    lease.runId + "." + (Dec(lease.startedNanos) + "." + role)
  }

  function MarkerName(lease: OwnerLease, role: string): string {
    PREFIX + Key(lease, role) + SUFFIX
  }

  lemma {:induction false} SameNameSameKey(a: OwnerLease, r: string, b: OwnerLease, q: string)
    ensures MarkerName(a, r) == MarkerName(b, q) <==> Key(a, r) == Key(b, q)
  {
    var m, n := MarkerName(a, r), MarkerName(b, q);
    assert m[|PREFIX|..|m| - |SUFFIX|] == Key(a, r);
    assert n[|PREFIX|..|n| - |SUFFIX|] == Key(b, q);
  }

  /** Borrowing one role never uses up another role of the same lease. */
  lemma {:induction false} MarkersSeparateRoles(lease: OwnerLease, r: string, q: string)
    ensures MarkerName(lease, r) == MarkerName(lease, q) <==> r == q
  {
    SameNameSameKey(lease, r, lease, q);
    var head := lease.runId + "." + (Dec(lease.startedNanos) + ".");
    assert Key(lease, r) == head + r && Key(lease, q) == head + q;
    assert (head + r)[|head|..] == r && (head + q)[|head|..] == q;
  }

  /** Leases whose run ids hold no dot have a marker in common exactly when they have the run id, the start
      time and the role in common. */
  lemma {:induction false} MarkersSeparateLeases(a: OwnerLease, r: string, b: OwnerLease, q: string)
    requires NoDot(a.runId) && NoDot(b.runId)
    ensures MarkerName(a, r) == MarkerName(b, q) <==> a.runId == b.runId && a.startedNanos == b.startedNanos && r == q
  {
    SameNameSameKey(a, r, b, q);
    if Key(a, r) == Key(b, q) {
      SplitAtFirstDot(a.runId, Dec(a.startedNanos) + "." + r, b.runId, Dec(b.startedNanos) + "." + q);
      DecNoDot(a.startedNanos);
      DecNoDot(b.startedNanos);
      SplitAtFirstDot(Dec(a.startedNanos), r, Dec(b.startedNanos), q);
      DecRoundTrip(a.startedNanos);
      DecRoundTrip(b.startedNanos);
    }
  }

  predicate IdentifierByte(c: char) {
    'a' <= c <= 'z' || 'A' <= c <= 'Z' || '0' <= c <= '9' || c in "._-"
  }

  predicate ValidIdentifier(s: string) {
    1 <= |s| <= 128 && forall i :: 0 <= i < |s| ==> IdentifierByte(s[i])
  }

  /** A dot is a legal byte of a run id and of a role, and with dots two different leases can share a
      marker. */
  lemma {:induction false} DottedRunIdsCollide(owner: Identity)
    ensures var a := OwnerLease(2, owner, "r", 1, {"2.x"});
            var b := OwnerLease(2, owner, "r.1", 2, {"x"});
            && ValidIdentifier(a.runId) && ValidIdentifier(b.runId) && ValidIdentifier("2.x") && ValidIdentifier("x")
            && MarkerName(a, "2.x") == MarkerName(b, "x") == ".rollout.lock.r.1.2.x.borrowed"
  {
    assert Dec(1) == "1" && Dec(2) == "2";
    assert "r" + "." + ("1" + "." + "2.x") == "r.1" + "." + ("2" + "." + "x");
  }

  // Borrowing

  /** Where a borrow attempt meets an I/O failure, if it does. `LateFails`: the marker was created, and
      setting its mode, writing it or flushing it failed. */
  datatype BorrowIo = Fine | OpenFails | ReadFails | ObserveFails | ProbeFails | CreateFails | LateFails

  predicate OwnerLive(w: World, owner: Identity) {
    owner.pid in w.live && w.live[owner.pid] == owner
  }

  /** The credential is one this version speaks, and its lease permits the role. */
  predicate Presentable(doc: Document<Credential>, role: string) {
    var c := Understood(doc);
    c.Some? && c.value.version == OWNER_LEASE_VERSION && role in c.value.metadata.roles
  }

  /** The world backs the credential: the lock file still carries its lease, the owner it names is alive
      and the same process, and the lock is held. */
  predicate Backed(w: World, lease: OwnerLease) {
    && w.file.Some? && Understood(w.file.value) == Some(lease)
    && OwnerLive(w, lease.owner)
    && w.holder.Some?
  }

  predicate Admissible(w: World, doc: Document<Credential>, role: string) {
    && Presentable(doc, role)
    && var lease := Understood(doc).value.metadata;
       Backed(w, lease) && MarkerName(lease, role) !in w.markers
  }

  predicate Admits(w: World, doc: Document<Credential>, role: string, io: BorrowIo) {
    Admissible(w, doc, role) && io == Fine
  }

  /** The world after a borrow attempt. Opening creates a missing lock file; the claim creates the marker. */
  function Borrowed(w: World, doc: Document<Credential>, role: string, io: BorrowIo): World {
    var created := Presentable(doc, role) && io != OpenFails && w.file == None;
    var claimed := Admissible(w, doc, role) && io in {Fine, LateFails};
    w.(file := if created then Some(EMPTY) else w.file,
       markers := if claimed then w.markers + {MarkerName(Understood(doc).value.metadata, role)} else w.markers)
  }

  /** A refused borrow leaves the holder, the contents of an existing lock file and the processes alone. It
      leaves every marker alone exactly when it was not the claim's own follow-up that failed. */
  lemma {:induction false} RefusedBorrowTouchesNoMarkerIff(w: World, doc: Document<Credential>, role: string, io: BorrowIo)
    requires !Admits(w, doc, role, io)
    ensures var w' := Borrowed(w, doc, role, io);
            && w'.holder == w.holder && w'.live == w.live && w'.reaping == w.reaping
            && (w.file.Some? ==> w'.file == w.file)
            && (w'.markers == w.markers <==> !(Admissible(w, doc, role) && io == LateFails))
  {
    if Admissible(w, doc, role) && io == LateFails {
      assert MarkerName(Understood(doc).value.metadata, role) in Borrowed(w, doc, role, io).markers;
    }
  }

  // The protocol

  datatype Step =
    | Lock                                                   // somebody takes the free lock
    | Truncate                                               // and starts to rewrite the metadata
    | Publish(lease: OwnerLease, size: nat)                  // a lender's metadata is in place
    | WriteOwn(size: nat)                                    // another tool's metadata is in place
    | Unlock                                                 // the holder drops the lock
    | Die                                                    // the holder dies, and the lock with it
    | Reap(lease: OwnerLease, role: string)                  // a dropped lease's owner deletes one marker
    | Reaped(lease: OwnerLease)                              // and is done deleting
    | Retry(lease: OwnerLease, role: string)                 // delivery failed: the lender reopens the role
    | Processes(live: map<nat, Identity>)                    // processes come and go
    | Attempt(doc: Document<Credential>, role: string, io: BorrowIo)

  predicate Enabled(w: World, step: Step) {
    match step
    case Lock => w.holder == None
    case Truncate => w.holder == Some(Claiming)
    case Publish(_, _) => w.holder == Some(Claiming)
    case WriteOwn(_) => w.holder == Some(Claiming)
    case Unlock => w.holder.Some?
    case Die => w.holder.Some?
    case Reap(lease, role) => lease in w.reaping && role in lease.roles
    case Reaped(lease) => lease in w.reaping
    case Retry(lease, role) => w.holder == Some(Lender(lease)) && role in lease.roles
    case Processes(_) => true
    case Attempt(_, _, _) => true
  }

  function Next(w: World, step: Step): World {
    match step
    case Lock => w.(holder := Some(Claiming), file := if w.file == None then Some(EMPTY) else w.file)
    case Truncate => w.(file := Some(EMPTY))
    case Publish(lease, size) =>
      w.(holder := Some(Lender(lease)), file := Some(Document(size, Some(OWNER_LEASE_VERSION), Some(lease))))
    case WriteOwn(size) => w.(holder := Some(Tool), file := Some(Document(size, Some(1), None)))
    case Unlock =>
      w.(holder := None,
         reaping := if w.holder.Some? && w.holder.value.Lender? then w.reaping + {w.holder.value.lease} else w.reaping)
    case Die => w.(holder := None)
    case Reap(lease, role) => w.(markers := w.markers - {MarkerName(lease, role)})
    case Reaped(lease) => w.(reaping := w.reaping - {lease})
    case Retry(lease, role) => w.(markers := w.markers - {MarkerName(lease, role)})
    case Processes(live) => w.(live := live)
    case Attempt(doc, role, io) => Borrowed(w, doc, role, io)
  }

  ghost predicate Apart(a: OwnerLease, b: OwnerLease) {
    forall r, q :: MarkerName(a, r) != MarkerName(b, q)
  }

  /** A lender publishes a lease that shares no marker with one still being cleaned up. */
  ghost predicate Sound(w: World, step: Step) {
    step.Publish? ==> forall l :: l in w.reaping ==> Apart(step.lease, l)
  }

  /** Run ids without dots that were not taken at the same instant make leases that share no marker. */
  lemma {:induction false} DotFreeLeasesAreApart(a: OwnerLease, b: OwnerLease)
    requires NoDot(a.runId) && NoDot(b.runId)
    ensures Apart(a, b) <==> a.runId != b.runId || a.startedNanos != b.startedNanos
  {
    forall r, q
      ensures MarkerName(a, r) == MarkerName(b, q) <==>
              a.runId == b.runId && a.startedNanos == b.startedNanos && r == q
    {
      MarkersSeparateLeases(a, r, b, q);
    }
    assert MarkerName(a, "") == MarkerName(b, "") <==> a.runId == b.runId && a.startedNanos == b.startedNanos;
  }

  ghost predicate ValidRun(w: World, steps: seq<Step>)
    decreases |steps|
  {
    steps != [] ==> Enabled(w, steps[0]) && Sound(w, steps[0]) && ValidRun(Next(w, steps[0]), steps[1..])
  }

  function After(w: World, steps: seq<Step>): World
    decreases |steps|
  {
    if steps == [] then w else After(Next(w, steps[0]), steps[1..])
  }

  // At most one admission

  function Admission(w: World, step: Step, lease: OwnerLease, role: string): nat {
    if && step.Attempt? && step.role == role && Admits(w, step.doc, role, step.io)
       && Understood(step.doc).value.metadata == lease
    then 1 else 0
  }

  /** How often the run admits a borrower to a role of a lease. */
  function Admissions(w: World, steps: seq<Step>, lease: OwnerLease, role: string): nat
    decreases |steps|
  {
    if steps == [] then 0
    else Admission(w, steps[0], lease, role) + Admissions(Next(w, steps[0]), steps[1..], lease, role)
  }

  predicate Deletes(step: Step, name: string) {
    (step.Reap? || step.Retry?) && MarkerName(step.lease, step.role) == name
  }

  function Deletions(steps: seq<Step>, name: string): nat {
    if steps == [] then 0 else (if Deletes(steps[0], name) then 1 else 0) + Deletions(steps[1..], name)
  }

  function Retries(steps: seq<Step>, lease: OwnerLease, role: string): nat {
    if steps == [] then 0
    else (if steps[0] == Retry(lease, role) then 1 else 0) + Retries(steps[1..], lease, role)
  }

  function Room(w: World, name: string): nat {
    if name in w.markers then 0 else 1
  }

  /** Only deleting a marker makes room for another admission; admitting uses the room up. */
  lemma {:induction false} StepSpendsRoom(w: World, step: Step, lease: OwnerLease, role: string)
    ensures var name := MarkerName(lease, role);
            Admission(w, step, lease, role) + Room(Next(w, step), name)
              <= Room(w, name) + (if Deletes(step, name) then 1 else 0)
  {
  }

  /** Over any run at all, a role of a lease is admitted at most once per time its marker was absent. */
  lemma {:induction false} AdmissionsNeedDeletions(w: World, steps: seq<Step>, lease: OwnerLease, role: string)
    ensures Admissions(w, steps, lease, role)
              <= Room(w, MarkerName(lease, role)) + Deletions(steps, MarkerName(lease, role))
    decreases |steps|
  {
    if steps != [] {
      StepSpendsRoom(w, steps[0], lease, role);
      AdmissionsNeedDeletions(Next(w, steps[0]), steps[1..], lease, role);
    }
  }

  /** The lock file tells the truth about its holder, once the holder has written it. */
  predicate TruthfulFile(w: World) {
    && (w.holder.Some? && w.holder.value.Lender? ==>
          && w.file.Some? && w.file.value.version == Some(OWNER_LEASE_VERSION)
          && w.file.value.body == Some(w.holder.value.lease))
    && (w.holder == Some(Tool) ==> w.file.Some? && Understood(w.file.value) == None)
  }

  /** No clean-up reaches the published lease. */
  ghost predicate Separated(w: World) {
    w.holder.Some? && w.holder.value.Lender? ==> forall l :: l in w.reaping ==> Apart(w.holder.value.lease, l)
  }

  lemma {:induction false} StepKeepsSeparated(w: World, step: Step)
    requires Separated(w) && Enabled(w, step) && Sound(w, step)
    ensures Separated(Next(w, step))
  {
  }

  /** The lender of `lease` holds the lock from the start of the run to its end. */
  predicate Tenure(w: World, steps: seq<Step>, lease: OwnerLease)
    decreases |steps|
  {
    w.holder == Some(Lender(lease)) && (steps != [] ==> Tenure(Next(w, steps[0]), steps[1..], lease))
  }

  lemma {:induction false} TenureDeletesOnRetry(w: World, step: Step, lease: OwnerLease, role: string)
    requires Separated(w) && Enabled(w, step) && w.holder == Some(Lender(lease))
    ensures Deletes(step, MarkerName(lease, role)) <==> step == Retry(lease, role)
  {
    if step.Retry? {
      MarkersSeparateRoles(lease, role, step.role);
    }
  }

  lemma {:induction false} TenureDeletions(w: World, steps: seq<Step>, lease: OwnerLease, role: string)
    requires Separated(w) && ValidRun(w, steps) && Tenure(w, steps, lease)
    ensures Deletions(steps, MarkerName(lease, role)) == Retries(steps, lease, role)
    decreases |steps|
  {
    if steps != [] {
      TenureDeletesOnRetry(w, steps[0], lease, role);
      StepKeepsSeparated(w, steps[0]);
      TenureDeletions(Next(w, steps[0]), steps[1..], lease, role);
    }
  }

  /** While its lender holds the lock, each role of a lease is admitted at most once, plus once for every
      time the lender itself reopened the role after failing to deliver a credential. */
  lemma {:induction false} OneShotBorrow(w: World, steps: seq<Step>, lease: OwnerLease, role: string)
    requires Separated(w) && ValidRun(w, steps) && Tenure(w, steps, lease)
    ensures Admissions(w, steps, lease, role) <= Room(w, MarkerName(lease, role)) + Retries(steps, lease, role)
    ensures Retries(steps, lease, role) == 0 ==> Admissions(w, steps, lease, role) <= 1
  {
    AdmissionsNeedDeletions(w, steps, lease, role);
    TenureDeletions(w, steps, lease, role);
  }

  /** Without the separation of marker names the promise breaks: cleaning up after another lease reopens a
      role that was already borrowed. */
  lemma {:induction false} CollisionReopensRole(w: World, lease: OwnerLease, role: string, other: OwnerLease, q: string,
                             doc: Document<Credential>)
    requires other != lease && other in w.reaping && q in other.roles && MarkerName(other, q) == MarkerName(lease, role)
    requires Admissible(w, doc, role) && Understood(doc).value.metadata == lease
    ensures var attempt := Attempt(doc, role, Fine);
            var steps := [attempt, Reap(other, q), attempt];
            Admissions(w, steps, lease, role) == 2 && !exists l, r :: Retry(l, r) in steps
  {
    var attempt := Attempt(doc, role, Fine);
    var steps := [attempt, Reap(other, q), attempt];
    var w1 := Next(w, attempt);
    var w2 := Next(w1, Reap(other, q));
    assert w2.markers == w.markers;
    assert steps[1..][1..] == [attempt] && [attempt][1..] == [];
    assert Admissions(w2, [attempt], lease, role) == 1;
    assert Admissions(w1, steps[1..], lease, role) == 1;
  }

  /** Every step can be taken, whether or not the published leases are apart. */
  predicate PossibleRun(w: World, steps: seq<Step>)
    decreases |steps|
  {
    steps != [] ==> Enabled(w, steps[0]) && PossibleRun(Next(w, steps[0]), steps[1..])
  }

  lemma {:induction false} FirstOf(w: World, step: Step, rest: seq<Step>)
    requires Enabled(w, step) && PossibleRun(Next(w, step), rest)
    ensures PossibleRun(w, [step] + rest) && After(w, [step] + rest) == After(Next(w, step), rest)
  {
    var steps := [step] + rest;
    assert steps[0] == step && steps[1..] == rest;
  }

  lemma {:induction false} FiveSteps(w: World, a: Step, b: Step, c: Step, d: Step, e: Step)
    requires Enabled(w, a) && Enabled(Next(w, a), b) && Enabled(Next(Next(w, a), b), c)
    requires var v := Next(Next(Next(w, a), b), c); Enabled(v, d) && Enabled(Next(v, d), e)
    ensures PossibleRun(w, [a, b, c, d, e])
    ensures After(w, [a, b, c, d, e]) == Next(Next(Next(Next(Next(w, a), b), c), d), e)
  {
    var w1 := Next(w, a);
    var w2 := Next(w1, b);
    var w3 := Next(w2, c);
    FirstOf(Next(w3, d), e, []);
    FirstOf(w3, d, [e] + []);
    FirstOf(w2, c, [d] + ([e] + []));
    FirstOf(w1, b, [c] + ([d] + ([e] + [])));
    FirstOf(w, a, [b] + ([c] + ([d] + ([e] + []))));
    assert [a] + ([b] + ([c] + ([d] + ([e] + [])))) == [a, b, c, d, e];
  }

  lemma {:induction false} ThreeSteps(w: World, a: Step, b: Step, c: Step)
    requires Enabled(w, a) && Enabled(Next(w, a), b) && Enabled(Next(Next(w, a), b), c)
    ensures PossibleRun(w, [a, b, c])
  {
    FirstOf(Next(Next(w, a), b), c, []);
    FirstOf(Next(w, a), b, [c] + []);
    FirstOf(w, a, [b] + ([c] + []));
    assert [a] + ([b] + ([c] + [])) == [a, b, c];
  }

  /** It happens: from nothing, the lender of `r` publishes and drops its lease, the lender of `r.1` publishes
      before the clean-up, and role `x` of its lease is borrowed twice. */
  lemma {:induction false} CollisionHappens(owner: Identity) returns (setup: seq<Step>, steps: seq<Step>)
    ensures var w0 := World(None, None, {}, map[owner.pid := owner], {});
            var w := After(w0, setup);
            && PossibleRun(w0, setup) && PossibleRun(w, steps)
            && w.holder == Some(Lender(OwnerLease(2, owner, "r.1", 2, {"x"})))
            && Admissions(w, steps, OwnerLease(2, owner, "r.1", 2, {"x"}), "x") == 2
            && !exists l, r :: Retry(l, r) in steps
  {
    var a, b := OwnerLease(2, owner, "r", 1, {"2.x"}), OwnerLease(2, owner, "r.1", 2, {"x"});
    var w0 := World(None, None, {}, map[owner.pid := owner], {});
    setup := [Lock, Publish(a, 0), Unlock, Lock, Publish(b, 0)];
    FiveSteps(w0, Lock, Publish(a, 0), Unlock, Lock, Publish(b, 0));
    var doc := Document(0, Some(OWNER_LEASE_VERSION), Some(Credential(OWNER_LEASE_VERSION, b)));
    steps := [Attempt(doc, "x", Fine), Reap(a, "2.x"), Attempt(doc, "x", Fine)];
    DottedRunIdsCollide(owner);
    CollisionReopensRole(After(w0, setup), b, "x", a, "2.x", doc);
    ThreeSteps(After(w0, setup), Attempt(doc, "x", Fine), Reap(a, "2.x"), Attempt(doc, "x", Fine));
  }

  // When nobody is admitted

  /** The condition holds at every state of the run. */
  predicate Throughout(h: World -> bool, w: World, steps: seq<Step>)
    decreases |steps|
  {
    h(w) && (steps != [] ==> Throughout(h, Next(w, steps[0]), steps[1..]))
  }

  /** The process the lease names as its owner is gone, or its number belongs to another process. */
  function OwnerAway(lease: OwnerLease): World -> bool {
    (w: World) => lease.owner.pid !in w.live || w.live[lease.owner.pid] != lease.owner
  }

  function LockFree(): World -> bool {
    (w: World) => w.holder == None
  }

  /** The lock file is missing, too long, of another version, or carries something else. */
  function NotPublished(lease: OwnerLease): World -> bool {
    (w: World) =>
      || w.file == None || w.file.value.size > 65536
      || w.file.value.version != Some(2) || w.file.value.body != Some(lease)
  }

  /** Somebody has claimed the role. */
  function RoleClaimed(lease: OwnerLease, role: string): World -> bool {
    (w: World) => MarkerName(lease, role) in w.markers
  }

  /** At every moment one of these holds, though not always the same one. */
  function NotToBeHad(lease: OwnerLease, role: string): World -> bool {
    (w: World) => OwnerAway(lease)(w) || LockFree()(w) || NotPublished(lease)(w) || RoleClaimed(lease, role)(w)
  }

  lemma {:induction false} NotAdmittedNow(w: World, step: Step, lease: OwnerLease, role: string)
    requires NotToBeHad(lease, role)(w) || role !in lease.roles
    ensures Admission(w, step, lease, role) == 0
  {
    if role in lease.roles {
      assert OwnerAway(lease)(w) || LockFree()(w) || NotPublished(lease)(w) || RoleClaimed(lease, role)(w);
      if NotPublished(lease)(w) && w.file.Some? {
        assert Understood(w.file.value) != Some(lease);
      }
    }
  }

  /** A run admits nobody to a role of a lease while, at every moment, the owner is away, the lock free, the lease
      not published or the role claimed; nor ever to a role that the lease does not list. */
  lemma {:induction false} NobodyIsAdmitted(w: World, steps: seq<Step>, lease: OwnerLease, role: string)
    requires Throughout(NotToBeHad(lease, role), w, steps) || role !in lease.roles
    ensures Admissions(w, steps, lease, role) == 0
    decreases |steps|
  {
    if steps != [] {
      NotAdmittedNow(w, steps[0], lease, role);
      NobodyIsAdmitted(Next(w, steps[0]), steps[1..], lease, role);
    }
  }

  lemma {:induction false} ThroughoutWeaker(h: World -> bool, g: World -> bool, w: World, steps: seq<Step>)
    requires Throughout(h, w, steps) && forall v: World :: h(v) ==> g(v)
    ensures Throughout(g, w, steps)
    decreases |steps|
  {
    if steps != [] {
      ThroughoutWeaker(h, g, Next(w, steps[0]), steps[1..]);
    }
  }

  /** A recycled process number admits nobody. */
  lemma {:induction false} OwnerAwayAdmitsNobody(w: World, steps: seq<Step>, lease: OwnerLease, role: string)
    requires Throughout(OwnerAway(lease), w, steps)
    ensures Admissions(w, steps, lease, role) == 0
  {
    ThroughoutWeaker(OwnerAway(lease), NotToBeHad(lease, role), w, steps);
    NobodyIsAdmitted(w, steps, lease, role);
  }

  lemma {:induction false} FreeLockAdmitsNobody(w: World, steps: seq<Step>, lease: OwnerLease, role: string)
    requires Throughout(LockFree(), w, steps)
    ensures Admissions(w, steps, lease, role) == 0
  {
    ThroughoutWeaker(LockFree(), NotToBeHad(lease, role), w, steps);
    NobodyIsAdmitted(w, steps, lease, role);
  }

  lemma {:induction false} UnpublishedAdmitsNobody(w: World, steps: seq<Step>, lease: OwnerLease, role: string)
    requires Throughout(NotPublished(lease), w, steps)
    ensures Admissions(w, steps, lease, role) == 0
  {
    ThroughoutWeaker(NotPublished(lease), NotToBeHad(lease, role), w, steps);
    NobodyIsAdmitted(w, steps, lease, role);
  }

  /** The credential of a lease, as it is handed to a borrower. */
  function CredentialFor(lease: OwnerLease, size: nat): Document<Credential> {
    Document(size, Some(2), Some(Credential(2, lease)))
  }

  /** Conversely, at any moment at which none of these holds, an attempt with the credential of the lease, made
      without an I/O failure, admits. */
  lemma {:induction false} OtherwiseAdmitted(w: World, rest: seq<Step>, lease: OwnerLease, role: string, size: nat)
    requires !NotToBeHad(lease, role)(w) && role in lease.roles && size <= 65536
    ensures Admissions(w, [Attempt(CredentialFor(lease, size), role, Fine)] + rest, lease, role) >= 1
  {
    var attempt := Attempt(CredentialFor(lease, size), role, Fine);
    assert ([attempt] + rest)[0] == attempt;
    assert !NotPublished(lease)(w) && !OwnerAway(lease)(w);
    assert Admission(w, attempt, lease, role) == 1;
  }

  // What is deleted

  lemma {:induction false} MarkerStays(w: World, steps: seq<Step>, name: string)
    requires name in w.markers && Deletions(steps, name) == 0
    ensures name in After(w, steps).markers
    decreases |steps|
  {
    if steps != [] {
      MarkerStays(Next(w, steps[0]), steps[1..], name);
    }
  }

  /** The run has the lender of `lease` drop the lock. */
  predicate Drops(w: World, steps: seq<Step>, lease: OwnerLease)
    decreases |steps|
  {
    steps != [] &&
    ((steps[0] == Unlock && w.holder == Some(Lender(lease))) || Drops(Next(w, steps[0]), steps[1..], lease))
  }

  /** Only a lender that dropped the lock cleans up after its lease: one that died leaves its markers behind. */
  lemma {:induction false} OnlyDroppedLeasesAreReaped(w: World, steps: seq<Step>, lease: OwnerLease)
    requires PossibleRun(w, steps) && lease in After(w, steps).reaping
    ensures lease in w.reaping || Drops(w, steps, lease)
    decreases |steps|
  {
    if steps != [] {
      OnlyDroppedLeasesAreReaped(Next(w, steps[0]), steps[1..], lease);
    }
  }

  /** Conversely, dropping the lock makes the lease one to be cleaned up. */
  lemma {:induction false} DroppedLeaseIsReaped(w: World, steps: seq<Step>, lease: OwnerLease)
    requires lease in w.reaping || Drops(w, steps, lease)
    requires forall k :: 0 <= k < |steps| ==> steps[k] != Reaped(lease)
    ensures lease in After(w, steps).reaping
    decreases |steps|
  {
    if steps != [] {
      assert steps[0] != Reaped(lease);
      DroppedLeaseIsReaped(Next(w, steps[0]), steps[1..], lease);
    }
  }

  // Whose lease is borrowed

  lemma {:induction false} RunKeepsTruth(w: World, steps: seq<Step>)
    requires TruthfulFile(w) && PossibleRun(w, steps)
    ensures TruthfulFile(After(w, steps))
    decreases |steps|
  {
    if steps != [] {
      assert TruthfulFile(Next(w, steps[0]));
      RunKeepsTruth(Next(w, steps[0]), steps[1..]);
    }
  }

  /** In every reachable state, whether or not leases share markers, an admission is an admission under the very lender that published the lease,
      exactly unless the lock has already passed to someone who has not yet rewritten the metadata. */
  lemma {:induction false} AdmittedUnderItsLender(w0: World, steps: seq<Step>, doc: Document<Credential>, role: string)
    requires TruthfulFile(w0) && PossibleRun(w0, steps)
    requires Admissible(After(w0, steps), doc, role)
    ensures var w := After(w0, steps);
            w.holder == Some(Lender(Understood(doc).value.metadata)) <==> w.holder != Some(Claiming)
  {
    RunKeepsTruth(w0, steps);
    var w := After(w0, steps);
    match w.holder.value
    case Claiming =>
    case Lender(lease) => assert Understood(w.file.value) == Some(lease);
    case Tool =>
  }

  /** That window is real: a lender drops its lease and lives on, somebody else takes the lock, and until
      they rewrite the metadata the ended lease can still be borrowed. */
  lemma {:induction false} EndedLeaseCanBeBorrowed(w: World, lease: OwnerLease, role: string, size: nat)
    requires w.holder == Some(Lender(lease)) && role in lease.roles && size <= MAX_BYTES
    requires w.file == Some(Document(size, Some(OWNER_LEASE_VERSION), Some(lease)))
    requires OwnerLive(w, lease.owner) && MarkerName(lease, role) !in w.markers
    ensures var doc := Document(size, Some(OWNER_LEASE_VERSION), Some(Credential(OWNER_LEASE_VERSION, lease)));
            ValidRun(w, [Unlock, Lock]) && Admissible(After(w, [Unlock, Lock]), doc, role)
  {
    var w1 := Next(w, Unlock);
    assert [Unlock, Lock][1..] == [Lock] && [Lock][1..] == [];
    assert ValidRun(w1, [Lock]) && After(w1, [Lock]) == Next(w1, Lock);
  }
}
