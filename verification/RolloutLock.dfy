/** How `weles up` comes to be inside the one permitted rollout: it consumes an inherited credential, or it
    takes the lock itself, and never the second after the first went wrong. */
module RolloutLock {
  import opened Prelude
  import opened Borrow

  const BORROWER_ROLE: string := "weles"

  datatype Refusal = Environment | BadRole | AlreadyConsumed | BadCredential | RoleMismatch | Metadata | Stale
                   | OwnerGone | NotHeld | Replay | Io | Owned

  datatype Lease = OwnLock | BorrowedFrom(lease: OwnerLease)

  /** How taking the lock goes: it cannot be attempted, its metadata cannot be rewritten (and the file is
      left as given), or it can. */
  datatype AcquireIo = Unattempted | RewriteFails(left: Document<OwnerLease>) | Rewritten(size: nat)

  /** What this process was started with: the argument that makes it a borrower, whether the credential
      pipe is there, what it delivers, and where the borrow meets an I/O failure. */
  datatype Inheritance = Inheritance(marked: bool, pipe: Option<bool>, delivered: Option<Document<Credential>>, io: BorrowIo)

  /** The attempt that the credential handed to this process amounts to, if it comes to one. */
  function Attempted(env: Inheritance, role: string, consumed: bool): Option<Step> {
    if env.marked && env.pipe == Some(true) && ValidIdentifier(role) && !consumed && env.delivered.Some?
    then Some(Attempt(env.delivered.value, role, env.io))
    else None
  }

  class Process {
    var world: World
    var consumed: bool
    var acquireCalls: nat

    constructor (world: World)
      ensures this.world == world && !consumed && acquireCalls == 0
    {
      this.world := world;
      consumed := false;
      acquireCalls := 0;
    }

    /** The lock file is opened, which creates it, and read. */
    method ReadOwnerLease(io: BorrowIo) returns (r: Result<OwnerLease, Refusal>)
      modifies this`world
      ensures world == old(world).(file := if io != OpenFails && old(world).file == None then Some(EMPTY) else old(world).file)
      ensures r.Ok? <==> io !in {OpenFails, ReadFails} && old(world).file.Some? && Understood(old(world).file.value).Some?
      ensures r.Ok? ==> Understood(old(world).file.value) == Some(r.value)
    {
      if io == OpenFails {
        return Err(Io);
      }
      if world.file == None {
        world := world.(file := Some(EMPTY));
      }
      if io == ReadFails {
        return Err(Io);
      }
      var doc := world.file.value;
      if doc.size > MAX_BYTES {
        return Err(Metadata);
      }
      if doc.version != Some(OWNER_LEASE_VERSION) || doc.body == None {
        return Err(Metadata);
      }
      return Ok(doc.body.value);
    }

    /** Trying the lock is the probe: a lock that could be taken is given back at once. */
    method IsLockedByOther() returns (locked: bool)
      modifies this`world
      ensures world == old(world) && (locked <==> world.holder.Some?)
    {
      if world.holder == None {
        world := world.(holder := Some(Claiming));
        world := world.(holder := None);
        return false;
      }
      return true;
    }

    /** Exclusive creation, and then the follow-up on the created file. */
    method CreateConsumptionMarker(name: string, io: BorrowIo) returns (r: Result<(), Refusal>)
      modifies this`world
      ensures r.Ok? <==> name !in old(world).markers && io !in {CreateFails, LateFails}
      ensures world == if name !in old(world).markers && io != CreateFails
                       then old(world).(markers := old(world).markers + {name}) else old(world)
    {
      if name in world.markers {
        return Err(Replay);
      }
      if io == CreateFails {
        return Err(Io);
      }
      world := world.(markers := world.markers + {name});
      if io == LateFails {
        return Err(Io);
      }
      return Ok(());
    }

    /** The checks against the live world, in their order. A lease comes out exactly when the attempt is
        admitted, and the world moves as one attempt moves it. */
    method ValidateCredential(doc: Document<Credential>, role: string, io: BorrowIo)
      returns (r: Result<OwnerLease, Refusal>)
      requires Understood(doc).Some?
      modifies this`world
      ensures world == Next(old(world), Attempt(doc, role, io))
      ensures r.Ok? <==> Admits(old(world), doc, role, io)
      ensures r.Ok? ==> r.value == Understood(doc).value.metadata
      ensures var credential, file := Understood(doc).value, old(world).file;
              var lease := credential.metadata;
              r.Ok? <==>
                && credential.version == 2 && role in lease.roles
                && file.Some? && file.value.size <= 65536 && file.value.version == Some(2) && file.value.body == Some(lease)
                && lease.owner.pid in old(world).live && old(world).live[lease.owner.pid] == lease.owner
                && old(world).holder.Some? && MarkerName(lease, role) !in old(world).markers && io == Fine
    {
      var credential := Understood(doc).value;
      if credential.version != OWNER_LEASE_VERSION {
        return Err(BadCredential);
      }
      if role !in credential.metadata.roles {
        return Err(RoleMismatch);
      }
      var metadata :- ReadOwnerLease(io);
      if metadata != credential.metadata {
        return Err(Stale);
      }
      if io == ObserveFails || metadata.owner.pid !in world.live {
        return Err(OwnerGone);
      }
      if world.live[metadata.owner.pid] != metadata.owner {
        return Err(OwnerGone);
      }
      if io == ProbeFails {
        return Err(Io);
      }
      var locked := IsLockedByOther();
      if !locked {
        return Err(NotHeld);
      }
      var _ :- CreateConsumptionMarker(MarkerName(metadata, role), io);
      return Ok(metadata);
    }

    /** Bound, version, shape, then the live world. */
    method CredentialFromBytes(doc: Document<Credential>, role: string, io: BorrowIo)
      returns (r: Result<OwnerLease, Refusal>)
      modifies this`world
      ensures world == Next(old(world), Attempt(doc, role, io))
      ensures r.Ok? <==> Admits(old(world), doc, role, io)
      ensures r.Ok? ==> r.value == Understood(doc).value.metadata
      ensures r.Ok? ==> doc.size <= 65536 && doc.version == Some(2) && doc.body == Some(Credential(2, r.value))
    {
      if doc.size > MAX_BYTES {
        return Err(BadCredential);
      }
      if doc.version != Some(OWNER_LEASE_VERSION) || doc.body == None {
        return Err(BadCredential);
      }
      r := ValidateCredential(doc, role, io);
    }

    /** One process consumes its credential at most once, whatever comes of it. */
    method ConsumeInherited(delivered: Option<Document<Credential>>, role: string, io: BorrowIo)
      returns (r: Result<OwnerLease, Refusal>)
      modifies this`world, this`consumed
      ensures consumed == (old(consumed) || ValidIdentifier(role))
      ensures var reached := ValidIdentifier(role) && !old(consumed) && delivered.Some?;
              && world == (if reached then Next(old(world), Attempt(delivered.value, role, io)) else old(world))
              && (r.Ok? <==> reached && Admits(old(world), delivered.value, role, io))
              && (r.Ok? ==> r.value == Understood(delivered.value).value.metadata)
    {
      if !ValidIdentifier(role) {
        return Err(BadRole);
      }
      var was := consumed;
      consumed := true;
      if was {
        return Err(AlreadyConsumed);
      }
      if delivered == None {
        return Err(Io);
      }
      r := CredentialFromBytes(delivered.value, role, io);
    }

    /** `Ok(None)` means that this process was not started as a borrower, and nothing else means it. */
    method BorrowInheritedIfPresent(env: Inheritance, role: string) returns (r: Result<Option<OwnerLease>, Refusal>)
      modifies this`world, this`consumed
      ensures r == Ok(None) <==> !env.marked
      ensures var a := Attempted(env, role, old(consumed));
              && world == (if a.Some? then Next(old(world), a.value) else old(world))
              && (r.Ok? && r.value.Some? <==> a.Some? && Admits(old(world), a.value.doc, role, a.value.io))
              && (r.Ok? && r.value.Some? ==> r.value.value == Understood(a.value.doc).value.metadata)
    {
      if !env.marked {
        return Ok(None);
      }
      if env.pipe != Some(true) {
        return Err(Environment);
      }
      var lease :- ConsumeInherited(env.delivered, role, env.io);
      return Ok(Some(lease));
    }

    /** Takes the lock without waiting and rewrites its metadata; failing to, it is dropped again. */
    method Acquire(io: AcquireIo) returns (r: Result<(), Refusal>)
      modifies this`world, this`acquireCalls
      ensures acquireCalls == old(acquireCalls) + 1
      ensures r.Ok? <==> io.Rewritten? && old(world).holder == None
      ensures r.Ok? ==> world == Next(Next(old(world), Lock), WriteOwn(io.size))
      ensures r.Err? ==> world.holder == old(world).holder && world.markers == old(world).markers
      ensures old(world).holder.Some? && old(world).file.Some? ==> world == old(world)
    {
      acquireCalls := acquireCalls + 1;
      if io == Unattempted {
        return Err(Io);
      }
      if world.file == None {
        world := world.(file := Some(EMPTY));
      }
      if world.holder.Some? {
        return Err(Owned);
      }
      world := world.(holder := Some(Claiming));
      if io.RewriteFails? {
        world := world.(file := Some(io.left));
        world := world.(holder := None);
        return Err(Io);
      }
      world := world.(holder := Some(Tool), file := Some(Document(io.size, Some(1), None)));
      return Ok(());
    }

    /** Only "no borrow here" becomes an acquire: an error stays the error it was. */
    method LeaseFrom(borrow: Result<Option<OwnerLease>, Refusal>, io: AcquireIo) returns (r: Result<Lease, Refusal>)
      modifies this`world, this`acquireCalls
      ensures acquireCalls == old(acquireCalls) + if borrow == Ok(None) then 1 else 0
      ensures borrow != Ok(None) ==> world == old(world)
      ensures r == Ok(OwnLock) <==> borrow == Ok(None) && io.Rewritten? && old(world).holder == None
      ensures r.Ok? && r.value.BorrowedFrom? <==> borrow.Ok? && borrow.value.Some?
      ensures r.Ok? && r.value.BorrowedFrom? ==> r.value.lease == borrow.value.value
      ensures r == Ok(OwnLock) ==> world == Next(Next(old(world), Lock), WriteOwn(io.size))
      ensures r.Err? ==> world.holder == old(world).holder && world.markers == old(world).markers
    {
      var borrowed :- borrow;
      if borrowed.Some? {
        return Ok(BorrowedFrom(borrowed.value));
      }
      var _ :- Acquire(io);
      return Ok(OwnLock);
    }

    /** Fail-closed: a process started as a borrower never calls acquire; whoever gets a lease is inside a
        held rollout; a borrower holds a lease it was admitted to; failing changes no holder. */
    method AcquireOrBorrow(env: Inheritance, io: AcquireIo) returns (r: Result<Lease, Refusal>)
      modifies this
      ensures acquireCalls == old(acquireCalls) + if env.marked then 0 else 1
      ensures r.Ok? ==> world.holder.Some?
      ensures r == Ok(OwnLock) <==> !env.marked && io.Rewritten? && old(world).holder == None
      ensures r == Ok(OwnLock) ==> world == Next(Next(old(world), Lock), WriteOwn(io.size))
      ensures var handed := env.marked && env.pipe == Some(true) && env.delivered.Some? && !old(consumed);
              && (r.Ok? && r.value.BorrowedFrom? <==>
                    handed && Admits(old(world), env.delivered.value, BORROWER_ROLE, env.io))
              && (r.Ok? && r.value.BorrowedFrom? ==>
                    r.value.lease == Understood(env.delivered.value).value.metadata)
              && (handed ==> world == Next(old(world), Attempt(env.delivered.value, BORROWER_ROLE, env.io)))
              && (env.marked && !handed ==> world == old(world))
      ensures r != Ok(OwnLock) ==> world.holder == old(world).holder
    {
      assert ValidIdentifier(BORROWER_ROLE);
      var borrow := BorrowInheritedIfPresent(env, BORROWER_ROLE);
      r := LeaseFrom(borrow, io);
    }
  }
}
