/** The agent-side mint pass: every `Mint` port of the fleet is replaced in place by a free port drawn
    from an allocator whose answers are arbitrary. */
module PortMint {
  import opened Prelude

  type PortNumber = x: nat | x < 65536

  const AGENT_PORT: PortNumber := 8300
  const MINT_MAX_ATTEMPTS: nat := 1000

  datatype Port = Literal(port: PortNumber) | Mint

  datatype ServiceDef = ServiceDef(
    name: string,
    provider: Option<string>,
    httpPort: Port,
    edgePort: Option<Port>,
    playerPort: Option<PortNumber>)

  datatype PortAssignment = PortAssignment(instanceId: string, provider: string, port: PortNumber, alive: bool)

  /** The allocator's answers, one per call: a port, or an error. */
  type Allocator = nat -> Option<PortNumber>

  datatype MintError = AllocatorFailed | Exhausted

  function LiteralsOf(d: ServiceDef): set<PortNumber> {
    (if d.httpPort.Literal? then {d.httpPort.port} else {}) +
    (if d.edgePort.Some? && d.edgePort.value.Literal? then {d.edgePort.value.port} else {}) +
    (if d.playerPort.Some? then {d.playerPort.value} else {})
  }

  /** Every literal http, edge and player port of the fleet. */
  function Literals(defs: seq<ServiceDef>): set<PortNumber> {
    if defs == [] then {} else Literals(defs[..|defs| - 1]) + LiteralsOf(defs[|defs| - 1])
  }

  predicate Usable(p: PortNumber, reserved: set<PortNumber>) {
    p != 0 && p !in reserved
  }

  /** The allocator answers the call at `at` with a port nobody may have. */
  predicate Unusable(alloc: Allocator, at: nat, reserved: set<PortNumber>) {
    alloc(at).Some? && !Usable(alloc(at).value, reserved)
  }

  /** Draws until a port is usable, reserving it. On failure `next` is just past the calls made: the
      last one failed, or exactly a thousand in a row were unusable. */
  method DrawFreePort(alloc: Allocator, from: nat, reserved: set<PortNumber>)
    returns (r: Result<PortNumber, MintError>, next: nat, reserved': set<PortNumber>)
    ensures r.Ok? ==> Drawn(alloc, from, next, r.value, reserved) && reserved' == reserved + {r.value}
    ensures r.Err? ==> FailedDraw(alloc, from, next, r.error, reserved) && reserved' == reserved
  {
    reserved', next := reserved, from;
    r := Err(Exhausted);
    for attempt := 0 to MINT_MAX_ATTEMPTS
      invariant next == from + attempt && r == Err(Exhausted) && reserved' == reserved
      invariant forall k :: from <= k < next ==> Unusable(alloc, k, reserved)
    {
      var drawn := alloc(next);
      next := next + 1;
      if drawn.None? {
        r := Err(AllocatorFailed);
        return;
      }
      if Usable(drawn.value, reserved) {
        reserved' := reserved + {drawn.value};
        r := Ok(drawn.value);
        return;
      }
    }
  }

  /** The calls from `from` up to `next` draw `port`: it is the last answer, and every answer before it was
      unusable. */
  predicate Drawn(alloc: Allocator, from: nat, next: nat, port: PortNumber, reserved: set<PortNumber>) {
    && from < next <= from + 1000
    && alloc(next - 1) == Some(port) && Usable(port, reserved)
    && forall k :: from <= k < next - 1 ==> Unusable(alloc, k, reserved)
  }

  /** The calls from `from` up to `next` draw nothing: the last one is an allocator error, or a thousand answers
      were unusable. */
  predicate FailedDraw(alloc: Allocator, from: nat, next: nat, error: MintError, reserved: set<PortNumber>) {
    && from < next <= from + 1000
    && (forall k :: from <= k < next - 1 ==> Unusable(alloc, k, reserved))
    && match error
       case AllocatorFailed => alloc(next - 1) == None
       case Exhausted => next == from + 1000 && Unusable(alloc, next - 1, reserved)
  }

  function HttpId(name: string): string {
    name + ":http"
  }

  function EdgeId(name: string): string {
    name + ":edge"
  }

  predicate MintsEdge(d: ServiceDef) {
    d.edgePort == Some(Mint)
  }

  function ProviderOf(d: ServiceDef): string {
    if d.provider.Some? then d.provider.value else d.name
  }

  /** `d'` is `d` with each minted field, and no other, replaced by a literal. */
  predicate Patched(d: ServiceDef, d': ServiceDef) {
    && PatchedPort(d.httpPort, d'.httpPort)
    && (if d.edgePort.Some? then d'.edgePort.Some? && PatchedPort(d.edgePort.value, d'.edgePort.value) else d'.edgePort == None)
    && d' == d.(httpPort := d'.httpPort, edgePort := d'.edgePort)
  }

  predicate PatchedPort(p: Port, p': Port) {
    p'.Literal? && (p.Literal? ==> p' == p)
  }

  // Each function below extends the assignments it is given.

  /** The assignment due for one field, if it is to be minted. */
  function DueFor(as_: seq<PortAssignment>, port: Port, id: string, provider: string, minted: PortNumber): seq<PortAssignment> {
    if port.Mint? then as_ + [PortAssignment(id, provider, minted, true)] else as_
  }

  /** The assignments due for one patched service: one per minted field, http before edge. */
  function Due(as_: seq<PortAssignment>, d: ServiceDef, d': ServiceDef): seq<PortAssignment>
    requires Patched(d, d')
  {
    var http := DueFor(as_, d.httpPort, HttpId(d.name), ProviderOf(d), d'.httpPort.port);
    if d.edgePort.Some? then DueFor(http, d.edgePort.value, EdgeId(d.name), ProviderOf(d), d'.edgePort.value.port) else http
  }

  predicate AllPatched(ds: seq<ServiceDef>, ds': seq<ServiceDef>) {
    |ds| == |ds'| && forall i :: 0 <= i < |ds| ==> Patched(ds[i], ds'[i])
  }

  function AllDue(ds: seq<ServiceDef>, ds': seq<ServiceDef>): seq<PortAssignment>
    requires AllPatched(ds, ds')
  {
    if ds == [] then []
    else Due(AllDue(ds[..|ds| - 1], ds'[..|ds| - 1]), ds[|ds| - 1], ds'[|ds| - 1])
  }

  lemma {:induction false} OneMorePatched(ds: seq<ServiceDef>, ds': seq<ServiceDef>, d: ServiceDef, d': ServiceDef)
    requires AllPatched(ds, ds') && Patched(d, d')
    ensures AllPatched(ds + [d], ds' + [d']) && AllDue(ds + [d], ds' + [d']) == Due(AllDue(ds, ds'), d, d')
  {
    assert (ds + [d])[..|ds|] == ds && (ds' + [d'])[..|ds|] == ds';
  }

  function Ports(as_: seq<PortAssignment>): set<PortNumber> {
    if as_ == [] then {} else Ports(as_[..|as_| - 1]) + {as_[|as_| - 1].port}
  }

  /** Every port handed out was real, new, and outside `taken`. */
  predicate Fresh(as_: seq<PortAssignment>, taken: set<PortNumber>) {
    as_ != [] ==>
      var init, last := as_[..|as_| - 1], as_[|as_| - 1];
      Fresh(init, taken) && Usable(last.port, taken + Ports(init))
  }

  lemma {:induction false} FreshGrows(as_: seq<PortAssignment>, taken: set<PortNumber>, a: PortAssignment)
    requires Fresh(as_, taken) && Usable(a.port, taken + Ports(as_))
    ensures Fresh(as_ + [a], taken)
    ensures taken + Ports(as_ + [a]) == (taken + Ports(as_)) + {a.port}
  {
    assert (as_ + [a])[..|as_|] == as_;
  }

  /** The assigned ports are, one after the other, what the first `calls` calls draw, each avoiding what is taken
      and those before it. */
  ghost predicate Answers(as_: seq<PortAssignment>, alloc: Allocator, taken: set<PortNumber>, calls: nat)
    decreases |as_|
  {
    if as_ == [] then calls == 0
    else
      var init, last := as_[..|as_| - 1], as_[|as_| - 1];
      exists from: nat ::
        Answers(init, alloc, taken, from) && Drawn(alloc, from, calls, last.port, taken + Ports(init))
  }

  lemma {:induction false} AnswersGrow(as_: seq<PortAssignment>, alloc: Allocator, taken: set<PortNumber>, from: nat, next: nat, a: PortAssignment)
    requires Answers(as_, alloc, taken, from) && Drawn(alloc, from, next, a.port, taken + Ports(as_))
    ensures Answers(as_ + [a], alloc, taken, next)
  {
    assert (as_ + [a])[..|as_|] == as_;
  }

  /** Those are all the answers there were before a draw that failed. */
  ghost predicate FailsAfter(as_: seq<PortAssignment>, alloc: Allocator, taken: set<PortNumber>, calls: nat, error: MintError) {
    exists from: nat :: Answers(as_, alloc, taken, from) && FailedDraw(alloc, from, calls, error, taken + Ports(as_))
  }

  lemma {:induction false} OneDraw(alloc: Allocator, from: nat, next: nat, port: PortNumber, next': nat, port': PortNumber, reserved: set<PortNumber>)
    requires Drawn(alloc, from, next, port, reserved) && Drawn(alloc, from, next', port', reserved)
    ensures next == next' && port == port'
  {
    assert !Unusable(alloc, next - 1, reserved) && !Unusable(alloc, next' - 1, reserved);
  }

  /** The ports handed out are a function of the allocator's answers and of what is taken. */
  lemma {:induction false} AnswersDetermine(as_: seq<PortAssignment>, as': seq<PortAssignment>, alloc: Allocator, taken: set<PortNumber>, calls: nat, calls': nat)
    requires |as_| == |as'| && Answers(as_, alloc, taken, calls) && Answers(as', alloc, taken, calls')
    ensures calls == calls' && Ports(as_) == Ports(as') && forall i :: 0 <= i < |as_| ==> as_[i].port == as'[i].port
    decreases |as_|
  {
    if as_ != [] {
      var n := |as_| - 1;
      var from: nat :| Answers(as_[..n], alloc, taken, from) && Drawn(alloc, from, calls, as_[n].port, taken + Ports(as_[..n]));
      var from': nat :| Answers(as'[..n], alloc, taken, from') && Drawn(alloc, from', calls', as'[n].port, taken + Ports(as'[..n]));
      AnswersDetermine(as_[..n], as'[..n], alloc, taken, from, from');
      OneDraw(alloc, from, calls, as_[n].port, calls', as'[n].port, taken + Ports(as_[..n]));
    }
  }

  lemma {:induction false} PortsMean(as_: seq<PortAssignment>, p: PortNumber)
    ensures p in Ports(as_) <==> exists i :: 0 <= i < |as_| && as_[i].port == p
  {
    if as_ != [] {
      var n := |as_| - 1;
      PortsMean(as_[..n], p);
      assert as_ == as_[..n] + [as_[n]];
    }
  }

  /** The ports handed out are nonzero, outside `taken`, and pairwise distinct. */
  lemma {:induction false} FreshPortsAreDistinct(as_: seq<PortAssignment>, taken: set<PortNumber>, i: nat, j: nat)
    requires Fresh(as_, taken) && i < j < |as_|
    ensures as_[i].port != 0 && as_[i].port !in taken && as_[j].port != 0 && as_[j].port !in taken
    ensures as_[i].port != as_[j].port
  {
    var n := |as_| - 1;
    if j < n {
      FreshPortsAreDistinct(as_[..n], taken, i, j);
    } else {
      PortsMean(as_[..n], as_[i].port);
      FreshPortIsReal(as_, taken, i);
    }
  }

  lemma {:induction false} FreshPortIsReal(as_: seq<PortAssignment>, taken: set<PortNumber>, i: nat)
    requires Fresh(as_, taken) && i < |as_|
    ensures as_[i].port != 0 && as_[i].port !in taken
  {
    if i < |as_| - 1 {
      FreshPortIsReal(as_[..|as_| - 1], taken, i);
    }
  }

  /** Mints one field, unless it is literal already, and records its assignment. */
  method MintPort(port: Port, id: string, provider: string, alloc: Allocator, from: nat,
                  reserved: set<PortNumber>, ghost taken: set<PortNumber>, as_: seq<PortAssignment>)
    returns (r: Result<Port, MintError>, next: nat, reserved': set<PortNumber>, as': seq<PortAssignment>)
    requires Fresh(as_, taken) && reserved == taken + Ports(as_) && Answers(as_, alloc, taken, from)
    ensures r.Ok? ==> PatchedPort(port, r.value)
    ensures r.Ok? ==> as' == DueFor(as_, port, id, provider, r.value.port)
    ensures Fresh(as', taken) && reserved' == taken + Ports(as')
    ensures r.Ok? ==> Answers(as', alloc, taken, next)
    ensures r.Err? ==> FailsAfter(as', alloc, taken, next, r.error)
  {
    r, next, reserved', as' := Ok(port), from, reserved, as_;
    if port.Mint? {
      var drawn;
      drawn, next, reserved' := DrawFreePort(alloc, from, reserved);
      if drawn.Err? {
        r := Err(drawn.error);
        return;
      }
      var a := PortAssignment(id, provider, drawn.value, true);
      FreshGrows(as_, taken, a);
      AnswersGrow(as_, alloc, taken, from, next, a);
      r, as' := Ok(Literal(drawn.value)), as_ + [a];
    }
  }

  /** Mints one service's ports. */
  method MintService(d: ServiceDef, alloc: Allocator, from: nat, reserved: set<PortNumber>,
                     ghost taken: set<PortNumber>, as_: seq<PortAssignment>)
    returns (r: Result<ServiceDef, MintError>, next: nat, reserved': set<PortNumber>, as': seq<PortAssignment>)
    requires Fresh(as_, taken) && reserved == taken + Ports(as_) && Answers(as_, alloc, taken, from)
    ensures r.Ok? ==> Patched(d, r.value) && as' == Due(as_, d, r.value)
    ensures Fresh(as', taken) && reserved' == taken + Ports(as')
    ensures r.Ok? ==> Answers(as', alloc, taken, next)
    ensures r.Err? ==> FailsAfter(as', alloc, taken, next, r.error)
  {
    var provider := ProviderOf(d);
    var http;
    http, next, reserved', as' := MintPort(d.httpPort, HttpId(d.name), provider, alloc, from, reserved, taken, as_);
    if http.Err? {
      return Err(http.error), next, reserved', as';
    }
    var d' := d.(httpPort := http.value);
    if d.edgePort.Some? {
      var edge;
      edge, next, reserved', as' := MintPort(d.edgePort.value, EdgeId(d.name), provider, alloc, next, reserved', taken, as');
      if edge.Err? {
        return Err(edge.error), next, reserved', as';
      }
      d' := d'.(edgePort := Some(edge.value));
    }
    r := Ok(d');
  }

  /** The agent's own port and every literal of the fleet are off limits from the start. */
  method SeedReserved(defs: array<ServiceDef>) returns (reserved: set<PortNumber>)
    ensures reserved == {AGENT_PORT} + Literals(defs[..])
  {
    reserved := {AGENT_PORT};
    for i := 0 to defs.Length
      invariant reserved == {AGENT_PORT} + Literals(defs[..i])
    {
      reserved := reserved + LiteralsOf(defs[i]);
      assert defs[..i + 1][..i] == defs[..i];
    }
    assert defs[..defs.Length] == defs[..];
  }

  /** The first `i` services are patched, their assignments made, and the others are as they were. */
  predicate Progress(was: seq<ServiceDef>, now: seq<ServiceDef>, i: nat, as_: seq<PortAssignment>) {
    && i <= |was| == |now| && now[i..] == was[i..]
    && AllPatched(was[..i], now[..i]) && as_ == AllDue(was[..i], now[..i])
  }

  lemma {:induction false} OneMoreDone(was: seq<ServiceDef>, now: seq<ServiceDef>, i: nat, as_: seq<PortAssignment>, d': ServiceDef)
    requires Progress(was, now, i, as_) && i < |was| && Patched(was[i], d')
    ensures Progress(was, now[i := d'], i + 1, Due(as_, was[i], d'))
  {
    var then_ := now[i := d'];
    OneMorePatched(was[..i], now[..i], was[i], d');
    assert was[..i + 1] == was[..i] + [was[i]] && then_[..i + 1] == now[..i] + [d'];
    assert then_[i + 1..] == now[i..][1..] && was[i + 1..] == was[i..][1..];
  }

  /** One iteration: mints the service at `i` in place, those before it being done. */
  method MintNext(defs: array<ServiceDef>, i: nat, alloc: Allocator, from: nat, reserved: set<PortNumber>,
                  ghost taken: set<PortNumber>, as_: seq<PortAssignment>, ghost was: seq<ServiceDef>)
    returns (r: Result<(), MintError>, next: nat, reserved': set<PortNumber>, as': seq<PortAssignment>)
    requires i < defs.Length && Progress(was, defs[..], i, as_)
    requires Fresh(as_, taken) && reserved == taken + Ports(as_) && Answers(as_, alloc, taken, from)
    modifies defs
    ensures r.Ok? ==> Progress(was, defs[..], i + 1, as')
    ensures Fresh(as', taken) && reserved' == taken + Ports(as')
    ensures r.Ok? ==> Answers(as', alloc, taken, next)
    ensures r.Err? ==> FailsAfter(as', alloc, taken, next, r.error)
  {
    assert defs[i] == defs[..][i..][0] == was[i];
    var minted;
    minted, next, reserved', as' := MintService(defs[i], alloc, from, reserved, taken, as_);
    if minted.Err? {
      return Err(minted.error), next, reserved', as';
    }
    OneMoreDone(was, defs[..], i, as_, minted.value);
    defs[i] := minted.value;
    assert defs[..] == old(defs[..])[i := minted.value];
    r := Ok(());
  }

  /** Mints service after service, in place, avoiding what is taken. */
  method MintEach(defs: array<ServiceDef>, alloc: Allocator, taken: set<PortNumber>)
    returns (r: Result<seq<PortAssignment>, MintError>, calls: nat, assignments: seq<PortAssignment>, reserved: set<PortNumber>)
    modifies defs
    ensures r.Ok? ==> AllPatched(old(defs[..]), defs[..]) && r.value == assignments == AllDue(old(defs[..]), defs[..])
    ensures Fresh(assignments, taken) && reserved == taken + Ports(assignments)
    ensures r.Ok? ==> Answers(assignments, alloc, taken, calls)
    ensures r.Err? ==> FailsAfter(assignments, alloc, taken, calls, r.error)
  {
    ghost var was := defs[..];
    assignments, calls, reserved := [], 0, taken;
    for i := 0 to defs.Length
      invariant Progress(was, defs[..], i, assignments)
      invariant Fresh(assignments, taken) && reserved == taken + Ports(assignments)
      invariant Answers(assignments, alloc, taken, calls)
    {
      var minted;
      minted, calls, reserved, assignments := MintNext(defs, i, alloc, calls, reserved, taken, assignments, was);
      if minted.Err? {
        r := Err(minted.error);
        return;
      }
    }
    assert defs[..][..defs.Length] == defs[..] && was[..defs.Length] == was;
    r := Ok(assignments);
  }

  /** The mint pass. On success every service is patched in place, the assignments are exactly those
      due, and their ports are nonzero, pairwise distinct and disjoint from the agent's port and every
      literal port of the fleet. It fails only when the allocator does or after a thousand answers in
      a row that are zero, taken at first, or already assigned. */
  method MintFleetPorts(defs: array<ServiceDef>, alloc: Allocator)
    returns (r: Result<seq<PortAssignment>, MintError>, calls: nat, assignments: seq<PortAssignment>)
    modifies defs
    ensures r.Ok? ==> AllPatched(old(defs[..]), defs[..]) && r.value == assignments == AllDue(old(defs[..]), defs[..])
    ensures Fresh(assignments, {8300} + Literals(old(defs[..])))
    ensures r.Ok? ==> Answers(assignments, alloc, {8300} + Literals(old(defs[..])), calls)
    ensures r.Err? ==> FailsAfter(assignments, alloc, {8300} + Literals(old(defs[..])), calls, r.error)
  {
    var reserved := SeedReserved(defs);
    r, calls, assignments, reserved := MintEach(defs, alloc, reserved);
  }

  // ---------------------------------------------------------------------------------------------
  // Consequences of the specification
  // ---------------------------------------------------------------------------------------------

  predicate NoMint(d: ServiceDef) {
    d.httpPort.Literal? && !MintsEdge(d)
  }

  predicate UniqueNames(ds: seq<ServiceDef>) {
    forall i, j :: 0 <= i < j < |ds| ==> ds[i].name != ds[j].name
  }

  function MintedFields(ds: seq<ServiceDef>): nat {
    if ds == [] then 0
    else
      var d := ds[|ds| - 1];
      MintedFields(ds[..|ds| - 1]) + (if d.httpPort.Mint? then 1 else 0) + (if MintsEdge(d) then 1 else 0)
  }

  lemma {:induction false} SuffixesDiffer(a: string, b: string)
    ensures HttpId(a) != EdgeId(b)
    ensures HttpId(a) == HttpId(b) ==> a == b
    ensures EdgeId(a) == EdgeId(b) ==> a == b
  {
    assert HttpId(a)[|HttpId(a)| - 1] == 'p' && EdgeId(b)[|EdgeId(b)| - 1] == 'e';
    if HttpId(a) == HttpId(b) {
      assert a == HttpId(a)[..|a|] && b == HttpId(b)[..|b|];
    }
    if EdgeId(a) == EdgeId(b) {
      assert a == EdgeId(a)[..|a|] && b == EdgeId(b)[..|b|];
    }
  }

  predicate Claims(d: ServiceDef, p: PortNumber) {
    d.httpPort == Literal(p) || d.edgePort == Some(Literal(p)) || d.playerPort == Some(p)
  }

  lemma {:induction false} LiteralsOfMean(d: ServiceDef, p: PortNumber)
    ensures p in LiteralsOf(d) <==> Claims(d, p)
  {
  }

  /** A literal port of the fleet is one some service has for http, for its edge or for players. */
  lemma {:induction false} LiteralsMean(ds: seq<ServiceDef>, p: PortNumber)
    ensures p in Literals(ds) <==> exists i :: 0 <= i < |ds| && Claims(ds[i], p)
  {
    if ds != [] {
      var n := |ds| - 1;
      LiteralsMean(ds[..n], p);
      LiteralsOfMean(ds[n], p);
      if i :| 0 <= i < n && Claims(ds[i], p) {
        assert ds[..n][i] == ds[i];
      }
    }
  }

  /** What is assigned to a service: its http port under its name and `:http`, or its edge port under its name and
      `:edge`, to its provider, which is itself unless it names one, and alive. */
  predicate AssignedTo(d: ServiceDef, d': ServiceDef, a: PortAssignment) {
    && a.provider == (match d.provider case Some(p) => p case None => d.name)
    && a.alive
    && (|| (d.httpPort == Mint && d'.httpPort == Literal(a.port) && a.instanceId == d.name + ":http")
        || (d.edgePort == Some(Mint) && d'.edgePort == Some(Literal(a.port)) && a.instanceId == d.name + ":edge"))
  }

  /** Assignment `a` is one of service `i`. */
  predicate AssignedAt(ds: seq<ServiceDef>, ds': seq<ServiceDef>, i: nat, a: PortAssignment)
    requires |ds| == |ds'|
  {
    i < |ds| && AssignedTo(ds[i], ds'[i], a)
  }

  lemma {:induction false} DueMean(as_: seq<PortAssignment>, d: ServiceDef, d': ServiceDef, a: PortAssignment)
    requires Patched(d, d')
    ensures a in Due(as_, d, d') <==> a in as_ || AssignedTo(d, d', a)
  {
  }

  /** What is due comes after what was there: the http port, the edge port, or first the one and then the other. */
  lemma {:induction false} DueExtends(as_: seq<PortAssignment>, d: ServiceDef, d': ServiceDef)
    requires Patched(d, d')
    ensures var all, n := Due(as_, d, d'), |as_|;
            && n <= |all| <= n + 2 && (forall k :: 0 <= k < n ==> all[k] == as_[k])
            && (forall k :: n <= k < |all| ==> AssignedTo(d, d', all[k]))
            && (|all| == n + 2 ==> all[n].instanceId == d.name + ":http" && all[n + 1].instanceId == d.name + ":edge")
  {
  }

  ghost predicate AssignedIn(ds: seq<ServiceDef>, ds': seq<ServiceDef>, a: PortAssignment)
    requires |ds| == |ds'|
  {
    exists i: nat :: AssignedAt(ds, ds', i, a)
  }

  lemma {:induction false} AssignedBefore(ds: seq<ServiceDef>, ds': seq<ServiceDef>, d: ServiceDef, d': ServiceDef, a: PortAssignment)
    requires |ds| == |ds'|
    ensures AssignedIn(ds + [d], ds' + [d'], a) <==> AssignedIn(ds, ds', a) || AssignedTo(d, d', a)
  {
    if i: nat :| AssignedAt(ds + [d], ds' + [d'], i, a) {
      assert i < |ds| ==> AssignedAt(ds, ds', i, a);
    }
    if i: nat :| AssignedAt(ds, ds', i, a) {
      assert AssignedAt(ds + [d], ds' + [d'], i, a);
    }
    if AssignedTo(d, d', a) {
      assert AssignedAt(ds + [d], ds' + [d'], |ds|, a);
    }
  }

  lemma {:induction false} OneMoreMeans(ds: seq<ServiceDef>, ds': seq<ServiceDef>, d: ServiceDef, d': ServiceDef, a: PortAssignment)
    requires AllPatched(ds, ds') && Patched(d, d') && (a in AllDue(ds, ds') <==> AssignedIn(ds, ds', a))
    ensures AllPatched(ds + [d], ds' + [d'])
    ensures a in AllDue(ds + [d], ds' + [d']) <==> AssignedIn(ds + [d], ds' + [d'], a)
  {
    OneMorePatched(ds, ds', d, d');
    DueMean(AllDue(ds, ds'), d, d', a);
    AssignedBefore(ds, ds', d, d', a);
  }

  /** The assignments are exactly those of the minted fields of the services. */
  lemma {:induction false} AssignmentsMean(ds: seq<ServiceDef>, ds': seq<ServiceDef>, a: PortAssignment)
    requires AllPatched(ds, ds')
    ensures a in AllDue(ds, ds') <==> AssignedIn(ds, ds', a)
    decreases |ds|
  {
    if ds == [] {
      assert forall i: nat :: !AssignedAt(ds, ds', i, a);
    } else {
      var n := |ds| - 1;
      var init, init', d, d' := ds[..n], ds'[..n], ds[n], ds'[n];
      assert ds == init + [d] && ds' == init' + [d'];
      AssignmentsMean(init, init', a);
      OneMoreMeans(init, init', d, d', a);
    }
  }

  lemma {:induction false} AssignedSomewhere(ds: seq<ServiceDef>, ds': seq<ServiceDef>, k: nat) returns (i: nat)
    requires AllPatched(ds, ds') && k < |AllDue(ds, ds')|
    ensures AssignedAt(ds, ds', i, AllDue(ds, ds')[k])
  {
    AssignmentsMean(ds, ds', AllDue(ds, ds')[k]);
    i :| AssignedAt(ds, ds', i, AllDue(ds, ds')[k]);
  }

  /** Assignments `a` and `b` are of services in this order, or of the http and the edge port of one. */
  ghost predicate InOrder(ds: seq<ServiceDef>, ds': seq<ServiceDef>, a: PortAssignment, b: PortAssignment)
    requires |ds| == |ds'|
  {
    exists i: nat, j: nat :: i <= j && AssignedAt(ds, ds', i, a) && AssignedAt(ds, ds', j, b) &&
      (i == j ==> a.instanceId == ds[i].name + ":http" && b.instanceId == ds[i].name + ":edge")
  }

  lemma {:induction false} InOrderBefore(ds: seq<ServiceDef>, ds': seq<ServiceDef>, d: ServiceDef, d': ServiceDef, a: PortAssignment, b: PortAssignment)
    requires |ds| == |ds'| && InOrder(ds, ds', a, b)
    ensures InOrder(ds + [d], ds' + [d'], a, b)
  {
    var i: nat, j: nat :| i <= j && AssignedAt(ds, ds', i, a) && AssignedAt(ds, ds', j, b) &&
      (i == j ==> a.instanceId == ds[i].name + ":http" && b.instanceId == ds[i].name + ":edge");
    assert AssignedAt(ds + [d], ds' + [d'], i, a) && AssignedAt(ds + [d], ds' + [d'], j, b);
  }

  lemma {:induction false} InOrderAcross(ds: seq<ServiceDef>, ds': seq<ServiceDef>, d: ServiceDef, d': ServiceDef, i: nat, a: PortAssignment, b: PortAssignment)
    requires |ds| == |ds'| && AssignedAt(ds, ds', i, a) && AssignedTo(d, d', b)
    ensures InOrder(ds + [d], ds' + [d'], a, b)
  {
    assert AssignedAt(ds + [d], ds' + [d'], i, a) && AssignedAt(ds + [d], ds' + [d'], |ds|, b);
  }

  lemma {:induction false} InOrderWithin(ds: seq<ServiceDef>, ds': seq<ServiceDef>, d: ServiceDef, d': ServiceDef, a: PortAssignment, b: PortAssignment)
    requires |ds| == |ds'| && AssignedTo(d, d', a) && AssignedTo(d, d', b)
    requires a.instanceId == d.name + ":http" && b.instanceId == d.name + ":edge"
    ensures InOrder(ds + [d], ds' + [d'], a, b)
  {
    assert AssignedAt(ds + [d], ds' + [d'], |ds|, a) && AssignedAt(ds + [d], ds' + [d'], |ds|, b);
  }

  /** Ports are drawn in the order of the services, and for one service http before edge. */
  lemma {:induction false} AssignedInOrder(ds: seq<ServiceDef>, ds': seq<ServiceDef>, j: nat, k: nat)
    requires AllPatched(ds, ds') && j < k < |AllDue(ds, ds')|
    ensures InOrder(ds, ds', AllDue(ds, ds')[j], AllDue(ds, ds')[k])
    decreases |ds|
  {
    var n := |ds| - 1;
    var init, init', d, d' := ds[..n], ds'[..n], ds[n], ds'[n];
    assert ds == init + [d] && ds' == init' + [d'];
    OneMorePatched(init, init', d, d');
    var early, all := AllDue(init, init'), AllDue(ds, ds');
    DueExtends(early, d, d');
    if k < |early| {
      AssignedInOrder(init, init', j, k);
      InOrderBefore(init, init', d, d', early[j], early[k]);
    } else if j < |early| {
      var i := AssignedSomewhere(init, init', j);
      InOrderAcross(init, init', d, d', i, early[j], all[k]);
    } else {
      InOrderWithin(init, init', d, d', all[j], all[k]);
    }
  }

  /** When service names are unique, so are the assignment ids. */
  lemma {:induction false} DueIdsUnique(ds: seq<ServiceDef>, ds': seq<ServiceDef>, j: nat, k: nat)
    requires AllPatched(ds, ds') && UniqueNames(ds) && j < k < |AllDue(ds, ds')|
    ensures AllDue(ds, ds')[j].instanceId != AllDue(ds, ds')[k].instanceId
  {
    var a, b := AllDue(ds, ds')[j], AllDue(ds, ds')[k];
    AssignedInOrder(ds, ds', j, k);
    var i: nat, i': nat :| i <= i' && AssignedAt(ds, ds', i, a) && AssignedAt(ds, ds', i', b) &&
      (i == i' ==> a.instanceId == ds[i].name + ":http" && b.instanceId == ds[i].name + ":edge");
    SuffixesDiffer(ds[i].name, ds[i'].name);
    SuffixesDiffer(ds[i'].name, ds[i].name);
  }

  /** After a patch no port is left to mint, and there is one assignment per minted field. */
  lemma {:induction false} MintIsComplete(ds: seq<ServiceDef>, ds': seq<ServiceDef>)
    requires AllPatched(ds, ds')
    ensures forall i :: 0 <= i < |ds'| ==> NoMint(ds'[i])
    ensures |AllDue(ds, ds')| == MintedFields(ds)
  {
    if ds != [] {
      MintIsComplete(ds[..|ds| - 1], ds'[..|ds| - 1]);
    }
  }
}
