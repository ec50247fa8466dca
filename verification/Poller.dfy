/** The out-of-band readiness poller: one probe per interval, round-robin over the healthy services. */
module Poller {
  import opened Prelude
  import opened ServiceRun

  datatype Probe = Answered | NotAnswered | ConnectFailed

  function ReadinessFor(p: Probe): Readiness {
    match p
    case Answered => ReadyNow
    case NotAnswered => Degraded
    case ConnectFailed => Unreachable
  }

  /** How far `i` lies after `cursor` on the ring of `n`; the cursor itself lies a whole round away. */
  function Distance(n: nat, cursor: nat, i: nat): nat
    requires cursor < n && i < n
  {
    if cursor < i then i - cursor else n + i - cursor
  }

  /** `i` is the first healthy index after the cursor. */
  predicate IsNextProbe(healthy: seq<bool>, cursor: nat, i: nat) {
    && cursor < |healthy| && i < |healthy|
    && healthy[i]
    && forall j :: 0 <= j < |healthy| && healthy[j] ==>
         Distance(|healthy|, cursor, i) <= Distance(|healthy|, cursor, j)
  }

  /** Tries the offsets from `offset` to the fleet size, so the cursor's own index comes last. */
  function Search(healthy: seq<bool>, cursor: nat, offset: nat): (r: Option<nat>)
    requires cursor < |healthy| && 1 <= offset <= |healthy| + 1
    ensures r.Some? ==> r.value < |healthy| && healthy[r.value]
    decreases |healthy| + 1 - offset
  {
    if offset > |healthy| then None
    else
      var i := Wrap(|healthy|, cursor + offset);
      if healthy[i] then Some(i) else Search(healthy, cursor, offset + 1)
  }

  /** The index a step past the end wraps to, which is the remainder by the fleet size. */
  function Wrap(n: nat, x: nat): nat
    requires x < 2 * n
  {
    if x < n then x else x - n
  }

  lemma {:induction false} WrapIsRemainder(n: nat, x: nat)
    requires x < 2 * n
    ensures Wrap(n, x) == x % n
  {
    assert x / n == if x < n then 0 else 1;
  }

  function NextProbeIndex(healthy: seq<bool>, cursor: nat): (r: Option<nat>)
    requires healthy != [] ==> cursor < |healthy|
    ensures r.Some? ==> r.value < |healthy| && healthy[r.value]
  {
    if healthy == [] then None else Search(healthy, cursor, 1)
  }

  lemma {:induction false} SearchFindsNearest(healthy: seq<bool>, cursor: nat, offset: nat)
    requires cursor < |healthy| && 1 <= offset <= |healthy| + 1
    requires forall j :: 0 <= j < |healthy| && Distance(|healthy|, cursor, j) < offset ==> !healthy[j]
    ensures var r := Search(healthy, cursor, offset);
            && (r.None? ==> forall j :: 0 <= j < |healthy| ==> !healthy[j])
            && (r.Some? ==> IsNextProbe(healthy, cursor, r.value))
    decreases |healthy| + 1 - offset
  {
    var n := |healthy|;
    if offset > n {
      assert forall j :: 0 <= j < n ==> Distance(n, cursor, j) <= n;
    } else {
      var i := Wrap(n, cursor + offset);
      assert Distance(n, cursor, i) == offset;
      if !healthy[i] {
        SearchFindsNearest(healthy, cursor, offset + 1);
      }
    }
  }

  /** The next probe goes to the nearest healthy service after the cursor, and to none exactly if none is
      healthy. */
  lemma {:induction false} NextProbeIsNearest(healthy: seq<bool>, cursor: nat)
    requires cursor < |healthy|
    ensures var r := NextProbeIndex(healthy, cursor);
            && (r.None? <==> forall j :: 0 <= j < |healthy| ==> !healthy[j])
            && (r.Some? ==> IsNextProbe(healthy, cursor, r.value))
  {
    SearchFindsNearest(healthy, cursor, 1);
  }

  // ---------------------------------------------------------------------------------------------
  // Runs
  // ---------------------------------------------------------------------------------------------

  predicate Masks(masks: seq<seq<bool>>, n: nat) {
    forall k :: 0 <= k < |masks| ==> |masks[k]| == n
  }

  /** Where the cursor stands after the polls `masks`. */
  function CursorAfter(masks: seq<seq<bool>>, n: nat, cursor: nat): (c: nat)
    requires Masks(masks, n) && cursor < n
    ensures c < n
  {
    if masks == [] then cursor
    else
      var k := |masks| - 1;
      var c := CursorAfter(masks[..k], n, cursor);
      match NextProbeIndex(masks[k], c)
      case Some(i) => i
      case None => c
  }

  /** The service probed by poll `k`, if any. */
  function ProbedAt(masks: seq<seq<bool>>, n: nat, cursor: nat, k: nat): Option<nat>
    requires Masks(masks, n) && cursor < n && k < |masks|
  {
    NextProbeIndex(masks[k], CursorAfter(masks[..k], n, cursor))
  }

  /** No starvation: whatever happens to the other services between polls, one that stays healthy from
      poll `a` on is probed within as many polls as it lies after the cursor, hence within a fleet
      size. */
  lemma {:induction false} NoStarvation(masks: seq<seq<bool>>, n: nat, cursor: nat, i: nat, a: nat)
    requires Masks(masks, n) && cursor < n && i < n && a <= |masks|
    requires var d := Distance(n, CursorAfter(masks[..a], n, cursor), i);
             && a + d <= |masks|
             && forall k :: a <= k < a + d ==> masks[k][i]
    ensures exists k :: a <= k < a + Distance(n, CursorAfter(masks[..a], n, cursor), i) <= a + n
                        && ProbedAt(masks, n, cursor, k) == Some(i)
    decreases |masks| - a
  {
    var c := CursorAfter(masks[..a], n, cursor);
    var d := Distance(n, c, i);
    NextProbeIsNearest(masks[a], c);
    var p := ProbedAt(masks, n, cursor, a).value;
    if p != i {
      assert masks[..a + 1][..a] == masks[..a] && masks[..a + 1][a] == masks[a];
      assert CursorAfter(masks[..a + 1], n, cursor) == p;
      assert Distance(n, p, i) + Distance(n, c, p) == d;
      NoStarvation(masks, n, cursor, i, a + 1);
    }
  }

  // A fixed mask: the healthy services take strict turns.

  /** The healthy services up to and including `i`, going round from the cursor. */
  function UpTo(mask: seq<bool>, c: nat, i: nat): set<nat>
    requires c < |mask| && i < |mask|
  {
    set j | 0 <= j < |mask| && mask[j] && Distance(|mask|, c, j) <= Distance(|mask|, c, i)
  }

  function HealthySet(mask: seq<bool>): set<nat> {
    set j | 0 <= j < |mask| && mask[j]
  }

  /** A poll of an unchanging mask, as a function of the cursor. */
  function Polling(mask: seq<bool>): nat -> Option<nat> {
    (c: nat) => if c < |mask| then NextProbeIndex(mask, c) else None
  }

  /** The cursor after `t` polls. */
  function Walk(poll: nat -> Option<nat>, c: nat, t: nat): nat {
    if t == 0 then c
    else
      var c' := Walk(poll, c, t - 1);
      match poll(c')
      case Some(i) => i
      case None => c'
  }

  /** How often `t` polls probe service `i`. */
  function Hits(poll: nat -> Option<nat>, c: nat, t: nat, i: nat): nat {
    if t == 0 then 0
    else Hits(poll, c, t - 1, i) + if poll(Walk(poll, c, t - 1)) == Some(i) then 1 else 0
  }

  lemma {:induction false} WalkOn(poll: nat -> Option<nat>, c: nat, s: nat, t: nat, i: nat)
    ensures Walk(poll, c, s + t) == Walk(poll, Walk(poll, c, s), t)
    ensures Hits(poll, c, s + t, i) == Hits(poll, c, s, i) + Hits(poll, Walk(poll, c, s), t, i)
  {
    if t > 0 {
      WalkOn(poll, c, s, t - 1, i);
      assert s + t - 1 == s + (t - 1);
    }
  }

  lemma {:induction false} Compose(poll: nat -> Option<nat>, c: nat, s: nat, t: nat, i: nat)
    requires s <= t
    ensures Hits(poll, c, t, i) == Hits(poll, c, s, i) + Hits(poll, Walk(poll, c, s), t - s, i)
  {
    WalkOn(poll, c, s, t - s, i);
    assert s + (t - s) == t;
  }

  lemma {:induction false} WalkStays(mask: seq<bool>, c: nat, t: nat)
    requires c < |mask|
    ensures Walk(Polling(mask), c, t) < |mask|
  {
    if t > 0 {
      WalkStays(mask, c, t - 1);
    }
  }

  /** A probe either hits `i`, which then comes last again, or moves `i` one turn closer. */
  lemma {:induction false} TurnMovesUp(mask: seq<bool>, c: nat, i: nat)
    requires c < |mask| && i < |mask| && mask[i]
    ensures NextProbeIndex(mask, c).Some?
    ensures var p := NextProbeIndex(mask, c).value;
            if p == i then UpTo(mask, c, i) == {i} && UpTo(mask, p, i) == HealthySet(mask)
            else UpTo(mask, p, i) == UpTo(mask, c, i) - {p} && p in UpTo(mask, c, i)
  {
    NextProbeIsNearest(mask, c);
    var n, p := |mask|, NextProbeIndex(mask, c).value;
    forall j | 0 <= j < n && mask[j] && j != p
      ensures Distance(n, p, j) == Distance(n, c, j) - Distance(n, c, p)
    {
      assert Distance(n, c, p) <= Distance(n, c, j);
    }
    assert Distance(n, p, p) == n;
    if p == i {
      assert UpTo(mask, c, i) == {i};
      assert UpTo(mask, p, i) == HealthySet(mask);
    } else {
      assert UpTo(mask, p, i) == UpTo(mask, c, i) - {p};
    }
  }

  /** Until its turn comes, `i` moves up one place per poll. */
  lemma {:induction false} BeforeTheTurn(mask: seq<bool>, c: nat, i: nat, t: nat)
    requires c < |mask| && i < |mask| && mask[i] && t < |UpTo(mask, c, i)|
    ensures var c' := Walk(Polling(mask), c, t);
            c' < |mask| && |UpTo(mask, c', i)| == |UpTo(mask, c, i)| - t
    ensures Hits(Polling(mask), c, t, i) == 0
  {
    if t > 0 {
      BeforeTheTurn(mask, c, i, t - 1);
      var c' := Walk(Polling(mask), c, t - 1);
      TurnMovesUp(mask, c', i);
      assert Polling(mask)(c') == NextProbeIndex(mask, c');
    }
  }

  /** When its turn comes, after `r` polls, `i` is probed and goes to the back. */
  lemma {:induction false} TheTurn(mask: seq<bool>, c: nat, i: nat) returns (r: nat)
    requires c < |mask| && i < |mask| && mask[i]
    ensures 1 <= r <= |HealthySet(mask)|
    ensures Hits(Polling(mask), c, r, i) == 1 && Walk(Polling(mask), c, r) == i
    ensures |UpTo(mask, i, i)| == |HealthySet(mask)|
  {
    r := |UpTo(mask, c, i)|;
    assert i in UpTo(mask, c, i);
    Smaller(UpTo(mask, c, i), HealthySet(mask));
    BeforeTheTurn(mask, c, i, r - 1);
    var c' := Walk(Polling(mask), c, r - 1);
    TurnMovesUp(mask, c', i);
    assert i in UpTo(mask, c', i);
    Alone(UpTo(mask, c', i), i);
    assert Polling(mask)(c') == Some(i);
  }

  /** A probe of `i` that leaves the cursor there, and then as many polls as complete a round. */
  lemma {:induction false} TurnThenRest(mask: seq<bool>, c: nat, i: nat) returns (r: nat)
    requires c < |mask| && i < |mask| && mask[i]
    ensures 1 <= r <= |HealthySet(mask)|
    ensures Hits(Polling(mask), c, r, i) == 1 && Walk(Polling(mask), c, r) == i
    ensures Hits(Polling(mask), i, |HealthySet(mask)| - r, i) == 0
  {
    r := TheTurn(mask, c, i);
    BeforeTheTurn(mask, i, i, |HealthySet(mask)| - r);
  }

  lemma {:induction false} Smaller(a: set<nat>, b: set<nat>)
    requires a <= b
    ensures |a| <= |b|
  {
    assert b == a + (b - a);
  }

  lemma {:induction false} Alone(s: set<nat>, i: nat)
    requires i in s && |s| == 1
    ensures s == {i}
  {
    assert |s - {i}| == 0;
    assert s == (s - {i}) + {i};
  }

  /** One round, as many polls as there are healthy services, probes `i` once. */
  lemma {:induction false} OneRound(mask: seq<bool>, c: nat, i: nat)
    requires c < |mask| && i < |mask| && mask[i]
    ensures Hits(Polling(mask), c, |HealthySet(mask)|, i) == 1
  {
    var r := TurnThenRest(mask, c, i);
    Compose(Polling(mask), c, r, |HealthySet(mask)|, i);
  }

  /** Fair shares: over `k` rounds of an unchanging mask every healthy service is probed exactly `k`
      times, and an unhealthy one never. */
  lemma {:induction false} FairShares(mask: seq<bool>, c: nat, i: nat, k: nat)
    requires c < |mask| && i < |mask|
    ensures Hits(Polling(mask), c, k * |HealthySet(mask)|, i) == if mask[i] then k else 0
    decreases k
  {
    var h := |HealthySet(mask)|;
    if !mask[i] {
      NeverUnhealthy(mask, c, k * h, i);
    } else if k > 0 {
      OneRound(mask, c, i);
      WalkStays(mask, c, h);
      FairShares(mask, Walk(Polling(mask), c, h), i, k - 1);
      var rest := (k - 1) * h;
      assert k * h == h + rest;
      Compose(Polling(mask), c, h, h + rest, i);
    }
  }

  lemma {:induction false} NeverUnhealthy(mask: seq<bool>, c: nat, t: nat, i: nat)
    requires c < |mask| && i < |mask| && !mask[i]
    ensures Hits(Polling(mask), c, t, i) == 0
  {
    if t > 0 {
      NeverUnhealthy(mask, c, t - 1, i);
      WalkStays(mask, c, t - 1);
    }
  }

  // ---------------------------------------------------------------------------------------------
  // The poller loop
  // ---------------------------------------------------------------------------------------------

  /** What the slot of service `i` holds after the polls: blank if it was unhealthy at the last one,
      else the newest verdict about it since it was last blank, else what it held at first. */
  function SlotAfter(masks: seq<seq<bool>>, probes: seq<Probe>, n: nat, cursor: nat, i: nat, first: Readiness): Readiness
    requires Masks(masks, n) && cursor < n && i < n && |probes| == |masks|
  {
    if masks == [] then first
    else
      var k := |masks| - 1;
      if !masks[k][i] then Unknown
      else if ProbedAt(masks, n, cursor, k) == Some(i) then ReadinessFor(probes[k])
      else SlotAfter(masks[..k], probes[..k], n, cursor, i, first)
  }

  /** From poll `k` on the service stays healthy and is not probed. */
  predicate LeftAlone(masks: seq<seq<bool>>, n: nat, cursor: nat, i: nat, k: nat)
    requires Masks(masks, n) && cursor < n && i < n
  {
    forall j :: k <= j < |masks| ==> masks[j][i] && ProbedAt(masks, n, cursor, j) != Some(i)
  }

  lemma {:induction false} LeftAloneEarlier(masks: seq<seq<bool>>, n: nat, cursor: nat, i: nat, k: nat)
    requires Masks(masks, n) && cursor < n && i < n && masks != [] && LeftAlone(masks, n, cursor, i, k)
    ensures LeftAlone(masks[..|masks| - 1], n, cursor, i, k)
  {
    var init := masks[..|masks| - 1];
    forall j | k <= j < |init| ensures init[j][i] && ProbedAt(init, n, cursor, j) != Some(i) {
      assert init[..j] == masks[..j];
    }
  }

  /** The last thing that happened to a service decides its slot: being unhealthy blanks it, and a probe makes it
      ready if it was answered with readiness, degraded if with anything else, unreachable if nothing listened. */
  lemma {:induction false} LastEventDecides(masks: seq<seq<bool>>, probes: seq<Probe>, n: nat, cursor: nat, i: nat, first: Readiness, k: nat)
    requires Masks(masks, n) && cursor < n && i < n && |probes| == |masks|
    requires k < |masks| && LeftAlone(masks, n, cursor, i, k + 1)
    ensures var slot := SlotAfter(masks, probes, n, cursor, i, first);
            && (!masks[k][i] ==> slot == Unknown)
            && (masks[k][i] && ProbedAt(masks, n, cursor, k) == Some(i) ==>
                  && (probes[k] == Answered <==> slot == ReadyNow)
                  && (probes[k] == NotAnswered <==> slot == Degraded)
                  && (probes[k] == ConnectFailed <==> slot == Unreachable))
  {
    var last := |masks| - 1;
    if k < last {
      LeftAloneEarlier(masks, n, cursor, i, k + 1);
      LastEventDecides(masks[..last], probes[..last], n, cursor, i, first, k);
      assert masks[..last][..k] == masks[..k];
      assert masks[last][i] && ProbedAt(masks, n, cursor, last) != Some(i);
    }
  }

  /** A service to which nothing happened keeps its slot. */
  lemma {:induction false} NoEventNoChange(masks: seq<seq<bool>>, probes: seq<Probe>, n: nat, cursor: nat, i: nat, first: Readiness)
    requires Masks(masks, n) && cursor < n && i < n && |probes| == |masks| && LeftAlone(masks, n, cursor, i, 0)
    ensures SlotAfter(masks, probes, n, cursor, i, first) == first
  {
    if masks != [] {
      var last := |masks| - 1;
      LeftAloneEarlier(masks, n, cursor, i, 0);
      NoEventNoChange(masks[..last], probes[..last], n, cursor, i, first);
      assert masks[last][i] && ProbedAt(masks, n, cursor, last) != Some(i);
    }
  }

  /** The poller until it is shut down: per interval one snapshot of the healthy services, blanks for
      the rest, and at most one probe. */
  method ReadinessPoller(masks: seq<seq<bool>>, probes: seq<Probe>, slots: array<Readiness>)
    requires Masks(masks, slots.Length) && |probes| == |masks|
    modifies slots
    ensures forall i :: 0 <= i < slots.Length ==>
              slots[i] == SlotAfter(masks, probes, slots.Length, slots.Length - 1, i, old(slots[i]))
  {
    var n := slots.Length;
    var cursor: nat := if n == 0 then 0 else n - 1;
    for k := 0 to |masks|
      invariant n > 0 ==> cursor == CursorAfter(masks[..k], n, n - 1)
      invariant forall i :: 0 <= i < n ==>
                  slots[i] == SlotAfter(masks[..k], probes[..k], n, n - 1, i, old(slots[i]))
    {
      assert masks[..k + 1][..k] == masks[..k] && probes[..k + 1][..k] == probes[..k];
      ghost var were := slots[..];
      for i := 0 to n
        invariant forall j :: 0 <= j < n ==> slots[j] == if j < i && !masks[k][j] then Unknown else were[j]
      {
        if !masks[k][i] {
          slots[i] := Unknown;
        }
      }
      var next := NextProbeIndex(masks[k], cursor);
      if next.Some? {
        cursor := next.value;
        slots[cursor] := ReadinessFor(probes[k]);
      }
    }
    assert masks[..|masks|] == masks && probes[..|probes|] == probes;
  }
}
